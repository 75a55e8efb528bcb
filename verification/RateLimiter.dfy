/** The fixed-window limiter of slscore/SLSApiServer.cpp (`checkRateLimit`). Times are nanoseconds. */
module RateLimiterModel {
  import opened Bytes

  const WINDOW := 60_000_000_000

  datatype LimitInfo = LimitInfo(requests: int, windowStart: int)

  /** One request against one counter, at `now`. */
  function Check(info: LimitInfo, max: int, now: int): (bool, LimitInfo) {
    var w := if TruncDiv(now - info.windowStart, 1_000_000_000) >= 60 then LimitInfo(0, now) else info;
    if w.requests >= max then (false, w) else (true, w.(requests := w.requests + 1))
  }

  // ----- keys

  function Key(ip: string, endpointType: string): string {
    ip + ":" + endpointType
  }

  /** Two pairs share a counter only if they are the same pair, because no configured type contains a colon
      (an IPv6 address does). */
  lemma KeysAreDistinct(ip1: string, type1: string, ip2: string, type2: string)
    requires ':' !in type1 && ':' !in type2
    requires Key(ip1, type1) == Key(ip2, type2)
    ensures ip1 == ip2 && type1 == type2
  {
    var k := Key(ip1, type1);
    LastColon(ip1, type1);
    LastColon(ip2, type2);
    assert k[..|ip1|] == ip1 && k[|ip1| + 1..] == type1;
    assert k[..|ip2|] == ip2 && k[|ip2| + 1..] == type2;
  }

  lemma LastColon(ip: string, endpointType: string)
    requires ':' !in endpointType
    ensures var k := Key(ip, endpointType);
      k[|ip|] == ':' && forall i :: |ip| < i < |k| ==> k[i] != ':'
  {
    var k := Key(ip, endpointType);
    forall i | |ip| < i < |k|
      ensures k[i] != ':'
    {
      assert k[i] == endpointType[i - |ip| - 1];
    }
  }

  // ----- the object

  class RateLimiter {
    var limits: map<string, LimitInfo>
    const config: map<string, int>

    constructor (config: map<string, int>)
      ensures this.config == config && limits == map[]
    {
      this.config := config;
      limits := map[];
    }

    /** `now` is the time the request is judged by; a counter made for it starts its window a moment later, at
        `created`. */
    method CheckRateLimit(ip: string, endpointType: string, now: int, created: int) returns (ok: bool)
      modifies this`limits
      ensures endpointType !in config ==> ok && limits == old(limits)
      ensures endpointType in config ==>
        var key := Key(ip, endpointType);
        var info := if key in old(limits) then old(limits)[key] else LimitInfo(0, created);
        var (verdict, after) := Check(info, config[endpointType], now);
        ok == verdict && limits == old(limits)[key := after]
    {
      if endpointType !in config {
        return true;
      }
      var maxRequests := config[endpointType];
      var key := ip + ":" + endpointType;
      if key !in limits {
        limits := limits[key := LimitInfo(0, created)];
      }
      var info := limits[key];
      var windowDuration := TruncDiv(now - info.windowStart, 1_000_000_000);
      if windowDuration >= 60 {
        info := LimitInfo(0, now);
        limits := limits[key := info];
      }
      if info.requests >= maxRequests {
        return false;
      }
      limits := limits[key := info.(requests := info.requests + 1)];
      return true;
    }
  }

  // ----- runs against one counter

  predicate NonDecreasing(times: seq<int>) {
    forall i, j :: 0 <= i < j < |times| ==> times[i] <= times[j]
  }

  /** The counter after the requests at `times`; it was made at the first of them, at clock reading `created`. */
  function CounterAfter(created: int, max: int, times: seq<int>): LimitInfo {
    if times == [] then LimitInfo(0, created)
    else Check(CounterAfter(created, max, times[..|times| - 1]), max, times[|times| - 1]).1
  }

  /** Whether request `i` is admitted. */
  predicate Admitted(created: int, max: int, times: seq<int>, i: nat)
    requires i < |times|
  {
    Check(CounterAfter(created, max, times[..i]), max, times[i]).0
  }

  /** The number of admitted requests among the first `n` at or after `from`. */
  function AdmittedSince(created: int, max: int, times: seq<int>, n: nat, from: int): nat
    requires n <= |times|
  {
    if n == 0 then 0
    else
      AdmittedSince(created, max, times, n - 1, from)
      + if times[n - 1] >= from && Admitted(created, max, times, n - 1) then 1 else 0
  }

  function RequestsSince(times: seq<int>, n: nat, from: int): nat
    requires n <= |times|
  {
    if n == 0 then 0 else RequestsSince(times, n - 1, from) + if times[n - 1] >= from then 1 else 0
  }

  predicate Wellformed(created: int, max: int, times: seq<int>) {
    max > 0 && NonDecreasing(times) && (times != [] ==> times[0] <= created)
  }

  /** A counter is reset only 60 seconds or more after its window began. */
  lemma ResetTakesAWindow(info: LimitInfo, now: int)
    ensures TruncDiv(now - info.windowStart, 1_000_000_000) >= 60 <==> now - info.windowStart >= WINDOW
  {
  }

  /** The first request of the window that request `i` falls in: windows begin with the counter and then with each
      request 60 seconds or more after the last beginning, admitted or not. */
  function WindowFirst(created: int, times: seq<int>, i: nat): (first: nat)
    requires i < |times|
    ensures first <= i
  {
    if i == 0 then 0
    else
      var first := WindowFirst(created, times, i - 1);
      if times[i] - WindowStart(created, times, first) >= WINDOW then i else first
  }

  function WindowStart(created: int, times: seq<int>, first: nat): int
    requires first < |times|
  {
    if first == 0 then created else times[first]
  }

  lemma {:induction false} CounterIsOfItsWindow(created: int, max: int, times: seq<int>, i: nat)
    requires Wellformed(created, max, times) && i < |times|
    ensures
      var c, first := CounterAfter(created, max, times[..i + 1]), WindowFirst(created, times, i);
      c == LimitInfo(Min(i + 1 - first, max), WindowStart(created, times, first))
  {
    assert times[..i + 1][..i] == times[..i];
    ResetTakesAWindow(CounterAfter(created, max, times[..i]), times[i]);
    if i > 0 {
      CounterIsOfItsWindow(created, max, times, i - 1);
    }
  }

  /** For every client: a request is admitted exactly if it is among the first `max` of its window. */
  lemma AdmittedExactly(created: int, max: int, times: seq<int>, i: nat)
    requires Wellformed(created, max, times) && i < |times|
    ensures Admitted(created, max, times, i) <==> i - WindowFirst(created, times, i) < max
  {
    ResetTakesAWindow(CounterAfter(created, max, times[..i]), times[i]);
    if i > 0 {
      CounterIsOfItsWindow(created, max, times, i - 1);
    }
  }

  /** What the counter knows after `n` requests: it never exceeds the limit, and it has counted everything admitted
      in its window. Before that, at most one more window's worth was admitted in the last 60 seconds. */
  ghost predicate CounterSound(created: int, max: int, times: seq<int>, n: nat)
    requires n <= |times|
  {
    var c := CounterAfter(created, max, times[..n]);
    && 0 <= c.requests <= max
    && (n > 0 ==> times[n - 1] < c.windowStart + WINDOW && times[0] <= c.windowStart)
    && (forall from {:trigger AdmittedSince(created, max, times, n, from)} ::
          && (from >= c.windowStart ==> AdmittedSince(created, max, times, n, from) <= c.requests)
          && (from > c.windowStart - WINDOW || (n > 0 && times[n - 1] < c.windowStart) ==>
                AdmittedSince(created, max, times, n, from) <= max + c.requests))
    && (n == 0 || times[n - 1] < c.windowStart ==>
          c.windowStart == created && forall from :: AdmittedSince(created, max, times, n, from) <= c.requests)
  }

  lemma {:induction false} CounterIsSound(created: int, max: int, times: seq<int>, n: nat)
    requires Wellformed(created, max, times) && n <= |times|
    ensures CounterSound(created, max, times, n)
  {
    if n > 0 {
      CounterIsSound(created, max, times, n - 1);
      var before, c := CounterAfter(created, max, times[..n - 1]), CounterAfter(created, max, times[..n]);
      assert times[..n][..n - 1] == times[..n - 1];
      ResetTakesAWindow(before, times[n - 1]);
      forall from
        ensures from >= c.windowStart ==> AdmittedSince(created, max, times, n, from) <= c.requests
        ensures from > c.windowStart - WINDOW || times[n - 1] < c.windowStart ==>
          AdmittedSince(created, max, times, n, from) <= max + c.requests
        ensures times[n - 1] < c.windowStart ==> AdmittedSince(created, max, times, n, from) <= c.requests
      {
        var _ := AdmittedSince(created, max, times, n - 1, from);
        if c.windowStart != before.windowStart && from >= c.windowStart {
          NothingLater(created, max, times, n - 1, from);
        }
      }
    }
  }

  lemma {:induction false} NothingLater(created: int, max: int, times: seq<int>, n: nat, from: int)
    requires NonDecreasing(times) && n <= |times| && (n > 0 ==> times[n - 1] < from)
    ensures AdmittedSince(created, max, times, n, from) == 0
  {
    if n > 0 {
      NothingLater(created, max, times, n - 1, from);
    }
  }

  /** In any half-open interval of 60 seconds at most twice the limit is admitted. The first `n` requests are those
      before the end of the interval that begins at `from`. */
  lemma AtMostTwiceTheLimit(created: int, max: int, times: seq<int>, n: nat, from: int)
    requires Wellformed(created, max, times) && n <= |times|
    requires n > 0 ==> times[n - 1] < from + WINDOW
    ensures AdmittedSince(created, max, times, n, from) <= 2 * max
  {
    CounterIsSound(created, max, times, n);
  }

  /** At most `max` requests in any half-open interval of length `span`. */
  ghost predicate Sparse(times: seq<int>, max: int, span: int) {
    forall n: nat, from: int {:trigger RequestsSince(times, n, from)} ::
      n <= |times| && (n > 0 ==> times[n - 1] < from + span) ==> RequestsSince(times, n, from) <= max
  }

  /** A counter is either still in its first window, where it has counted every request up to the limit, or in a
      window that one of the requests began, where it has counted requests of that window only. */
  lemma {:induction false} CounterCountsRequests(created: int, max: int, times: seq<int>, n: nat)
    requires Wellformed(created, max, times) && n <= |times|
    ensures var c := CounterAfter(created, max, times[..n]);
      || (c == LimitInfo(Min(n, max), created) && (n > 0 ==> times[n - 1] < created + WINDOW))
      || (n > 0 && created + WINDOW <= c.windowStart <= times[n - 1]
          && c.requests <= RequestsSince(times, n, c.windowStart))
  {
    if n > 0 {
      CounterCountsRequests(created, max, times, n - 1);
      assert times[..n][..n - 1] == times[..n - 1];
      ResetTakesAWindow(CounterAfter(created, max, times[..n - 1]), times[n - 1]);
    }
  }

  /** A client that sends at most the limit in every interval of 60 seconds is admitted exactly for its first `max`
      requests and again 60 seconds after the counter was made. */
  lemma SixtySecondClientExactly(created: int, max: int, times: seq<int>, i: nat)
    requires Wellformed(created, max, times) && i < |times|
    requires Sparse(times, max, WINDOW)
    ensures Admitted(created, max, times, i) <==> i < max || times[i] - created >= WINDOW
  {
    CounterCountsRequests(created, max, times, i);
    var c := CounterAfter(created, max, times[..i]);
    ResetTakesAWindow(c, times[i]);
    if c.windowStart != created && times[i] < c.windowStart + WINDOW {
      assert RequestsSince(times, i + 1, c.windowStart) == RequestsSince(times, i, c.windowStart) + 1;
    }
  }

  lemma {:induction false} AllSinceTheFirst(times: seq<int>, n: nat)
    requires NonDecreasing(times) && 0 < n <= |times|
    ensures RequestsSince(times, n, times[0]) == n
  {
    if n > 1 {
      AllSinceTheFirst(times, n - 1);
    }
  }

  /** So it is never refused if the intervals are longer by the time the counter took to be made. */
  lemma SparseClientIsNeverRefused(created: int, max: int, times: seq<int>, i: nat)
    requires Wellformed(created, max, times) && i < |times|
    requires Sparse(times, max, WINDOW + (created - times[0]))
    ensures Admitted(created, max, times, i)
  {
    SixtySecondClientExactly(created, max, times, i);
    AllSinceTheFirst(times, i + 1);
  }

  /** Sixty seconds alone are not enough once the counter's clock reading is later than the request's: the limit at
      time 0 and one more request 60 seconds later, never more than the limit in 60 seconds, and refused. */
  lemma LateCounterRefuses(created: int, max: nat)
    requires max > 0 && 0 < created
    ensures
      var times := seq(max, _ => 0) + [WINDOW];
      && Wellformed(created, max, times) && Sparse(times, max, WINDOW)
      && !Admitted(created, max, times, max)
  {
    var times := seq(max, _ => 0) + [WINDOW];
    forall n: nat, from: int {:trigger RequestsSince(times, n, from)}
      | n <= |times| && (n > 0 ==> times[n - 1] < from + WINDOW)
      ensures RequestsSince(times, n, from) <= max
    {
      BurstCount(times, max, n, from);
    }
    SixtySecondClientExactly(created, max, times, max);
  }

  lemma {:induction false} BurstCount(times: seq<int>, max: nat, n: nat, from: int)
    requires times == seq(max, _ => 0) + [WINDOW] && n <= |times|
    ensures RequestsSince(times, n, from) <= if from <= 0 then n else if n > max then 1 else 0
  {
    if n > 0 {
      BurstCount(times, max, n - 1, from);
    }
  }
}
