/** Whole runs of one broadcast ring: every interleaving of puts and of any number of readers' gets. */
module RecycleRuns {
  import opened Bytes
  import opened RecycleRing

  datatype Event = Put(bytes: seq<byte>) | Get(id: nat, size: int, aligned: int)

  /** A nonempty read: how much had been published then, and the interval of the stream handed out. */
  datatype Delivery = Delivery(total: nat, from: nat, bytes: seq<byte>) {
    function End(): nat {
      from + |bytes|
    }
  }

  datatype World = World(stream: seq<byte>, readers: map<nat, Reader>, logs: map<nat, seq<Delivery>>) {
    function ReaderOf(id: nat): Reader {
      if id in readers then readers[id] else Fresh
    }

    function LogOf(id: nat): seq<Delivery> {
      if id in logs then logs[id] else []
    }
  }

  const START := World([], map[], map[])

  predicate Sane(r: Reader, total: nat) {
    r.At? ==> r.pos <= r.seen <= total
  }

  ghost predicate SaneWorld(w: World) {
    forall id :: Sane(w.ReaderOf(id), |w.stream|)
  }

  /** One locked operation on a ring of `n` bytes. `wide` replaces the 32-bit counter by an unbounded one. */
  ghost function Step(w: World, n: nat, e: Event, wide: bool): World
    requires n > 0 && SaneWorld(w)
  {
    match e
    case Put(bytes) => if 0 < |bytes| <= n then w.(stream := w.stream + bytes) else w
    case Get(id, size, aligned) =>
      var r := w.ReaderOf(id);
      var f := Look(|w.stream|, n, r, size, aligned, wide);
      FetchStays(|w.stream|, n, r, size, aligned, wide);
      w.(readers := w.readers[id := f.reader], logs := w.logs[id := Logged(w.LogOf(id), w.stream, f)])
  }

  ghost function Run(n: nat, events: seq<Event>, wide: bool): (w: World)
    requires n > 0
    ensures SaneWorld(w)
    decreases |events|
  {
    if events == [] then START
    else
      var before := Run(n, events[..|events| - 1], wide);
      StepSane(before, n, events[|events| - 1], wide);
      Step(before, n, events[|events| - 1], wide)
  }

  /** `Fetch` with a counter that never wraps. */
  function FetchWide(total: nat, n: nat, r: Reader, size: int, aligned: int): Fetched
    requires n > 0 && Sane(r, total)
  {
    match r
    case Fresh => Fetched(At(total, total), total, 0)
    case At(pos, seen) =>
      if Mod(total - pos, n) == 0 && total == seen then Fetched(r, pos, 0)
      else Advance(total, n, pos, size, aligned)
  }

  function Look(total: nat, n: nat, r: Reader, size: int, aligned: int, wide: bool): Fetched
    requires n > 0 && Sane(r, total)
  {
    if wide then FetchWide(total, n, r, size, aligned) else Fetch(total, n, r, size, aligned)
  }

  function Logged(log: seq<Delivery>, stream: seq<byte>, f: Fetched): seq<Delivery>
    requires f.len > 0 ==> f.from + f.len <= |stream|
  {
    if f.len <= 0 then log else log + [Delivery(|stream|, f.from, stream[f.from..f.from + f.len])]
  }

  // ----- one get

  predicate Gap(from: nat, to: nat, n: nat)
    requires n > 0
  {
    from <= to && Mod(to - from, n) == 0
  }

  lemma GapsJoin(a: nat, b: nat, c: nat, n: nat)
    requires n > 0 && Gap(a, b, n) && Gap(b, c, n)
    ensures Gap(a, c, n)
  {
    LapsAdd(b - a, c - b, n);
    assert (b - a) + (c - b) == c - a;
  }

  /** A get hands out a piece of the last `n` bytes that starts whole laps after the reader's position, at the
      position itself if the reader was at most one lap behind. */
  lemma GetSkipsWholeLaps(total: nat, n: nat, r: Reader, size: int, aligned: int, wide: bool)
    requires n > 0 && r.At? && Sane(r, total)
    ensures
      var f := Look(total, n, r, size, aligned, wide);
      && Gap(r.pos, f.from, n)
      && (f.len > 0 ==> total - n <= f.from && f.from + f.len <= total)
      && (f.len > 0 ==> f.reader == At(f.from + f.len, total))
      && (f.len > 0 && total - r.pos <= n ==> f.from == r.pos)
      && (f.len <= 0 ==> f.reader.At? && Gap(r.pos, f.reader.pos, n))
  {
    if total > r.pos {
      ReadyBounds(total, r.pos, n);
      CopyLenBounds(Ready(total, r.pos, n), size, aligned);
    }
  }

  /** A reader that asks for at least one aligned block, no larger than the ring, never loses a lap while it
      is at most one lap behind, and is afterwards strictly less than one lap behind. */
  lemma SteadyGetLosesNothing(total: nat, n: nat, r: Reader, size: int, aligned: int, wide: bool)
    requires n > 0 && r.At? && Sane(r, total)
    requires 1 <= size && aligned <= size && aligned <= n
    requires total - r.pos <= n
    ensures
      var f := Look(total, n, r, size, aligned, wide);
      f.len >= 0 && f.from == r.pos && f.reader.pos == r.pos + f.len
  {
    if total > r.pos {
      ReadyBounds(total, r.pos, n);
      CopyLenBounds(Ready(total, r.pos, n), size, aligned);
    }
  }

  /** How much a get hands out. `held` are the unread bytes that the ring still has: whole laps after the reader's
      position, and all that is unread if that is at most one lap. Of these it takes as many as were asked for, cut
      down to a multiple of the alignment, and no fewer. */
  lemma GetTakesAllItCan(total: nat, n: nat, r: Reader, held: nat, size: nat, aligned: int)
    requires n > 0 && r.At? && Sane(r, total) && r.pos < total
    requires 1 <= held <= Min(n, total - r.pos) && Gap(r.pos, total - held, n)
    requires !(Mod(total - r.pos, n) == 0 && (total - r.seen) % 0x1_0000_0000 == 0)
    ensures total - r.pos <= n ==> held == total - r.pos
    ensures
      var f := Fetch(total, n, r, size, aligned);
      && (f.len > 0 ==> f.from == total - held)
      && (aligned <= 0 ==> f.len == Min(held, size))
      && (aligned > 0 ==> Min(held, size) - aligned < f.len <= Min(held, size) && Mod(f.len, aligned) == 0)
  {
    HeldIsReady(total, r.pos, n, held);
    ReadyBounds(total, r.pos, n);
    if aligned > 0 {
      RoundToBounds(Min(held, size), aligned);
    }
  }

  /** Whole laps determine what is held. */
  lemma {:induction false} HeldIsReady(total: nat, pos: nat, n: nat, held: nat)
    requires n > 0 && pos < total && 1 <= held <= Min(n, total - pos) && Mod(total - held - pos, n) == 0
    ensures held == Ready(total, pos, n)
    ensures total - pos <= n ==> held == total - pos
  {
    if total - pos > n {
      HeldIsReady(total - n, pos, n, held);
    }
  }

  /** Without that care the ring can lose bytes it still holds: a reader exactly one lap behind that cannot be
      given one aligned block is moved to the end of the stream, and takes the next bytes for the first new ones.
      This is the only way a reader at most one lap behind loses anything. */
  lemma StalledReaderLosesLap(total: nat, n: nat, r: Reader, size: int, aligned: int)
    requires n > 0 && r.At? && Sane(r, total) && total - r.pos <= n
    ensures
      var f := Fetch(total, n, r, size, aligned);
      f.reader.pos != f.from + Max(0, f.len) <==>
        total - r.pos == n && (total - r.seen) % 0x1_0000_0000 != 0 && CopyLen(n, size, aligned) <= 0
  {
    if total > r.pos {
      ReadyBounds(total, r.pos, n);
      CopyLenBounds(Ready(total, r.pos, n), size, aligned);
    }
  }

  lemma FetchStays(total: nat, n: nat, r: Reader, size: int, aligned: int, wide: bool)
    requires n > 0 && Sane(r, total)
    ensures
      var f := Look(total, n, r, size, aligned, wide);
      && Sane(f.reader, total)
      && (f.len > 0 ==> f.from + f.len <= total)
  {
    if r.At? && total > r.pos {
      ReadyBounds(total, r.pos, n);
      CopyLenBounds(Ready(total, r.pos, n), size, aligned);
    }
  }

  lemma StepSane(w: World, n: nat, e: Event, wide: bool)
    requires n > 0 && SaneWorld(w)
    ensures SaneWorld(Step(w, n, e, wide))
  {
    var w' := Step(w, n, e, wide);
    forall id
      ensures Sane(w'.ReaderOf(id), |w'.stream|)
    {
      assert Sane(w.ReaderOf(id), |w.stream|);
      if e.Get? {
        FetchStays(|w.stream|, n, w.ReaderOf(e.id), e.size, e.aligned, wide);
      }
    }
  }

  // ----- whole runs

  /** What a reader has been given, oldest first: slices of the published stream, each within the last `n` bytes
      at the time, in order, without overlap, and with only whole laps left out in between. */
  ghost predicate FaithfulLog(log: seq<Delivery>, stream: seq<byte>, n: nat, r: Reader)
    requires n > 0
  {
    && (forall i :: 0 <= i < |log| ==> Faithful(log[i], stream, n))
    && (forall i :: 0 < i < |log| ==> Gap(log[i - 1].End(), log[i].from, n))
    && (log != [] ==> r.At? && Gap(log[|log| - 1].End(), r.pos, n))
  }

  predicate Faithful(d: Delivery, stream: seq<byte>, n: nat) {
    && 0 < |d.bytes|
    && d.End() <= d.total <= |stream|
    && d.total - n <= d.from
    && d.bytes == stream[d.from..d.End()]
  }

  /** A reader that never fell more than a lap behind between two reads has received them back to back. */
  ghost predicate LosslessLog(log: seq<Delivery>, n: nat, r: Reader) {
    && (forall i :: 0 < i < |log| ==>
          (log[i].total - log[i - 1].End() <= n ==> log[i].from == log[i - 1].End()))
    && (log != [] ==> r.At? && (r.pos == log[|log| - 1].End() || r.seen > log[|log| - 1].End() + n))
  }

  lemma PutKeepsLog(log: seq<Delivery>, stream: seq<byte>, bytes: seq<byte>, n: nat, r: Reader)
    requires n > 0 && FaithfulLog(log, stream, n, r)
    ensures FaithfulLog(log, stream + bytes, n, r)
  {
    forall i | 0 <= i < |log|
      ensures Faithful(log[i], stream + bytes, n)
    {
      assert Faithful(log[i], stream, n);
    }
  }

  lemma GetKeepsLog(log: seq<Delivery>, stream: seq<byte>, n: nat, r: Reader, f: Fetched)
    requires n > 0 && FaithfulLog(log, stream, n, r)
    requires f.reader.At? && (r.At? ==> Gap(r.pos, f.from, n))
    requires if f.len > 0 then f.reader.pos == f.from + f.len && |stream| - n <= f.from && f.from + f.len <= |stream|
             else r.At? ==> Gap(r.pos, f.reader.pos, n)
    ensures FaithfulLog(Logged(log, stream, f), stream, n, f.reader)
  {
    assert Gap(f.reader.pos, f.reader.pos, n);
    if log != [] {
      hide Mod;
      GapsJoin(log[|log| - 1].End(), r.pos, if f.len > 0 then f.from else f.reader.pos, n);
    }
  }

  lemma {:induction false} EveryRunIsFaithful(n: nat, events: seq<Event>, wide: bool, id: nat)
    requires n > 0
    ensures
      var w := Run(n, events, wide);
      FaithfulLog(w.LogOf(id), w.stream, n, w.ReaderOf(id))
    decreases |events|
  {
    if events != [] {
      hide FaithfulLog, Fetch, FetchWide;
      var before, e := Run(n, events[..|events| - 1], wide), events[|events| - 1];
      EveryRunIsFaithful(n, events[..|events| - 1], wide, id);
      match e
      case Put(bytes) => PutKeepsLog(before.LogOf(id), before.stream, bytes, n, before.ReaderOf(id));
      case Get(reader, size, aligned) =>
        if reader == id {
          var r := before.ReaderOf(id);
          assert Sane(r, |before.stream|);
          FirstGetJoins(|before.stream|, n, size, aligned, wide);
          if r.At? {
            GetSkipsWholeLaps(|before.stream|, n, r, size, aligned, wide);
          }
          GetKeepsLog(before.LogOf(id), before.stream, n, r, Look(|before.stream|, n, r, size, aligned, wide));
        }
    } else {
      assert FaithfulLog([], [], n, Fresh);
    }
  }

  /** The first get of a reader hands out nothing and places it at the end of what has been published. */
  lemma FirstGetJoins(total: nat, n: nat, size: int, aligned: int, wide: bool)
    requires n > 0
    ensures Look(total, n, Fresh, size, aligned, wide) == Fetched(At(total, total), total, 0)
  {
  }

  /** Everything a reader has been given, and will be given, lies at or behind the stream position `at`. */
  ghost predicate Since(log: seq<Delivery>, r: Reader, at: nat) {
    && (forall i :: 0 <= i < |log| ==> at <= log[i].from)
    && r.At? && at <= r.pos
  }

  lemma StepKeepsSince(w: World, n: nat, e: Event, wide: bool, id: nat, at: nat)
    requires n > 0 && SaneWorld(w) && Since(w.LogOf(id), w.ReaderOf(id), at)
    ensures var w' := Step(w, n, e, wide); Since(w'.LogOf(id), w'.ReaderOf(id), at)
  {
    hide Fetch, FetchWide;
    if e.Get? && e.id == id {
      assert Sane(w.ReaderOf(id), |w.stream|);
      GetSkipsWholeLaps(|w.stream|, n, w.ReaderOf(id), e.size, e.aligned, wide);
    }
  }

  lemma JoiningStep(w: World, n: nat, id: nat, size: int, aligned: int, wide: bool)
    requires n > 0 && SaneWorld(w) && w.ReaderOf(id) == Fresh && w.LogOf(id) == []
    ensures var w' := Step(w, n, Get(id, size, aligned), wide); Since(w'.LogOf(id), w'.ReaderOf(id), |w.stream|)
  {
    FirstGetJoins(|w.stream|, n, size, aligned, wide);
  }

  /** No reader is ever given a byte from before its first get: in every run that goes on from there, all it receives
      was published afterwards. */
  lemma {:induction false} NothingFromBeforeTheJoin(n: nat, events: seq<Event>, more: seq<Event>, wide: bool,
                                                    id: nat, size: int, aligned: int)
    requires n > 0 && Run(n, events, wide).ReaderOf(id) == Fresh
    ensures
      var joined := events + [Get(id, size, aligned)];
      var w := Run(n, joined + more, wide);
      Since(w.LogOf(id), w.ReaderOf(id), |Run(n, events, wide).stream|)
    decreases |more|
  {
    hide Step, Since;
    var joined := events + [Get(id, size, aligned)];
    if more == [] {
      assert joined + more == joined && joined[..|joined| - 1] == events;
      EveryRunIsFaithful(n, events, wide, id);
      JoiningStep(Run(n, events, wide), n, id, size, aligned, wide);
    } else {
      var front := more[..|more| - 1];
      assert (joined + more)[..|joined + more| - 1] == joined + front;
      NothingFromBeforeTheJoin(n, events, front, wide, id, size, aligned);
      StepKeepsSince(Run(n, joined + front, wide), n, more[|more| - 1], wide, id, |Run(n, events, wide).stream|);
    }
  }

  predicate Steady(events: seq<Event>, n: nat, id: nat) {
    forall i :: 0 <= i < |events| && events[i].Get? && events[i].id == id ==>
      1 <= events[i].size && events[i].aligned <= events[i].size && events[i].aligned <= n
  }

  lemma SteadyGetKeepsLog(log: seq<Delivery>, stream: seq<byte>, n: nat, r: Reader,
                          size: int, aligned: int, wide: bool)
    requires n > 0 && LosslessLog(log, n, r) && Sane(r, |stream|) && r.At?
    requires 1 <= size && aligned <= size && aligned <= n
    ensures
      var f := Look(|stream|, n, r, size, aligned, wide);
      && (f.len > 0 ==> f.from + f.len <= |stream|)
      && LosslessLog(Logged(log, stream, f), n, f.reader)
  {
    hide Mod, Fetch, FetchWide;
    GetSkipsWholeLaps(|stream|, n, r, size, aligned, wide);
    if |stream| - r.pos <= n {
      SteadyGetLosesNothing(|stream|, n, r, size, aligned, wide);
    }
    NewlySeen(|stream|, n, r, size, aligned, wide);
  }

  lemma NewlySeen(total: nat, n: nat, r: Reader, size: int, aligned: int, wide: bool)
    requires n > 0 && Sane(r, total) && r.At?
    ensures
      var f := Look(total, n, r, size, aligned, wide);
      f.reader == r || (f.reader.At? && f.reader.seen == total)
  {
  }

  lemma {:induction false} EverySteadyRunIsLossless(n: nat, events: seq<Event>, wide: bool, id: nat)
    requires n > 0 && Steady(events, n, id)
    ensures
      var w := Run(n, events, wide);
      LosslessLog(w.LogOf(id), n, w.ReaderOf(id))
    decreases |events|
  {
    if events != [] {
      hide LosslessLog, Fetch, FetchWide;
      var before, e := Run(n, events[..|events| - 1], wide), events[|events| - 1];
      EverySteadyRunIsLossless(n, events[..|events| - 1], wide, id);
      if e.Get? && e.id == id {
        var r := before.ReaderOf(id);
        assert Sane(r, |before.stream|);
        FirstGetJoins(|before.stream|, n, e.size, e.aligned, wide);
        if r.At? {
          SteadyGetKeepsLog(before.LogOf(id), before.stream, n, r, e.size, e.aligned, wide);
        } else {
          FreshHasNoLog(before.LogOf(id), n);
        }
      }
    } else {
      assert LosslessLog([], n, Fresh);
    }
  }

  lemma FreshHasNoLog(log: seq<Delivery>, n: nat)
    requires LosslessLog(log, n, Fresh)
    ensures forall r: Reader :: LosslessLog(log, n, r)
  {
  }

  // ----- the 32-bit counter

  /** The 32-bit counter gives the same answer as an unbounded one unless a positive multiple of 2^32 bytes came
      in since the reader last looked and the ring positions coincide. */
  lemma CounterAliasesExactly(total: nat, n: nat, r: Reader, size: int, aligned: int)
    requires n > 0 && Sane(r, total)
    ensures Fetch(total, n, r, size, aligned) == FetchWide(total, n, r, size, aligned) <==>
      !(r.At? && total > r.seen && (total - r.seen) % 0x1_0000_0000 == 0 && Mod(total - r.pos, n) == 0)
  {
    FetchStays(total, n, r, size, aligned, true);
  }

  /** Every get of the run comes less than 2^32 bytes after the same reader's previous one. */
  ghost predicate Prompt(n: nat, events: seq<Event>)
    requires n > 0
    decreases |events|
  {
    events == [] ||
    var before, e := Run(n, events[..|events| - 1], true), events[|events| - 1];
    && Prompt(n, events[..|events| - 1])
    && (e.Get? && before.ReaderOf(e.id).At? ==> |before.stream| < before.ReaderOf(e.id).seen + 0x1_0000_0000)
  }

  lemma {:induction false} PromptRunsIgnoreTheWrap(n: nat, events: seq<Event>)
    requires n > 0 && Prompt(n, events)
    ensures Run(n, events, false) == Run(n, events, true)
    decreases |events|
  {
    if events != [] {
      var before, e := Run(n, events[..|events| - 1], true), events[|events| - 1];
      PromptRunsIgnoreTheWrap(n, events[..|events| - 1]);
      if e.Get? {
        assert Sane(before.ReaderOf(e.id), |before.stream|);
        CounterAliasesExactly(|before.stream|, n, before.ReaderOf(e.id), e.size, e.aligned);
      }
    }
  }
}
