/** Which SPS and PPS the scan of slscore/common.cpp (`sls_parse_spspps`) takes from a payload of several NAL units. */
module TsScan {
  import opened Bytes
  import opened Common
  import opened TsParser
  import opened TsPreamble

  datatype Nal = Nal(unit: seq<byte>, kind: nat)

  function Concat(nals: seq<Nal>): seq<byte> {
    if nals == [] then [] else nals[0].unit + Concat(nals[1..])
  }

  /** The first unit ends before the second begins, and not in bytes that read as a start code. */
  predicate Parts(u: seq<byte>, next: seq<byte>) {
    |u| > 0 && |next| > 3 && !EndsInStartCode(u) && !RunsTogether(u, next)
  }

  /** Units in Annex B form, each apart from the next. */
  ghost predicate Separated(nals: seq<Nal>) {
    nals == [] ||
    (IsUnit(nals[0].unit, nals[0].kind) && Separated(nals[1..])
     && (|nals| > 1 ==> Parts(nals[0].unit, nals[1].unit)))
  }

  /** Of the units in their order, each SPS and each PPS replaces the one before, until there are both. */
  function Kept(nals: seq<Nal>, u: Units): Units {
    if nals == [] || BothFound(u) then u else Kept(nals[1..], FileUnit(u, nals[0].kind, nals[0].unit))
  }

  /** No start code begins inside a unit that is followed by another. */
  lemma NoneInside(u: seq<byte>, kind: nat, next: seq<byte>, rest: seq<byte>, k: nat)
    requires IsUnit(u, kind) && |next| >= 5 && StartsUnit(next, 0)
    requires Parts(u, next)
    requires NalPos(u, 0) <= k < |u|
    ensures !StartsUnit(u + (next + rest), k)
  {
    var es := u + (next + rest);
    assert forall i :: 0 <= i < |u| ==> Octet(es, i) == u[i] == Octet(u, i);
    assert forall i :: 0 <= i < 5 ==> Octet(es, |u| + i) == next[i];
    assert next[0] == next[1] == next[2] == 0 by {
      assert Octet(next, 0) == 0 && Octet(next, 1) == 0 && Octet(next, 2) == 0;
    }
    if k < |u| - 4 {
      assert !StartsUnit(u, k);
    }
  }

  lemma Shift(es: seq<byte>, at: nat, k: nat)
    requires at <= |es|
    ensures StartsUnit(es[at..], k) == StartsUnit(es, at + k)
  {
    assert forall i: nat :: Octet(es[at..], i) == Octet(es, at + i);
  }

  lemma Cut(es: seq<byte>, esLen: int, at: nat, u: seq<byte>, tail: seq<byte>)
    requires at <= esLen <= |es| && es[at..esLen] == u + tail
    ensures at + |u| + |tail| == esLen && es[at..at + |u|] == u && es[at + |u|..esLen] == tail
    ensures es[at..] == u + (tail + es[esLen..])
  {
    assert es[at..at + |u|] == es[at..esLen][..|u|];
    assert es[at + |u|..esLen] == es[at..esLen][|u|..];
  }

  lemma FirstTwo(nals: seq<Nal>)
    requires |nals| >= 2 && Separated(nals)
    ensures
      var u, next := nals[0].unit, nals[1].unit;
      && IsUnit(u, nals[0].kind) && IsUnit(next, nals[1].kind) && |u| >= 5 && |next| >= 5 && StartsUnit(next, 0)
      && Parts(u, next) && Separated(nals[1..])
      && Concat(nals) == u + Concat(nals[1..]) && Concat(nals[1..]) == next + Concat(nals[1..][1..])
  {
    assert nals[1..][0] == nals[1];
  }

  /** The unit at `at` up to the next one. */
  lemma UnitEndsAtNext(es: seq<byte>, esLen: int, at: nat, nals: seq<Nal>)
    requires at <= esLen <= |es| && |nals| >= 2 && Separated(nals) && es[at..esLen] == Concat(nals)
    ensures
      var u := nals[0].unit;
      && |u| >= 5 && at + |u| + 5 <= esLen && es[at..at + |u|] == u && es[at + |u|..esLen] == Concat(nals[1..])
      && NoStartIn(es, at + NalPos(u, 0), at + |u|)
  {
    hide IsUnit, StartsUnit, Concat, Separated, Parts, NalPos;
    FirstTwo(nals);
    var u, next, last := nals[0].unit, nals[1].unit, Concat(nals[1..][1..]);
    Cut(es, esLen, at, u, Concat(nals[1..]));
    var rest := last + es[esLen..];
    assert es[at..] == u + (next + rest) by {
      assert (next + last) + es[esLen..] == next + rest;
    }
    forall k | at + NalPos(u, 0) <= k < at + |u|
      ensures !StartsUnit(es, k)
    {
      NoneInside(u, nals[0].kind, next, rest, k - at);
      Shift(es, at, k - at);
    }
  }

  lemma UnitEndsAtEnd(es: seq<byte>, esLen: int, at: nat, u: seq<byte>, kind: nat)
    requires at <= esLen <= |es| && IsUnit(u, kind) && es[at..esLen] == u
    ensures |u| >= 5 && at + |u| == esLen && NoStartIn(es, at + NalPos(u, 0), esLen - 4)
  {
    assert forall i :: 0 <= i < |u| ==> Octet(es, at + i) == es[at..esLen][i] == Octet(u, i);
    forall k | at + NalPos(u, 0) <= k < esLen - 4
      ensures !StartsUnit(es, k)
    {
      assert !StartsUnit(u, k - at);
    }
  }

  /** The scan from the header of the last unit on. */
  lemma LastOne(es: seq<byte>, esLen: int, at: nat, nal: Nal, p: Option<nat>, u: Units)
    requires at <= esLen <= |es| && IsUnit(nal.unit, nal.kind) && es[at..esLen] == nal.unit
    requires (p.Some? ==> p.value <= at) && (Wanted(nal.kind) ==> p == Some(at)) && !BothFound(u)
    ensures
      var r := Scan(es, esLen, at + NalPos(nal.unit, 0), p, nal.kind, u);
      r.1 == FileUnit(u, nal.kind, nal.unit) && (r.0 == SLS_OK <==> BothFound(r.1))
  {
    UnitEndsAtEnd(es, esLen, at, nal.unit, nal.kind);
    var pos := at + NalPos(nal.unit, 0);
    if pos < esLen - 4 {
      ScanSkips(es, esLen, pos, esLen - 4, p, nal.kind, u);
    }
  }

  lemma ScanStops(es: seq<byte>, esLen: int, pos: nat, p: nat, nalType: nat, u: Units)
    requires p <= pos < esLen - 4 && esLen <= |es| && StartsUnit(es, pos)
    requires BothFound(FileUnit(u, nalType, es[p..pos]))
    ensures Scan(es, esLen, pos, Some(p), nalType, u) == (SLS_OK, FileUnit(u, nalType, es[p..pos]))
  {
  }

  lemma OneNal(nals: seq<Nal>, u: Units)
    requires |nals| == 1 && Separated(nals) && !BothFound(u)
    ensures Concat(nals) == nals[0].unit && IsUnit(nals[0].unit, nals[0].kind)
    ensures Kept(nals, u) == FileUnit(u, nals[0].kind, nals[0].unit)
  {
    var none: seq<Nal> := [];
    assert nals[1..] == none;
  }

  lemma {:induction false} ScanKeeps(es: seq<byte>, esLen: int, at: nat, nals: seq<Nal>, p: Option<nat>, nalType: nat,
                                     u: Units)
    requires at <= esLen <= |es| && nals != [] && Separated(nals) && es[at..esLen] == Concat(nals)
    requires p.Some? ==> p.value <= at
    requires !BothFound(if p.Some? then FileUnit(u, nalType, es[p.value..at]) else u)
    ensures
      var filed := if p.Some? then FileUnit(u, nalType, es[p.value..at]) else u;
      var r := Scan(es, esLen, at, p, nalType, u);
      r.1 == Kept(nals, filed) && (r.0 == SLS_OK <==> BothFound(r.1))
    decreases |nals|
  {
    hide Scan, IsUnit, StartsUnit, Separated, Concat, Parts, NalPos, NalType;
    var nal := nals[0];
    var filed := if p.Some? then FileUnit(u, nalType, es[p.value..at]) else u;
    var q := if Wanted(nal.kind) then Some(at) else p;
    NextStarts(es, esLen, at, nals);
    ScanStarts(es, esLen, at, p, nalType, u);
    if |nals| == 1 {
      OneNal(nals, filed);
      LastOne(es, esLen, at, nal, q, filed);
    } else {
      KeepsOneMore(es, esLen, at, nals, q, filed);
    }
  }

  /** The scan from the header of a unit that is followed by others. */
  lemma KeepsOneMore(es: seq<byte>, esLen: int, at: nat, nals: seq<Nal>, q: Option<nat>, filed: Units)
    requires at <= esLen <= |es| && |nals| >= 2 && Separated(nals) && es[at..esLen] == Concat(nals)
    requires !BothFound(filed)
    requires q.Some? ==> q.value <= at
    requires Wanted(nals[0].kind) ==> q == Some(at)
    ensures
      var r := Scan(es, esLen, at + NalPos(nals[0].unit, 0), q, nals[0].kind, filed);
      r.1 == Kept(nals, filed) && (r.0 == SLS_OK <==> BothFound(r.1))
    decreases |nals|, 0
  {
    hide Scan, IsUnit, StartsUnit, Separated, Concat, Parts, NalType;
    var nal := nals[0];
    var end := at + |nal.unit|;
    UnitEndsAtNext(es, esLen, at, nals);
    FirstTwo(nals);
    NextStarts(es, esLen, at, nals);
    ScanSkips(es, esLen, at + NalPos(nal.unit, 0), end, q, nal.kind, filed);
    var filed' := FileUnit(filed, nal.kind, nal.unit);
    assert (if q.Some? then FileUnit(filed, nal.kind, es[q.value..end]) else filed) == filed';
    if BothFound(filed') {
      NextStarts(es, esLen, end, nals[1..]);
      ScanStops(es, esLen, end, at, nal.kind, filed);
    } else {
      ScanKeeps(es, esLen, end, nals[1..], q, nal.kind, filed);
    }
  }

  lemma StartsHere(es: seq<byte>, esLen: int, at: nat, nal: Nal)
    requires IsUnit(nal.unit, nal.kind) && at + |nal.unit| <= esLen <= |es| && es[at..at + |nal.unit|] == nal.unit
    ensures StartsUnit(es, at) && NalPos(es, at) == at + NalPos(nal.unit, 0) && NalType(es, at) == nal.kind
    ensures at < esLen - 4 && NalPos(nal.unit, 0) <= |nal.unit|
  {
    UnitInPlace(es, nal.unit, at);
  }

  lemma NextStarts(es: seq<byte>, esLen: int, at: nat, nals: seq<Nal>)
    requires at <= esLen <= |es| && nals != [] && Separated(nals) && es[at..esLen] == Concat(nals)
    ensures StartsUnit(es, at) && at < esLen - 4
    ensures NalPos(es, at) == at + NalPos(nals[0].unit, 0) && NalType(es, at) == nals[0].kind
    ensures NalPos(nals[0].unit, 0) <= |nals[0].unit|
  {
    hide StartsUnit, NalPos, NalType;
    Cut(es, esLen, at, nals[0].unit, Concat(nals[1..]));
    StartsHere(es, esLen, at, nals[0]);
  }

  /** The scan of any separated units behind any bytes without a start code: of the units that it knew and those of the
      payload, in order, the latest SPS and the latest PPS until it has both. What comes later is not looked at. */
  lemma UnitsAreScanned(junk: seq<byte>, nals: seq<Nal>, more: seq<byte>, u: Units)
    requires nals != [] && Separated(nals) && !BothFound(u)
    requires NoStartIn(junk + Concat(nals) + more, 0, |junk|)
    ensures
      var payload := junk + Concat(nals);
      var r := Scan(payload + more, |payload|, 0, None, 0, u);
      r == (if BothFound(Kept(nals, u)) then SLS_OK else SLS_ERROR, Kept(nals, u))
  {
    hide Scan, IsUnit, StartsUnit;
    var payload := junk + Concat(nals);
    var es, at := payload + more, |junk|;
    assert es[at..|payload|] == Concat(nals);
    NextStarts(es, |payload|, at, nals);
    ScanSkips(es, |payload|, 0, at, None, 0, u);
    ScanKeeps(es, |payload|, at, nals, None, 0, u);
    ScanAnswers(es, |payload|, 0, None, 0, u);
  }

  lemma {:induction false} ScanAnswers(es: seq<byte>, esLen: int, pos: nat, p: Option<nat>, nalType: nat, u: Units)
    requires esLen <= |es| && (p.Some? ==> p.value <= pos && p.value <= esLen)
    ensures var r := Scan(es, esLen, pos, p, nalType, u).0; r == SLS_OK || r == SLS_ERROR
    decreases esLen - pos
  {
    if pos < esLen - 4 {
      if StartsUnit(es, pos) {
        var filed := if p.Some? then FileUnit(u, nalType, es[p.value..pos]) else u;
        if !(p.Some? && BothFound(filed)) {
          var t := NalType(es, pos);
          ScanAnswers(es, esLen, NalPos(es, pos), if Wanted(t) then Some(pos) else p, t, filed);
        }
      } else {
        ScanAnswers(es, esLen, pos + 1, p, nalType, u);
      }
    }
  }
}
