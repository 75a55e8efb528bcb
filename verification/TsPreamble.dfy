/** What holds of the parser and its preamble over every sequence of packets. */
module TsPreamble {
  import opened Bytes
  import opened Common
  import opened TsParser

  // ----- NAL units as the scan records them

  /** A NAL unit of type `t` in Annex B form: it opens with its start code, its header is inside it, and no other
      start code begins before its last four bytes. */
  ghost predicate IsUnit(u: seq<byte>, t: nat) {
    && |u| >= 5
    && StartsUnit(u, 0)
    && NalPos(u, 0) < |u| && NalType(u, 0) == t
    && NoStartIn(u, NalPos(u, 0), |u| - 4)
  }

  ghost predicate NoStartIn(es: seq<byte>, lo: nat, hi: int) {
    forall k :: lo <= k < hi ==> !StartsUnit(es, k)
  }

  /** A start code that ran into the end of its packet: the header byte was read from what followed. */
  const BARE_START_CODE: seq<byte> := [0, 0, 0, 0, 1]

  ghost predicate Recorded(u: seq<byte>, t: nat) {
    u == [] || u == BARE_START_CODE || IsUnit(u, t)
  }

  ghost predicate UnitsRecorded(u: Units) {
    Recorded(u.sps, H264_NAL_SPS) && Recorded(u.pps, H264_NAL_PPS)
  }

  predicate Wanted(nalType: nat) {
    nalType == H264_NAL_SPS || nalType == H264_NAL_PPS
  }

  /** The scan is inside a unit of the type it last read, and has passed no start code since. */
  ghost predicate Inside(es: seq<byte>, esLen: int, pos: nat, p: Option<nat>, nalType: nat) {
    p.Some? && Wanted(nalType) ==>
      && p.value < esLen - 4 && esLen <= |es|
      && StartsUnit(es, p.value) && nalType == NalType(es, p.value)
      && NalPos(es, p.value) <= pos
      && NoStartIn(es, NalPos(es, p.value), if pos < esLen - 4 then pos else esLen - 4)
  }

  lemma UnitToNextStart(es: seq<byte>, esLen: int, pos: nat, p: nat, nalType: nat)
    requires Inside(es, esLen, pos, Some(p), nalType) && Wanted(nalType)
    requires pos < esLen - 4 && StartsUnit(es, pos)
    ensures p <= pos && IsUnit(es[p..pos], nalType)
  {
    var u := es[p..pos];
    assert NalPos(es, p) < pos;
    assert forall k :: 0 <= k < |u| ==> Octet(u, k) == Octet(es, p + k);
    forall k | NalPos(u, 0) <= k < |u| - 4
      ensures !StartsUnit(u, k)
    {
      assert !StartsUnit(es, p + k);
    }
  }

  lemma UnitToEnd(es: seq<byte>, esLen: int, pos: nat, p: nat, nalType: nat)
    requires Inside(es, esLen, pos, Some(p), nalType) && Wanted(nalType)
    requires pos >= esLen - 4
    ensures p <= esLen && Recorded(es[p..esLen], nalType)
  {
    var u := es[p..esLen];
    assert forall k :: 0 <= k < |u| ==> Octet(u, k) == Octet(es, p + k);
    if NalPos(u, 0) >= |u| {
      assert u == BARE_START_CODE;
    } else {
      forall k | NalPos(u, 0) <= k < |u| - 4
        ensures !StartsUnit(u, k)
      {
        assert !StartsUnit(es, p + k);
      }
    }
  }

  lemma {:induction false} ScanRecordsUnits(es: seq<byte>, esLen: int, pos: nat, p: Option<nat>, nalType: nat, u: Units)
    requires esLen <= |es| && (p.Some? ==> p.value <= pos && p.value <= esLen)
    requires UnitsRecorded(u) && Inside(es, esLen, pos, p, nalType)
    ensures UnitsRecorded(Scan(es, esLen, pos, p, nalType, u).1)
    decreases esLen - pos
  {
    hide IsUnit;
    if pos >= esLen - 4 {
      if p.Some? && Wanted(nalType) {
        UnitToEnd(es, esLen, pos, p.value, nalType);
      }
    } else if StartsUnit(es, pos) {
      if p.Some? && Wanted(nalType) {
        UnitToNextStart(es, esLen, pos, p.value, nalType);
      }
      var filed := if p.Some? then FileUnit(u, nalType, es[p.value..pos]) else u;
      if !(p.Some? && BothFound(filed)) {
        var t := NalType(es, pos);
        ScanRecordsUnits(es, esLen, NalPos(es, pos), if Wanted(t) then Some(pos) else p, t, filed);
      }
    } else {
      ScanRecordsUnits(es, esLen, pos + 1, p, nalType, u);
    }
  }

  // ----- scanning SPS ++ PPS

  lemma {:induction false} ScanSkips(es: seq<byte>, esLen: int, pos: nat, to: nat, p: Option<nat>, nalType: nat,
                                     u: Units)
    requires esLen <= |es| && (p.Some? ==> p.value <= pos && p.value <= esLen)
    requires pos <= to && to <= esLen - 4 && NoStartIn(es, pos, to)
    ensures Scan(es, esLen, pos, p, nalType, u) == Scan(es, esLen, to, p, nalType, u)
    decreases esLen - pos
  {
    if pos < to {
      ScanSkips(es, esLen, pos + 1, to, p, nalType, u);
    }
  }

  predicate EndsInStartCode(u: seq<byte>) {
    |u| >= 4 && u[|u| - 4..] == [0, 0, 0, 1]
  }

  /** The last byte of the SPS reads as part of the start code of the PPS. */
  predicate RunsTogether(sps: seq<byte>, pps: seq<byte>)
    requires |sps| > 0 && |pps| > 3
  {
    sps[|sps| - 1] == 0 && pps[3] == 1
  }

  lemma StartsInsideSps(sps: seq<byte>, pps: seq<byte>, rest: seq<byte>, k: nat)
    requires IsUnit(sps, H264_NAL_SPS) && |pps| >= 5 && StartsUnit(pps, 0)
    requires NalPos(sps, 0) <= k < |sps|
    ensures StartsUnit(sps + pps + rest, k) <==>
      (k == |sps| - 4 && EndsInStartCode(sps)) || (k == |sps| - 1 && RunsTogether(sps, pps))
  {
    var es := sps + pps + rest;
    assert forall i :: 0 <= i < |sps| ==> Octet(es, i) == sps[i] == Octet(sps, i);
    assert forall i :: 0 <= i < 5 ==> Octet(es, |sps| + i) == pps[i];
    assert pps[0] == pps[1] == pps[2] == 0 by {
      assert Octet(pps, 0) == 0 && Octet(pps, 1) == 0 && Octet(pps, 2) == 0;
    }
    if k < |sps| - 4 {
      assert !StartsUnit(sps, k);
    }
  }

  /** The scan from inside the PPS: it ends with the SPS it already has, and with a PPS that ends where the payload
      does, unless a stray byte follows, in which case the PPS comes out with another length. */
  lemma ScanInPps(es: seq<byte>, esLen: int, sps: seq<byte>, pps: seq<byte>, rest: seq<byte>, q: nat, found: seq<byte>)
    requires es == sps + pps + rest && |sps| + |pps| <= esLen <= |es| && esLen <= |sps| + |pps| + 1
    requires IsUnit(pps, H264_NAL_PPS) && |found| > 0 && q <= |sps|
    ensures
      var r := Scan(es, esLen, |sps| + NalPos(pps, 0), Some(q), H264_NAL_PPS, Units(found, [])).1;
      && r.sps == found
      && (esLen == |sps| + |pps| ==> r.pps == es[q..esLen])
      && (esLen > |sps| + |pps| && q == |sps| ==> |r.pps| != |pps|)
  {
    var pos, end := |sps| + NalPos(pps, 0), |sps| + |pps|;
    assert forall i :: 0 <= i < |pps| ==> Octet(es, |sps| + i) == Octet(pps, i);
    var to := if pos <= end - 4 then end - 4 else pos;
    forall k | pos <= k < to
      ensures !StartsUnit(es, k)
    {
      assert !StartsUnit(pps, k - |sps|);
    }
    if pos <= end - 4 {
      ScanSkips(es, esLen, pos, end - 4, Some(q), H264_NAL_PPS, Units(found, []));
    }
  }

  lemma ScanToPps(es: seq<byte>, esLen: int, sps: seq<byte>, pps: seq<byte>, rest: seq<byte>)
    requires es == sps + pps + rest && |sps| + |pps| <= esLen <= |es|
    requires IsUnit(sps, H264_NAL_SPS) && IsUnit(pps, H264_NAL_PPS)
    ensures
      var next := |sps| + NalPos(pps, 0);
      Scan(es, esLen, 0, None, 0, Units([], [])) ==
        if EndsInStartCode(sps) then
          Scan(es, esLen, next, Some(|sps|), H264_NAL_PPS, Units(es[..|sps| - 4], []))
        else if RunsTogether(sps, pps) then
          Scan(es, esLen, next, Some(|sps| - 1), H264_NAL_PPS, Units(es[..|sps| - 1], []))
        else
          Scan(es, esLen, next, Some(|sps|), H264_NAL_PPS, Units(sps, []))
  {
    hide StartsUnit, Scan;
    var nal, u := NalPos(sps, 0), Units([], []);
    UnitInPlace(es, sps, 0);
    UnitInPlace(es, pps, |sps|);
    ScanStarts(es, esLen, 0, None, 0, u);
    NalComesFirst(sps);
    var first :=
      if EndsInStartCode(sps) then |sps| - 4 else if RunsTogether(sps, pps) then |sps| - 1 else |sps|;
    forall k | nal <= k < first
      ensures !StartsUnit(es, k)
    {
      StartsInsideSps(sps, pps, rest, k);
    }
    ScanSkips(es, esLen, nal, first, Some(0), H264_NAL_SPS, u);
    if first < |sps| {
      StartsInsideSps(sps, pps, rest, first);
      NalAfterCut(sps, pps, rest, first);
    }
    ScanStarts(es, esLen, first, Some(0), H264_NAL_SPS, u);
    assert es[0..first] == es[..first];
    if EndsInStartCode(sps) {
      ScanStarts(es, esLen, |sps|, Some(0), 0, Units(es[..first], []));
    } else if first == |sps| {
      assert es[..|sps|] == sps;
    }
  }

  /** One step of the scan at a start code. */
  lemma ScanStarts(es: seq<byte>, esLen: int, pos: nat, p: Option<nat>, nalType: nat, u: Units)
    requires esLen <= |es| && (p.Some? ==> p.value <= pos && p.value <= esLen)
    requires pos < esLen - 4 && StartsUnit(es, pos)
    requires var filed := if p.Some? then FileUnit(u, nalType, es[p.value..pos]) else u; !BothFound(filed)
    ensures
      var filed := if p.Some? then FileUnit(u, nalType, es[p.value..pos]) else u;
      var t := NalType(es, pos);
      Scan(es, esLen, pos, p, nalType, u)
        == Scan(es, esLen, NalPos(es, pos), if Wanted(t) then Some(pos) else p, t, filed)
  {
  }

  /** What the scan reads as a NAL header behind a start code that begins inside the SPS. */
  lemma NalAfterCut(sps: seq<byte>, pps: seq<byte>, rest: seq<byte>, first: nat)
    requires IsUnit(sps, H264_NAL_SPS) && IsUnit(pps, H264_NAL_PPS)
    requires (first == |sps| - 4 && EndsInStartCode(sps)) || (first == |sps| - 1 && RunsTogether(sps, pps))
    ensures
      var es := sps + pps + rest;
      if first == |sps| - 4 then NalPos(es, first) == |sps| && NalType(es, first) == 0
      else NalPos(es, first) == |sps| + NalPos(pps, 0) && NalType(es, first) == H264_NAL_PPS
  {
    var es := sps + pps + rest;
    assert forall i {:trigger Octet(pps, i)} :: 0 <= i < |pps| ==> Octet(es, |sps| + i) == Octet(pps, i);
    assert Octet(pps, 0) == Octet(pps, 1) == Octet(pps, 2) == 0;
    if first == |sps| - 4 {
      assert sps[|sps| - 4..][3] == 1;
      assert Octet(es, first + 3) == 1 && Octet(es, |sps|) == Octet(es, |sps| + 0) == 0;
    } else {
      assert Octet(es, first + 3) == Octet(es, |sps| + 2) == 0;
      assert pps[3] == Octet(pps, 3);
    }
  }

  /** A unit that lies at `at` is recognised there. */
  lemma UnitInPlace(es: seq<byte>, u: seq<byte>, at: nat)
    requires |u| >= 5 && at + |u| <= |es| && es[at..at + |u|] == u && NalPos(u, 0) < |u|
    ensures StartsUnit(es, at) == StartsUnit(u, 0)
    ensures NalPos(es, at) == at + NalPos(u, 0) && NalType(es, at) == NalType(u, 0)
  {
    forall i | 0 <= i < |u|
      ensures Octet(es, at + i) == Octet(u, i)
    {
      assert es[at + i] == es[at..at + |u|][i];
    }
  }

  lemma NalComesFirst(sps: seq<byte>)
    requires IsUnit(sps, H264_NAL_SPS)
    ensures EndsInStartCode(sps) ==> NalPos(sps, 0) <= |sps| - 4
    ensures NalPos(sps, 0) <= |sps| - 1
  {
    assert Octet(sps, 0) == sps[0] && Octet(sps, 1) == sps[1] && Octet(sps, 2) == sps[2];
    assert Octet(sps, 3) == sps[3] && Octet(sps, 4) == sps[4];
  }

  lemma UnitsScanBack(es: seq<byte>, esLen: int, sps: seq<byte>, pps: seq<byte>, rest: seq<byte>)
    requires es == sps + pps + rest && |sps| + |pps| <= esLen <= |es| && esLen <= |sps| + |pps| + 1
    requires IsUnit(sps, H264_NAL_SPS) && IsUnit(pps, H264_NAL_PPS)
    ensures Scan(es, esLen, 0, None, 0, Units([], [])).1 == Units(sps, pps) <==>
      esLen == |sps| + |pps| && !EndsInStartCode(sps) && !RunsTogether(sps, pps)
  {
    hide Scan, IsUnit;
    ScanToPps(es, esLen, sps, pps, rest);
    assert |sps| >= 5 && |pps| >= 5 by {
      UnitSize(sps, H264_NAL_SPS);
      UnitSize(pps, H264_NAL_PPS);
    }
    if EndsInStartCode(sps) {
      ScanInPps(es, esLen, sps, pps, rest, |sps|, es[..|sps| - 4]);
    } else if RunsTogether(sps, pps) {
      ScanInPps(es, esLen, sps, pps, rest, |sps| - 1, es[..|sps| - 1]);
    } else {
      ScanInPps(es, esLen, sps, pps, rest, |sps|, sps);
      if esLen == |sps| + |pps| {
        assert es[|sps|..esLen] == pps;
      }
    }
  }

  /** After a bare start code the scan finds no SPS that it would file as that start code. */
  lemma BareSpsIsLost(es: seq<byte>, esLen: int, pps: seq<byte>, rest: seq<byte>)
    requires es == BARE_START_CODE + pps + rest && 5 + |pps| <= esLen <= |es| && esLen <= 5 + |pps| + 1
    requires IsUnit(pps, H264_NAL_PPS) || pps == BARE_START_CODE
    ensures Scan(es, esLen, 0, None, 0, Units([], [])).1 != Units(BARE_START_CODE, pps)
  {
    hide Scan, IsUnit;
    OpensWithZeros(pps);
    assert forall i :: 0 <= i < 5 ==> Octet(es, i) == BARE_START_CODE[i];
    assert forall i :: 0 <= i < 5 ==> Octet(es, 5 + i) == pps[i] == Octet(pps, i);
    assert Octet(es, 5) == Octet(es, 5 + 0) == 0;
    ScanStarts(es, esLen, 0, None, 0, Units([], []));
    assert NalPos(es, 0) == 5 && NalType(es, 0) == 0;
    assert Octet(es, 5 + 1) == 0 && Octet(es, 5 + 2) == 0;
    ScanStarts(es, esLen, 5, None, 0, Units([], []));
    if pps == BARE_START_CODE {
      ScanEnds(es, esLen, 10, 5, NalType(es, 5));
    } else {
      UnitInPlace(es, pps, 5);
      LonePpsScans(es, esLen, pps, rest);
    }
  }

  lemma OpensWithZeros(u: seq<byte>)
    requires IsUnit(u, H264_NAL_PPS) || u == BARE_START_CODE
    ensures |u| >= 5 && StartsUnit(u, 0) && u[0] == u[1] == u[2] == 0
    ensures u != BARE_START_CODE ==> NalPos(u, 0) < |u| && NalType(u, 0) == H264_NAL_PPS
  {
    assert Octet(u, 0) == u[0] && Octet(u, 1) == u[1] && Octet(u, 2) == u[2];
  }

  /** A scan that reaches the end of the payload with nothing filed yet files one unit. */
  lemma ScanEnds(es: seq<byte>, esLen: int, pos: nat, p: nat, t: nat)
    requires esLen <= |es| && p <= pos && p <= esLen && pos >= esLen - 4
    ensures
      var q := if Wanted(t) then Some(p) else None;
      Scan(es, esLen, pos, q, t, Units([], [])).1 == FileUnit(Units([], []), t, es[p..esLen])
  {
  }

  /** The scan inside a PPS that follows no SPS: it does not end with this PPS and a five-byte SPS. */
  lemma LonePpsScans(es: seq<byte>, esLen: int, pps: seq<byte>, rest: seq<byte>)
    requires es == BARE_START_CODE + pps + rest && 5 + |pps| <= esLen <= |es| && esLen <= 5 + |pps| + 1
    requires IsUnit(pps, H264_NAL_PPS)
    ensures
      Scan(es, esLen, 5 + NalPos(pps, 0), Some(5), H264_NAL_PPS, Units([], [])).1 != Units(BARE_START_CODE, pps)
  {
    var pos, end := 5 + NalPos(pps, 0), 5 + |pps|;
    assert forall i :: 0 <= i < |pps| ==> Octet(es, 5 + i) == Octet(pps, i);
    var to := if pos <= end - 4 then end - 4 else pos;
    forall k | pos <= k < to
      ensures !StartsUnit(es, k)
    {
      assert !StartsUnit(pps, k - 5);
    }
    if pos <= end - 4 {
      ScanSkips(es, esLen, pos, end - 4, Some(5), H264_NAL_PPS, Units([], []));
    }
  }

  /** A bare start code behind an SPS comes out as the PPS exactly if the byte behind it reads as a PPS header. */
  lemma BarePpsScansBack(es: seq<byte>, esLen: int, sps: seq<byte>, rest: seq<byte>)
    requires es == sps + BARE_START_CODE + rest && |sps| + 5 <= esLen <= |es| && esLen <= |sps| + 6
    requires IsUnit(sps, H264_NAL_SPS)
    ensures Scan(es, esLen, 0, None, 0, Units([], [])).1 == Units(sps, BARE_START_CODE) <==>
      esLen == |sps| + 5 && !EndsInStartCode(sps) && Octet(rest, 0) % 32 == H264_NAL_PPS
  {
    hide Scan, StartsUnit;
    var nal, u := NalPos(sps, 0), Units([], []);
    UnitInPlace(es, sps, 0);
    ScanStarts(es, esLen, 0, None, 0, u);
    NalComesFirst(sps);
    assert |sps| >= 5 by {
      UnitSize(sps, H264_NAL_SPS);
    }
    BareInPlace(es, sps, rest, |sps|, |sps| - 4);
    var first := if EndsInStartCode(sps) then |sps| - 4 else |sps|;
    forall k | nal <= k < first
      ensures !StartsUnit(es, k)
    {
      StartsInsideSps(sps, BARE_START_CODE, rest, k);
    }
    ScanSkips(es, esLen, nal, first, Some(0), H264_NAL_SPS, u);
    var t := NalType(es, |sps|);
    if EndsInStartCode(sps) {
      StartsInsideSps(sps, BARE_START_CODE, rest, first);
      ScanStarts(es, esLen, first, Some(0), H264_NAL_SPS, u);
      var cut := Units(es[0..first], []);
      ScanStarts(es, esLen, |sps|, Some(0), 0, cut);
      LastUnit(es, esLen, |sps| + 5, if Wanted(t) then |sps| else 0, t, cut);
    } else {
      assert es[0..|sps|] == sps;
      ScanStarts(es, esLen, |sps|, Some(0), H264_NAL_SPS, u);
      LastUnit(es, esLen, |sps| + 5, if Wanted(t) then |sps| else 0, t, Units(sps, []));
      assert es[|sps|..|sps| + 5] == BARE_START_CODE;
    }
  }

  lemma LastUnit(es: seq<byte>, esLen: int, pos: nat, p: nat, t: nat, u: Units)
    requires esLen <= |es| && p <= pos && p <= esLen && pos >= esLen - 4
    ensures Scan(es, esLen, pos, Some(p), t, u).1 == FileUnit(u, t, es[p..esLen])
  {
  }

  lemma BareInPlace(es: seq<byte>, sps: seq<byte>, rest: seq<byte>, n: nat, before: nat)
    requires es == sps + BARE_START_CODE + rest && |sps| == n == before + 4
    ensures StartsUnit(BARE_START_CODE, 0) && StartsUnit(es, n)
    ensures NalPos(es, n) == n + 5 && NalType(es, n) == Octet(rest, 0) % 32
    ensures EndsInStartCode(sps) ==> NalPos(es, before) == n && NalType(es, before) == 0
  {
    hide StartsUnit, NalPos, NalType, EndsInStartCode;
    assert Octet(es, n) == 0 && Octet(es, n + 1) == 0 && Octet(es, n + 2) == 0 && Octet(es, n + 3) == 0;
    assert Octet(es, n + 4) == 1 && Octet(es, n + 5) == Octet(rest, 0) && Octet(es, before + 3) == sps[before + 3];
    ReadsStart(es, n);
    ReadsStart(BARE_START_CODE, 0);
    if EndsInStartCode(sps) {
      LastByteOfStart(sps);
      ReadsHeader(es, before);
    }
  }

  lemma ReadsStart(es: seq<byte>, at: nat)
    requires Octet(es, at) == 0 && Octet(es, at + 1) == 0 && Octet(es, at + 2) == 0 && Octet(es, at + 3) == 0
    requires Octet(es, at + 4) == 1
    ensures StartsUnit(es, at) && NalPos(es, at) == at + 5 && NalType(es, at) == Octet(es, at + 5) % 32
  {
  }

  lemma ReadsHeader(es: seq<byte>, at: nat)
    requires Octet(es, at + 3) == 1 && Octet(es, at + 4) == 0
    ensures NalPos(es, at) == at + 4 && NalType(es, at) == 0
  {
  }

  lemma LastByteOfStart(u: seq<byte>)
    requires EndsInStartCode(u)
    ensures u[|u| - 1] == 1
  {
    assert u[|u| - 4..][3] == u[|u| - 1];
  }

  /** When the scan of an SPS followed by a PPS, as they are recorded, gives exactly these two. `rest` is what
      follows the PPS in memory; a stray byte of the payload may be in front of it. */
  lemma PairScansBack(es: seq<byte>, esLen: int, sps: seq<byte>, pps: seq<byte>, rest: seq<byte>)
    requires es == sps + pps + rest && |sps| + |pps| <= esLen <= |es| && esLen <= |sps| + |pps| + 1
    requires Filed(sps, H264_NAL_SPS) && Filed(pps, H264_NAL_PPS)
    ensures |sps| >= 5 && |pps| >= 5
    ensures Scan(es, esLen, 0, None, 0, Units([], [])).1 == Units(sps, pps) <==>
      && esLen == |sps| + |pps| && !EndsInStartCode(sps) && !RunsTogether(sps, pps)
      && (pps == BARE_START_CODE ==> Octet(rest, 0) % 32 == H264_NAL_PPS)
  {
    hide Scan, IsUnit;
    FiledSize(sps, H264_NAL_SPS);
    FiledSize(pps, H264_NAL_PPS);
    if sps == BARE_START_CODE {
      BareSpsIsLost(es, esLen, pps, rest);
      assert BARE_START_CODE[1..] == [0, 0, 0, 1];
    } else if pps == BARE_START_CODE {
      BarePpsScansBack(es, esLen, sps, rest);
    } else {
      UnitsScanBack(es, esLen, sps, pps, rest);
    }
  }

  /** A unit as the parser keeps it once it has one. */
  ghost predicate Filed(u: seq<byte>, t: nat) {
    u != [] && Recorded(u, t)
  }

  lemma FiledSize(u: seq<byte>, t: nat)
    requires Filed(u, t)
    ensures |u| >= 5
  {
  }

  lemma UnitSize(u: seq<byte>, t: nat)
    requires IsUnit(u, t)
    ensures |u| >= 5
  {
  }

  // ----- the PAT

  datatype Program = Program(number: nat, pid: nat)

  predicate WellNumbered(programs: seq<Program>) {
    |programs| <= 253 && forall p :: p in programs ==> p.number < 0x1_0000 && p.pid < 0x2000
  }

  function Entry(p: Program): (s: seq<byte>)
    requires p.number < 0x1_0000 && p.pid < 0x2000
    ensures |s| == 4
  {
    [p.number / 256, p.number % 256, 0xE0 + p.pid / 256, p.pid % 256]
  }

  function Entries(programs: seq<Program>): (s: seq<byte>)
    requires WellNumbered(programs)
    ensures |s| == 4 * |programs|
  {
    if programs == [] then [] else Entry(programs[0]) + Entries(programs[1..])
  }

  /** A PAT section as ISO/IEC 13818-1, section 2.4.4.3, lays it out, up to its CRC; `id` is the transport stream. */
  function PatSection(id: nat, programs: seq<Program>): seq<byte>
    requires id < 0x1_0000 && WellNumbered(programs)
  {
    var len := 9 + 4 * |programs|;
    [0x00, 0xB0 + len / 256, len % 256, id / 256, id % 256, 0xC1, 0, 0] + Entries(programs)
  }

  /** The last program that is not the network information table. */
  function LastPmt(programs: seq<Program>, otherwise: int): int {
    if programs == [] then otherwise
    else LastPmt(programs[1..], if programs[0].number == 0 then otherwise else programs[0].pid)
  }

  /** The loop bound of `sls_parse_pat`, though it subtracts 12 from the section length, visits each program of a
      standard section once, and no CRC byte. */
  lemma PatNamesLastPmt(id: nat, programs: seq<Program>, crcAndRest: seq<byte>, pmtPid: int)
    requires id < 0x1_0000 && WellNumbered(programs)
    ensures
      var section := PatSection(id, programs) + crcAndRest;
      PmtPidFrom(section, SectionLen(section), 0, pmtPid) == LastPmt(programs, pmtPid)
  {
    hide Entries, PmtPidFrom;
    var section := PatSection(id, programs) + crcAndRest;
    LengthReads(section, 9 + 4 * |programs|);
    assert section[8..] == Entries(programs) + crcAndRest;
    ProgramsRead(section, programs, crcAndRest, 0, pmtPid);
  }

  lemma LengthReads(section: seq<byte>, len: nat)
    requires len < 0x1000 && |section| > 2 && section[1] == 0xB0 + len / 256 && section[2] == len % 256
    ensures SectionLen(section) == len
  {
    assert (0xB0 + len / 256) % 16 == len / 256;
  }

  lemma {:induction false} ProgramsRead(section: seq<byte>, programs: seq<Program>, rest: seq<byte>, n: nat,
                                        pmtPid: int)
    requires WellNumbered(programs) && 8 + n <= |section| && section[8 + n..] == Entries(programs) + rest
    ensures PmtPidFrom(section, n + 9 + 4 * |programs|, n, pmtPid) == LastPmt(programs, pmtPid)
  {
    hide Entries;
    if programs != [] {
      FirstProgram(section, programs, rest, n);
      hide Octet;
      ProgramsRead(section, programs[1..], rest, n + 4,
                   if programs[0].number == 0 then pmtPid else programs[0].pid);
    }
  }

  lemma FirstProgram(section: seq<byte>, programs: seq<Program>, rest: seq<byte>, n: nat)
    requires WellNumbered(programs) && programs != []
    requires 8 + n <= |section| && section[8 + n..] == Entries(programs) + rest
    ensures 8 + (n + 4) <= |section| && section[8 + (n + 4)..] == Entries(programs[1..]) + rest
    ensures Octet(section, 8 + n) * 256 + Octet(section, 9 + n) == programs[0].number
    ensures Octet(section, 10 + n) % 32 * 256 + Octet(section, 11 + n) == programs[0].pid
  {
    hide Entry;
    var p, tail := programs[0], Entries(programs[1..]) + rest;
    assert p in programs;
    var e := Entry(p);
    assert section[8 + n..] == e + tail;
    EntryReads(section, 8 + n, e + tail);
    assert section[8 + n + 4..] == section[8 + n..][4..] == tail;
    EntryValue(p, e[0], e[1], e[2], e[3]);
  }

  lemma EntryValue(p: Program, b0: int, b1: int, b2: int, b3: int)
    requires p.number < 0x1_0000 && p.pid < 0x2000 && Entry(p) == [b0, b1, b2, b3]
    ensures b0 * 256 + b1 == p.number && b2 % 32 * 256 + b3 == p.pid
  {
    var e := Entry(p);
    assert b0 == e[0] && b1 == e[1] && b2 == e[2] && b3 == e[3];
    assert b2 % 32 == p.pid / 256;
  }

  lemma EntryReads(section: seq<byte>, at: nat, tail: seq<byte>)
    requires at <= |section| && section[at..] == tail && |tail| >= 4
    ensures Octet(section, at) == tail[0] && Octet(section, at + 1) == tail[1]
    ensures Octet(section, at + 2) == tail[2] && Octet(section, at + 3) == tail[3]
  {
  }

  // ----- the synthetic packet

  /** SPS and PPS that the synthetic packet carries unharmed, given the byte that follows it in memory. */
  predicate Survives(sps: seq<byte>, pps: seq<byte>, next: byte)
    requires |sps| > 0 && |pps| > 3
  {
    && PesLen(sps, pps) != TS_PACK_LEN - 5 && !EndsInStartCode(sps) && !RunsTogether(sps, pps)
    && (pps == BARE_START_CODE ==> next % 32 == H264_NAL_PPS)
  }

  /** The header fields of the synthetic packet: a start packet of the PID, whose adaptation field (if there is one)
      and payload fill the packet to its 188 bytes as ISO/IEC 13818-1, section 2.4.3.4, asks. */
  lemma PacketHeader(stale: byte, pid: nat, streamId: byte, sps: seq<byte>, pps: seq<byte>, rest: seq<byte>)
    requires 0 < pid < 0x2000 && PesLen(sps, pps) <= TS_PACK_LEN - 4
    ensures
      var packet := SpsPpsPacket(TS_SYNC_BYTE, stale, pid, streamId, sps, pps) + rest;
      var len := PesLen(sps, pps);
      var head := if len == TS_PACK_LEN - 5 then 4 else TS_PACK_LEN - len;
      && Octet(packet, 0) == TS_SYNC_BYTE && IsStart(packet) && Pid(packet) == pid
      && PayloadAt(packet) == Some(head)
      && (len < TS_PACK_LEN - 5 ==>
            && Octet(packet, 4) + 1 + len == TS_PACK_LEN - 4 && Octet(packet, 5) == 0
            && forall i :: 6 <= i < head ==> Octet(packet, i) == 0xFF)
      && packet[head..] == PesHead(streamId) + (sps + pps + ((if len == TS_PACK_LEN - 5 then [stale] else []) + rest))
  {
    var len := PesLen(sps, pps);
    var packet := SpsPpsPacket(TS_SYNC_BYTE, stale, pid, streamId, sps, pps) + rest;
    var h := PacketHead(TS_SYNC_BYTE, pid, len);
    var spare := if len == TS_PACK_LEN - 5 then [stale] else [];
    Regroup(h, PesHead(streamId), sps, pps, spare, rest);
    var body := PesHead(streamId) + (sps + pps + (spare + rest));
    assert packet == h + body;
    assert packet[|h|..] == body;
    HeadFields(pid, len, body);
  }

  lemma Regroup(a: seq<byte>, b: seq<byte>, c: seq<byte>, d: seq<byte>, e: seq<byte>, f: seq<byte>)
    ensures a + b + c + d + e + f == a + (b + (c + d + (e + f)))
  {
  }

  lemma HeadFields(pid: nat, len: nat, body: seq<byte>)
    requires pid < 0x2000 && len <= TS_PACK_LEN - 4
    ensures
      var packet := PacketHead(TS_SYNC_BYTE, pid, len) + body;
      && Octet(packet, 0) == TS_SYNC_BYTE && IsStart(packet) && Pid(packet) == pid
      && (0 < len ==> PayloadAt(packet) == Some(if len == TS_PACK_LEN - 5 then 4 else TS_PACK_LEN - len))
      && (len < TS_PACK_LEN - 5 ==>
            && Octet(packet, 4) + 1 + len == TS_PACK_LEN - 4 && Octet(packet, 5) == 0
            && forall i :: 6 <= i < TS_PACK_LEN - len ==> Octet(packet, i) == 0xFF)
  {
    var h := PacketHead(TS_SYNC_BYTE, pid, len);
    assert forall i :: 0 <= i < |h| ==> Octet(h + body, i) == h[i];
    assert h[1] == 0x40 + pid / 256 && h[2] == pid % 256;
  }

  lemma PesHeadParses(ti: TsState, packet: seq<byte>, at: nat, pid: nat, streamId: byte, mem: seq<byte>)
    requires |packet| >= TS_PACK_LEN && at + 14 <= TS_PACK_LEN && WellSized(ti) && pid < 0x2000
    requires packet[at..] == PesHead(streamId) + mem && (streamId == 0xE0 || streamId == 0xC0)
    requires ti.needSpsPps
    ensures ParsePes(ti, packet, at, pid) == FindSpsPps(ti.(dts := 0, pts := 0), packet, at + 14, pid, streamId)
    ensures packet[at + 14..] == mem
  {
    var h := PesHead(streamId);
    assert forall i :: 0 <= i < 14 ==> Octet(packet, at + i) == packet[at..][i] == h[i];
    assert ParsePts(packet, at + 9) == 0;
    assert packet[at + 14..] == packet[at..][14..];
  }

  /** Fed to a fresh parser, the synthetic packet gives back its PID; it gives back its SPS and PPS exactly when
      they survive: the lengths do not add up to the one total for which no stuffing fits, the SPS does not end in
      a start code, its last byte does not run into the start code of the PPS, and a PPS that is nothing but a start
      code is followed by a byte that reads as a PPS header. */
  lemma PacketParsesBack(pid: nat, streamId: byte, stale: byte, sps: seq<byte>, pps: seq<byte>, rest: seq<byte>,
                         pat: seq<byte>, pmt: seq<byte>)
    requires 0 < pid < 0x2000 && (streamId == 0xE0 || streamId == 0xC0)
    requires Filed(sps, H264_NAL_SPS) && Filed(pps, H264_NAL_PPS) && PesLen(sps, pps) <= TS_PACK_LEN - 4
    requires |pat| == |pmt| == TS_PACK_LEN
    ensures |sps| >= 5 && |pps| >= 5
    ensures
      var r := ParsePacket(Init(pat, pmt, true), SpsPpsPacket(TS_SYNC_BYTE, stale, pid, streamId, sps, pps) + rest).1;
      && r.esPid == pid
      && (r.sps == sps && r.pps == pps <==> Survives(sps, pps, Octet(rest, 0)))
  {
    hide IsUnit, Scan, SpsPpsPacket, Filed;
    FiledSize(sps, H264_NAL_SPS);
    FiledSize(pps, H264_NAL_PPS);
    var ti := Init(pat, pmt, true);
    var packet := SpsPpsPacket(TS_SYNC_BYTE, stale, pid, streamId, sps, pps) + rest;
    PacketHeader(stale, pid, streamId, sps, pps, rest);
    var len := PesLen(sps, pps);
    var at := PayloadAt(packet).value;
    var tail := (if len == TS_PACK_LEN - 5 then [stale] else []) + rest;
    PesHeadParses(ti, packet, at, pid, streamId, sps + pps + tail);
    PairScansBack(sps + pps + tail, TS_PACK_LEN - at - 14, sps, pps, tail);
  }

  // ----- every sequence of packets

  function Feed(ti: TsState, packets: seq<seq<byte>>): (r: TsState)
    requires WellSized(ti) && (forall p :: p in packets ==> |p| >= TS_PACK_LEN)
    ensures WellSized(r) && r.needSpsPps == ti.needSpsPps
  {
    if packets == [] then ti
    else ParsePacket(Feed(ti, packets[..|packets| - 1]), packets[|packets| - 1]).1
  }

  /** The loop of `check_ts_info` over all the packets a key has received: packets after completion are ignored. */
  function FeedUntilComplete(ti: TsState, packets: seq<seq<byte>>): (r: TsState)
    requires WellSized(ti) && (forall p :: p in packets ==> |p| >= TS_PACK_LEN)
    ensures WellSized(r) && r.needSpsPps == ti.needSpsPps
  {
    if packets == [] then ti
    else
      var before := FeedUntilComplete(ti, packets[..|packets| - 1]);
      if Complete(before) then before else ParsePacket(before, packets[|packets| - 1]).1
  }

  lemma PacketKeepsEsPid(ti: TsState, packet: seq<byte>)
    requires WellSized(ti) && |packet| >= TS_PACK_LEN && ti.esPid != INVALID_PID
    ensures ParsePacket(ti, packet).1.esPid == ti.esPid
  {
    hide Scan, Preamble, ParsePts;
  }

  /** Once the elementary stream has been chosen, no packet changes the choice. */
  lemma {:induction false} EsPidIsStable(ti: TsState, packets: seq<seq<byte>>)
    requires WellSized(ti) && (forall p :: p in packets ==> |p| >= TS_PACK_LEN)
    requires ti.esPid != INVALID_PID
    ensures Feed(ti, packets).esPid == ti.esPid
  {
    if packets != [] {
      EsPidIsStable(ti, packets[..|packets| - 1]);
      PacketKeepsEsPid(Feed(ti, packets[..|packets| - 1]), packets[|packets| - 1]);
    }
  }

  /** Once SPS, PPS and PAT are all there, whatever arrives leaves the preamble, and all else, as it is. */
  lemma {:induction false} PreambleIsFrozen(ti: TsState, packets: seq<seq<byte>>)
    requires WellSized(ti) && (forall p :: p in packets ==> |p| >= TS_PACK_LEN) && Complete(ti)
    ensures FeedUntilComplete(ti, packets) == ti
  {
    if packets != [] {
      PreambleIsFrozen(ti, packets[..|packets| - 1]);
    }
  }

  /** Before completion, the preamble is still the null packets of a fresh `ts_info`; and SPS and PPS are always
      NAL units that fit their 188-byte buffers. */
  ghost predicate Reachable(ti: TsState) {
    && WellSized(ti) && ti.needSpsPps
    && (!Complete(ti) ==> ti.tsData == NullPackets())
    && ti.tsData[2 * TS_PACK_LEN] == TS_SYNC_BYTE
    && UnitsRecorded(Units(ti.sps, ti.pps))
    && |ti.sps| < TS_PACK_LEN && |ti.pps| < TS_PACK_LEN
  }

  lemma {:induction false} ScanFits(es: seq<byte>, esLen: int, pos: nat, p: Option<nat>, nalType: nat, u: Units,
                                    max: nat)
    requires esLen <= |es| && (p.Some? ==> p.value < pos && p.value < esLen)
    requires |u.sps| <= max && |u.pps| <= max && esLen <= max
    ensures var r := Scan(es, esLen, pos, p, nalType, u).1; |r.sps| <= max && |r.pps| <= max
    ensures
      var r := Scan(es, esLen, pos, p, nalType, u).1;
      (|u.sps| > 0 ==> |r.sps| > 0) && (|u.pps| > 0 ==> |r.pps| > 0)
    decreases esLen - pos
  {
    if pos < esLen - 4 {
      if StartsUnit(es, pos) {
        var filed := if p.Some? then FileUnit(u, nalType, es[p.value..pos]) else u;
        if !(p.Some? && BothFound(filed)) {
          var t := NalType(es, pos);
          ScanFits(es, esLen, NalPos(es, pos), if Wanted(t) then Some(pos) else p, t, filed, max);
        }
      } else {
        ScanFits(es, esLen, pos + 1, p, nalType, u, max);
      }
    }
  }

  lemma ScanKeepsReachable(ti: TsState, packet: seq<byte>, es: nat)
    requires Reachable(ti) && |packet| >= TS_PACK_LEN && es >= 9
    ensures
      var (ret, u) := ScanFrom(packet, es, Units(ti.sps, ti.pps));
      && UnitsRecorded(u) && |u.sps| < TS_PACK_LEN && |u.pps| < TS_PACK_LEN
      && (|ti.sps| > 0 ==> |u.sps| > 0) && (|ti.pps| > 0 ==> |u.pps| > 0)
  {
    hide Scan, IsUnit;
    var mem := if es <= |packet| then packet[es..] else [];
    ScanRecordsUnits(mem, TS_PACK_LEN - es, 0, None, 0, Units(ti.sps, ti.pps));
    ScanFits(mem, TS_PACK_LEN - es, 0, None, 0, Units(ti.sps, ti.pps), TS_PACK_LEN - 1);
  }

  lemma BuiltIsReachable(ti: TsState, pid: nat, streamId: byte)
    requires Reachable(ti.(tsData := NullPackets())) && WellSized(ti) && Complete(ti)
    requires ti.tsData == NullPackets() && 0 < pid < 0x2000 && (streamId == 0xE0 || streamId == 0xC0)
    ensures Reachable(Built(ti, pid, streamId))
    ensures HasPreamble(Built(ti, pid, streamId).(esPid := pid)) <==> PesLen(ti.sps, ti.pps) <= TS_PACK_LEN - 4
  {
    hide Recorded, SpsPpsPacket;
    var b := Built(ti, pid, streamId);
    if PesLen(ti.sps, ti.pps) <= TS_PACK_LEN - 4 {
      var p := SpsPpsPacket(ti.tsData[376], ti.tsData[563], pid, streamId, ti.sps, ti.pps);
      PacketEnds(ti.tsData[376], ti.tsData[563], pid, streamId, ti.sps, ti.pps);
      assert b.tsData[376..564] == p;
      assert b.tsData[376] == p[0] && b.tsData[563] == p[187];
      assert b.tsData[..188] == ti.pat && b.tsData[188..376] == ti.pmt;
      if PesLen(ti.sps, ti.pps) != TS_PACK_LEN - 5 {
        StaleIsUnused(ti.tsData[376], ti.tsData[563], p[187], pid, streamId, ti.sps, ti.pps);
      }
    }
  }

  lemma PacketEnds(sync: byte, stale: byte, pid: nat, streamId: byte, sps: seq<byte>, pps: seq<byte>)
    requires pid < 0x2000 && PesLen(sps, pps) <= TS_PACK_LEN - 4
    ensures
      var p := SpsPpsPacket(sync, stale, pid, streamId, sps, pps);
      && p[0] == sync && p[1] >= 0x40
      && (PesLen(sps, pps) == TS_PACK_LEN - 5 ==> p[187] == stale)
  {
    var len := PesLen(sps, pps);
    var h := PacketHead(sync, pid, len);
    assert h[0] == sync && h[1] == 0x40 + pid / 256;
    assert SpsPpsPacket(sync, stale, pid, streamId, sps, pps)[0] == h[0];
    assert SpsPpsPacket(sync, stale, pid, streamId, sps, pps)[1] == h[1];
  }

  lemma StaleIsUnused(sync: byte, stale: byte, other: byte, pid: nat, streamId: byte, sps: seq<byte>, pps: seq<byte>)
    requires pid < 0x2000 && PesLen(sps, pps) <= TS_PACK_LEN - 4 && PesLen(sps, pps) != TS_PACK_LEN - 5
    ensures SpsPpsPacket(sync, stale, pid, streamId, sps, pps) == SpsPpsPacket(sync, other, pid, streamId, sps, pps)
  {
  }

  /** The preamble carries the PAT, the PMT, and the SPS and PPS of the chosen stream. */
  predicate HasPreamble(ti: TsState) {
    && WellSized(ti) && 0 < ti.esPid < 0x2000 && PesLen(ti.sps, ti.pps) <= TS_PACK_LEN - 4
    && ti.tsData[..188] == ti.pat && ti.tsData[188..376] == ti.pmt
    && (ti.tsData[376..564] == SpsPpsPacket(ti.tsData[376], ti.tsData[563], ti.esPid, 0xE0, ti.sps, ti.pps)
        || ti.tsData[376..564] == SpsPpsPacket(ti.tsData[376], ti.tsData[563], ti.esPid, 0xC0, ti.sps, ti.pps))
  }

  lemma NullPacketsAreNoPreamble(ti: TsState)
    requires WellSized(ti) && ti.tsData == NullPackets()
    ensures !HasPreamble(ti)
  {
    hide SpsPpsPacket;
    assert ti.tsData[376..564][1] == NullPackets()[377] == 0x1F;
    if 0 < ti.esPid < 0x2000 && PesLen(ti.sps, ti.pps) <= TS_PACK_LEN - 4 {
      PacketEnds(ti.tsData[376], ti.tsData[563], ti.esPid, 0xE0, ti.sps, ti.pps);
      PacketEnds(ti.tsData[376], ti.tsData[563], ti.esPid, 0xC0, ti.sps, ti.pps);
    }
  }

  /** One packet of an incomplete stream. If it completes the stream, a preamble is there exactly when the packet
      was not the PAT and SPS and PPS fit one packet: a PAT that comes last leaves the null packets for good. */
  lemma CompletingPacketBuilds(ti: TsState, packet: seq<byte>)
    requires Reachable(ti) && !Complete(ti) && |packet| >= TS_PACK_LEN
    ensures
      var next := ParsePacket(ti, packet).1;
      && Reachable(next)
      && (Complete(next) ==>
            (HasPreamble(next) <==> Pid(packet) != PAT_PID && PesLen(next.sps, next.pps) <= TS_PACK_LEN - 4))
  {
    hide Scan, Recorded, HasPreamble, Preamble, ParsePts, NullPackets, PmtPidFrom, ScanFrom;
    var next := ParsePacket(ti, packet).1;
    var pid := Pid(packet);
    if next.tsData == ti.tsData {
      NullPacketsAreNoPreamble(next);
    }
    if PayloadAt(packet).Some? && pid != PAT_PID {
      var at := PayloadAt(packet).value;
      var streamId := Octet(packet, at + 3);
      var (es, stamped) := Stamp(ti, packet, at);
      ScanKeepsReachable(stamped, packet, es);
      var (ret, u) := ScanFrom(packet, es, Units(ti.sps, ti.pps));
      var scanned := stamped.(sps := u.sps, pps := u.pps);
      if Complete(scanned) && (streamId == 0xE0 || streamId == 0xC0) {
        BuiltIsReachable(scanned, pid, streamId);
      }
    }
  }

  /** All that a publisher can send: the parser's state is reachable. */
  lemma {:induction false} EveryStreamIsReachable(pat: seq<byte>, pmt: seq<byte>, packets: seq<seq<byte>>)
    requires |pat| == |pmt| == TS_PACK_LEN && (forall p :: p in packets ==> |p| >= TS_PACK_LEN)
    ensures Reachable(FeedUntilComplete(Init(pat, pmt, true), packets))
  {
    if packets != [] {
      EveryStreamIsReachable(pat, pmt, packets[..|packets| - 1]);
      var before := FeedUntilComplete(Init(pat, pmt, true), packets[..|packets| - 1]);
      if !Complete(before) {
        CompletingPacketBuilds(before, packets[|packets| - 1]);
      }
    }
  }

  /** Whatever a publisher sends, the preamble once built is decodable: a fresh parser (a player's) that is fed its
      third packet finds the same PID, and the same SPS and PPS exactly when they survive. */
  lemma EveryPreambleParsesBack(pat: seq<byte>, pmt: seq<byte>, packets: seq<seq<byte>>, rest: seq<byte>,
                                player: TsState)
    requires |pat| == |pmt| == TS_PACK_LEN && (forall p :: p in packets ==> |p| >= TS_PACK_LEN)
    requires player == Init(player.pat, player.pmt, true) && WellSized(player)
    requires
      var ti := FeedUntilComplete(Init(pat, pmt, true), packets);
      Complete(ti) && HasPreamble(ti)
    ensures
      var ti := FeedUntilComplete(Init(pat, pmt, true), packets);
      var r := ParsePacket(player, ti.tsData[376..564] + rest).1;
      && |ti.sps| >= 5 && |ti.pps| >= 5
      && r.esPid == ti.esPid
      && (r.sps == ti.sps && r.pps == ti.pps <==> Survives(ti.sps, ti.pps, Octet(rest, 0)))
  {
    hide ParsePacket, SpsPpsPacket, IsUnit;
    EveryStreamIsReachable(pat, pmt, packets);
    var ti := FeedUntilComplete(Init(pat, pmt, true), packets);
    PacketParsesBack(ti.esPid, 0xE0, ti.tsData[563], ti.sps, ti.pps, rest, player.pat, player.pmt);
    PacketParsesBack(ti.esPid, 0xC0, ti.tsData[563], ti.sps, ti.pps, rest, player.pat, player.pmt);
  }

  // ----- datagrams

  /** The packets `check_ts_info` looks at in one datagram: each with all that follows it in the buffer. */
  function PacketsOf(data: seq<byte>, len: int, i: nat): (r: seq<seq<byte>>)
    requires len <= |data| && |data| % TS_PACK_LEN == 0 && i % TS_PACK_LEN == 0
    ensures forall p :: p in r ==> |p| >= TS_PACK_LEN
    decreases len - i
  {
    if i >= len then [] else [data[i..]] + PacketsOf(data, len, i + TS_PACK_LEN)
  }

  lemma {:induction false} FeedJoins(ti: TsState, a: seq<seq<byte>>, b: seq<seq<byte>>)
    requires WellSized(ti) && (forall p :: p in a ==> |p| >= TS_PACK_LEN) && (forall p :: p in b ==> |p| >= TS_PACK_LEN)
    ensures FeedUntilComplete(ti, a + b) == FeedUntilComplete(FeedUntilComplete(ti, a), b)
  {
    hide ParsePacket;
    if b == [] {
      assert a + b == a;
    } else {
      FeedJoins(ti, a, b[..|b| - 1]);
      assert (a + b)[..|a + b| - 1] == a + b[..|b| - 1];
    }
  }

  lemma OneFed(ti: TsState, packet: seq<byte>)
    requires WellSized(ti) && |packet| >= TS_PACK_LEN
    ensures FeedUntilComplete(ti, [packet]) == if Complete(ti) then ti else ParsePacket(ti, packet).1
  {
    hide ParsePacket;
    assert [packet][..0] == [];
  }

  lemma CheckInfoStep(ti: TsState, data: seq<byte>, len: int, i: nat)
    requires WellSized(ti) && len <= |data| && |data| % TS_PACK_LEN == 0 && i % TS_PACK_LEN == 0 && i < len
    ensures i + TS_PACK_LEN <= |data| && (i + TS_PACK_LEN) % TS_PACK_LEN == 0
    ensures PacketsOf(data, len, i) == [data[i..]] + PacketsOf(data, len, i + TS_PACK_LEN)
    ensures CheckInfo(ti, data, len, i)
         == if Complete(ti) then ti else CheckInfo(ParsePacket(ti, data[i..]).1, data, len, i + TS_PACK_LEN)
  {
    hide ParsePacket;
    PacketFits(|data|, i);
  }

  /** The loop over one datagram is the feeding of its packets. */
  lemma {:induction false} CheckInfoFeeds(ti: TsState, data: seq<byte>, len: int, i: nat)
    requires WellSized(ti) && len <= |data| && |data| % TS_PACK_LEN == 0 && i % TS_PACK_LEN == 0
    ensures CheckInfo(ti, data, len, i) == FeedUntilComplete(ti, PacketsOf(data, len, i))
    decreases len - i
  {
    if i < len {
      hide ParsePacket, FeedUntilComplete, CheckInfo, PacketsOf, Complete;
      CheckInfoStep(ti, data, len, i);
      var rest := PacketsOf(data, len, i + TS_PACK_LEN);
      OneFed(ti, data[i..]);
      FeedJoins(ti, [data[i..]], rest);
      if Complete(ti) {
        PreambleIsFrozen(ti, rest);
      } else {
        CheckInfoFeeds(ParsePacket(ti, data[i..]).1, data, len, i + TS_PACK_LEN);
      }
    }
  }
}
