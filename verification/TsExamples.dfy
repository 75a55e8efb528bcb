/** Publishers that meet the exceptions stated in TsPreamble: streams of three packets after which the preamble is
    missing, or is there and does not give back its SPS and PPS. */
module TsExamples {
  import opened Bytes
  import opened Common
  import opened TsParser
  import opened TsPreamble

  /** A packet whose PES payload is `u`, and what follows the packet in memory. */
  function Carrier(pid: nat, u: seq<byte>, next: seq<byte>): (packet: seq<byte>)
    requires 0 < pid < 0x2000 && PesLen(u, []) < TS_PACK_LEN - 5
    ensures |packet| >= TS_PACK_LEN && Pid(packet) == pid
  {
    PacketHeader(0, pid, 0xE0, u, [], next);
    SpsPpsPacket(TS_SYNC_BYTE, 0, pid, 0xE0, u, []) + next
  }

  /** A PAT packet without a payload: the parser keeps it and learns no PMT. */
  function PatPacket(): (packet: seq<byte>)
    ensures |packet| == TS_PACK_LEN
  {
    [TS_SYNC_BYTE, 0x40, 0, 0] + Fill(184, 0)
  }

  /** A unit the scan can come to keep: a bare start code needs a byte behind it that reads as its header. */
  ghost predicate Publishable(u: seq<byte>, t: nat, next: seq<byte>) {
    && Filed(u, t) && PesLen(u, []) < TS_PACK_LEN - 5
    && (u == BARE_START_CODE ==> Octet(next, 0) % 32 == t)
  }

  /** A payload that is one unit is kept whole. */
  lemma UnitScans(u: seq<byte>, next: seq<byte>, t: nat, units: Units)
    requires Wanted(t) && Publishable(u, t, next) && !BothFound(units)
    ensures Scan(u + next, |u|, 0, None, 0, units).1 == FileUnit(units, t, u)
  {
    hide Scan, StartsUnit;
    var es := u + next;
    FiledSize(u, t);
    UnitOpens(u, next, t);
    ScanStarts(es, |u|, 0, None, 0, units);
    var pos := NalPos(es, 0);
    if pos < |u| - 4 {
      ScanSkips(es, |u|, pos, |u| - 4, Some(0), t, units);
    }
    LastUnit(es, |u|, if pos < |u| - 4 then |u| - 4 else pos, 0, t, units);
    assert es[0..|u|] == u;
  }

  lemma UnitOpens(u: seq<byte>, next: seq<byte>, t: nat)
    requires Publishable(u, t, next) && |u| >= 5
    ensures
      var es := u + next;
      && StartsUnit(es, 0) && NalPos(es, 0) >= 4 && NalType(es, 0) == t
      && NoStartIn(es, NalPos(es, 0), |u| - 4)
  {
    var es := u + next;
    assert forall k :: 0 <= k < |u| ==> Octet(es, k) == Octet(u, k);
    if u == BARE_START_CODE {
      assert Octet(es, 5) == Octet(next, 0);
    } else {
      forall k | NalPos(es, 0) <= k < |u| - 4
        ensures !StartsUnit(es, k)
      {
        assert !StartsUnit(u, k);
      }
    }
  }

  lemma CarrierLies(pid: nat, u: seq<byte>, next: seq<byte>) returns (at: nat)
    requires 0 < pid < 0x2000 && PesLen(u, []) < TS_PACK_LEN - 5
    ensures
      var packet := Carrier(pid, u, next);
      && Octet(packet, 0) == TS_SYNC_BYTE && IsStart(packet) && PayloadAt(packet) == Some(at)
      && at + 14 + |u| == TS_PACK_LEN && packet[at..] == PesHead(0xE0) + (u + next)
  {
    hide SpsPpsPacket, PesHead;
    PacketHeader(0, pid, 0xE0, u, [], next);
    at := TS_PACK_LEN - PesLen(u, []);
    assert u + [] + ([] + next) == u + next;
  }

  /** The parser on a carrier of its stream: the units are those of the payload. */
  lemma CarrierParses(ti: TsState, pid: nat, u: seq<byte>, next: seq<byte>)
    requires WellSized(ti) && ti.needSpsPps && 0 < pid < 0x2000 && PesLen(u, []) < TS_PACK_LEN - 5
    requires pid != ti.pmtPid && (ti.esPid == INVALID_PID || ti.esPid == pid)
    ensures
      var r := ParsePacket(ti, Carrier(pid, u, next)).1;
      && Units(r.sps, r.pps) == Scan(u + next, |u|, 0, None, 0, Units(ti.sps, ti.pps)).1
      && r.esPid == pid && r.pmtPid == ti.pmtPid && r.patLen == ti.patLen && r.pat == ti.pat && r.pmt == ti.pmt
  {
    hide Scan, SpsPpsPacket, Preamble, Carrier, PesHead, ParsePes, PayloadAt, IsStart;
    var packet := Carrier(pid, u, next);
    var at := CarrierLies(pid, u, next);
    PesHeadParses(ti, packet, at, pid, 0xE0, u + next);
  }

  lemma PatParses(ti: TsState)
    requires WellSized(ti)
    ensures ParsePacket(ti, PatPacket()).1 == ti.(pat := PatPacket(), patLen := TS_PACK_LEN)
    ensures Pid(PatPacket()) == PAT_PID
  {
  }

  lemma FeedOneMore(ti: TsState, packets: seq<seq<byte>>, packet: seq<byte>)
    requires WellSized(ti) && (forall p :: p in packets ==> |p| >= TS_PACK_LEN) && |packet| >= TS_PACK_LEN
    ensures
      var before := FeedUntilComplete(ti, packets);
      FeedUntilComplete(ti, packets + [packet]) == if Complete(before) then before else ParsePacket(before, packet).1
  {
    hide ParsePacket;
    assert (packets + [packet])[..|packets|] == packets;
  }

  function Fresh(): TsState {
    Init(Fill(TS_PACK_LEN, 0), Fill(TS_PACK_LEN, 0), true)
  }

  function Stream(pid: nat, sps: seq<byte>, pps: seq<byte>, afterSps: seq<byte>, afterPps: seq<byte>, patFirst: bool)
    : (packets: seq<seq<byte>>)
    requires 0 < pid < 0x2000 && PesLen(sps, []) < TS_PACK_LEN - 5 && PesLen(pps, []) < TS_PACK_LEN - 5
    ensures forall p :: p in packets ==> |p| >= TS_PACK_LEN
  {
    var units := [Carrier(pid, sps, afterSps), Carrier(pid, pps, afterPps)];
    if patFirst then [PatPacket()] + units else units + [PatPacket()]
  }

  /** A PAT packet that is kept and names no PMT, then a carrier of each unit. */
  lemma PairIsPublished(start: TsState, patPacket: seq<byte>, pid: nat, sps: seq<byte>, pps: seq<byte>,
                        afterSps: seq<byte>, afterPps: seq<byte>)
    requires WellSized(start) && start == Init(start.pat, start.pmt, true)
    requires |patPacket| == TS_PACK_LEN && Pid(patPacket) == PAT_PID
    requires ParsePacket(start, patPacket).1 == start.(pat := patPacket, patLen := TS_PACK_LEN)
    requires 0 < pid < 0x2000
    requires Publishable(sps, H264_NAL_SPS, afterSps) && Publishable(pps, H264_NAL_PPS, afterPps)
    ensures
      var ti := FeedUntilComplete(start, [patPacket, Carrier(pid, sps, afterSps), Carrier(pid, pps, afterPps)]);
      && ti.sps == sps && ti.pps == pps && ti.esPid == pid && Complete(ti)
      && ti.pat == patPacket && ti.pmt == start.pmt
      && (HasPreamble(ti) <==> PesLen(sps, pps) <= TS_PACK_LEN - 4)
  {
    hide ParsePacket, Carrier, Scan, HasPreamble, Filed, Reachable, FeedUntilComplete, Init, WellSized;
    StartsIncomplete(start);
    var second, third := Carrier(pid, sps, afterSps), Carrier(pid, pps, afterPps);
    var one := ParsePacket(start, patPacket).1;
    CarrierIsKept(one, pid, sps, afterSps, H264_NAL_SPS);
    var two := ParsePacket(one, second).1;
    CarrierIsKept(two, pid, pps, afterPps, H264_NAL_PPS);
    FeedThree(start, patPacket, second, third);
    EveryStreamIsReachable(start.pat, start.pmt, [patPacket, second]);
    CompletingPacketBuilds(two, third);
  }

  lemma StartsIncomplete(start: TsState)
    requires WellSized(start) && start == Init(start.pat, start.pmt, true)
    ensures |start.pat| == |start.pmt| == TS_PACK_LEN && start.sps == start.pps == [] && start.needSpsPps
    ensures start.esPid == start.pmtPid == INVALID_PID
  {
  }

  lemma CarrierIsKept(ti: TsState, pid: nat, u: seq<byte>, next: seq<byte>, t: nat)
    requires WellSized(ti) && ti.needSpsPps && 0 < pid < 0x2000 && Wanted(t) && Publishable(u, t, next)
    requires pid != ti.pmtPid && (ti.esPid == INVALID_PID || ti.esPid == pid)
    requires !BothFound(Units(ti.sps, ti.pps))
    ensures
      var r := ParsePacket(ti, Carrier(pid, u, next)).1;
      && |u| >= 5 && Units(r.sps, r.pps) == FileUnit(Units(ti.sps, ti.pps), t, u)
      && r.esPid == pid && r.pmtPid == ti.pmtPid && r.patLen == ti.patLen && r.pat == ti.pat && r.pmt == ti.pmt
  {
    hide Scan, ParsePacket, Carrier, IsUnit;
    FiledSize(u, t);
    CarrierParses(ti, pid, u, next);
    UnitScans(u, next, t, Units(ti.sps, ti.pps));
  }

  lemma FeedNothing(ti: TsState)
    requires WellSized(ti)
    ensures FeedUntilComplete(ti, []) == ti
  {
  }

  lemma FeedThree(start: TsState, a: seq<byte>, b: seq<byte>, c: seq<byte>)
    requires WellSized(start) && |a| >= TS_PACK_LEN && |b| >= TS_PACK_LEN && |c| >= TS_PACK_LEN
    requires
      var one := ParsePacket(start, a).1;
      !Complete(start) && !Complete(one) && !Complete(ParsePacket(one, b).1)
    ensures
      var two := ParsePacket(ParsePacket(start, a).1, b).1;
      && FeedUntilComplete(start, [a, b]) == two
      && FeedUntilComplete(start, [a, b, c]) == ParsePacket(two, c).1
  {
    hide ParsePacket, Complete, FeedUntilComplete;
    FeedNothing(start);
    assert [a, b] == [] + [a] + [b] && [a, b, c] == [] + [a] + [b] + [c];
    FeedOneMore(start, [], a);
    FeedOneMore(start, [] + [a], b);
    FeedOneMore(start, [] + [a] + [b], c);
  }

  /** Every pair of units can be published: PAT, SPS and PPS in this order leave a preamble, if both fit in it. */
  lemma EveryPairIsPublished(pid: nat, sps: seq<byte>, pps: seq<byte>, afterSps: seq<byte>, afterPps: seq<byte>)
    requires 0 < pid < 0x2000
    requires Publishable(sps, H264_NAL_SPS, afterSps) && Publishable(pps, H264_NAL_PPS, afterPps)
    ensures
      var ti := FeedUntilComplete(Fresh(), Stream(pid, sps, pps, afterSps, afterPps, true));
      && ti.sps == sps && ti.pps == pps && ti.esPid == pid && Complete(ti)
      && (HasPreamble(ti) <==> PesLen(sps, pps) <= TS_PACK_LEN - 4)
  {
    hide ParsePacket, Carrier, PatPacket, HasPreamble;
    PatParses(Fresh());
    PairIsPublished(Fresh(), PatPacket(), pid, sps, pps, afterSps, afterPps);
    assert Stream(pid, sps, pps, afterSps, afterPps, true)
        == [PatPacket(), Carrier(pid, sps, afterSps), Carrier(pid, pps, afterPps)];
  }

  /** A PAT that comes last leaves every new player the null packets: the stream is complete and has no preamble. */
  lemma LatePatLeavesNoPreamble(pid: nat, sps: seq<byte>, pps: seq<byte>, afterSps: seq<byte>, afterPps: seq<byte>)
    requires 0 < pid < 0x2000
    requires Publishable(sps, H264_NAL_SPS, afterSps) && Publishable(pps, H264_NAL_PPS, afterPps)
    ensures
      var ti := FeedUntilComplete(Fresh(), Stream(pid, sps, pps, afterSps, afterPps, false));
      && ti.sps == sps && ti.pps == pps && Complete(ti) && ti.tsData == NullPackets() && !HasPreamble(ti)
  {
    hide ParsePacket, Carrier, PatPacket, Scan, HasPreamble, IsUnit, NullPackets;
    var first, second, third := Carrier(pid, sps, afterSps), Carrier(pid, pps, afterPps), PatPacket();
    var packets := Stream(pid, sps, pps, afterSps, afterPps, false);
    assert packets == [] + [first] + [second] + [third];
    FeedOneMore(Fresh(), [], first);
    FeedOneMore(Fresh(), [] + [first], second);
    FeedOneMore(Fresh(), [] + [first] + [second], third);
    CarrierParses(Fresh(), pid, sps, afterSps);
    UnitScans(sps, afterSps, H264_NAL_SPS, Units([], []));
    var one := ParsePacket(Fresh(), first).1;
    CarrierParses(one, pid, pps, afterPps);
    UnitScans(pps, afterPps, H264_NAL_PPS, Units(sps, []));
    var two := ParsePacket(one, second).1;
    EveryStreamIsReachable(Fresh().pat, Fresh().pmt, [] + [first] + [second]);
    PatParses(two);
    NullPacketsAreNoPreamble(two.(pat := third, patLen := TS_PACK_LEN));
  }

  /** What a player's fresh parser makes of the preamble a publisher of these units leaves. */
  function Player(pid: nat, sps: seq<byte>, pps: seq<byte>, afterSps: seq<byte>, afterPps: seq<byte>, rest: seq<byte>)
    : TsState
    requires 0 < pid < 0x2000 && PesLen(sps, []) < TS_PACK_LEN - 5 && PesLen(pps, []) < TS_PACK_LEN - 5
  {
    var ti := FeedUntilComplete(Fresh(), Stream(pid, sps, pps, afterSps, afterPps, true));
    ParsePacket(Fresh(), ti.tsData[376..564] + rest).1
  }

  /** Every pair that does not survive is lost to the players of some publisher. */
  lemma PairIsLost(pid: nat, sps: seq<byte>, pps: seq<byte>, afterSps: seq<byte>, afterPps: seq<byte>, rest: seq<byte>)
    requires 0 < pid < 0x2000
    requires Publishable(sps, H264_NAL_SPS, afterSps) && Publishable(pps, H264_NAL_PPS, afterPps)
    requires PesLen(sps, pps) <= TS_PACK_LEN - 4 && |sps| > 0 && |pps| > 3 && !Survives(sps, pps, Octet(rest, 0))
    ensures var r := Player(pid, sps, pps, afterSps, afterPps, rest); r.sps != sps || r.pps != pps
  {
    hide ParsePacket, Carrier, Scan, HasPreamble, IsUnit, Stream;
    EveryPairIsPublished(pid, sps, pps, afterSps, afterPps);
    EveryPreambleParsesBack(Fresh().pat, Fresh().pmt, Stream(pid, sps, pps, afterSps, afterPps, true), rest, Fresh());
  }

  function Unit(header: byte, tail: seq<byte>): (u: seq<byte>)
    ensures |u| == 5 + |tail|
  {
    [0, 0, 0, 1, header] + tail
  }

  lemma UnitIsOne(header: byte, tail: seq<byte>)
    requires header > 0 && forall j :: 0 <= j < |tail| - 4 ==> tail[j] != 0
    ensures IsUnit(Unit(header, tail), header % 32) && Unit(header, tail) != BARE_START_CODE
    ensures Unit(header, tail)[3] == 1
  {
    var u := Unit(header, tail);
    assert Octet(u, 3) == 1 && Octet(u, 4) == header;
    forall k | 4 <= k < |u| - 4
      ensures Octet(u, k) != 0
    {
      assert u[k] == if k == 4 then header else tail[k - 5];
    }
  }

  /** SPS and PPS of 169 bytes together make a payload of 183, for which no stuffing fits. */
  lemma OddLengthIsLost(pid: nat)
    requires 0 < pid < 0x2000
    ensures
      var sps, pps := Unit(0x67, Fill(80, 0xFF)), Unit(0x68, Fill(79, 0xFF));
      var r := Player(pid, sps, pps, [], [], []);
      PesLen(sps, pps) == 183 && (r.sps != sps || r.pps != pps)
  {
    hide Player, Unit, IsUnit;
    UnitIsOne(0x67, Fill(80, 0xFF));
    UnitIsOne(0x68, Fill(79, 0xFF));
    PairIsLost(pid, Unit(0x67, Fill(80, 0xFF)), Unit(0x68, Fill(79, 0xFF)), [], [], []);
  }

  lemma StartCodeAtEndIsLost(pid: nat)
    requires 0 < pid < 0x2000
    ensures
      var sps, pps := Unit(0x67, [0, 0, 0, 1]), Unit(0x68, [9]);
      var r := Player(pid, sps, pps, [], [], []);
      r.sps != sps || r.pps != pps
  {
    hide Player, IsUnit;
    UnitIsOne(0x67, [0, 0, 0, 1]);
    UnitIsOne(0x68, [9]);
    assert Unit(0x67, [0, 0, 0, 1])[5..] == [0, 0, 0, 1];
    PairIsLost(pid, Unit(0x67, [0, 0, 0, 1]), Unit(0x68, [9]), [], [], []);
  }

  lemma ZeroAtEndIsLost(pid: nat)
    requires 0 < pid < 0x2000
    ensures
      var sps, pps := Unit(0x67, [0]), Unit(0x68, [9]);
      var r := Player(pid, sps, pps, [], [], []);
      r.sps != sps || r.pps != pps
  {
    hide Player, IsUnit;
    UnitIsOne(0x67, [0]);
    UnitIsOne(0x68, [9]);
    assert Unit(0x67, [0])[5] == 0;
    PairIsLost(pid, Unit(0x67, [0]), Unit(0x68, [9]), [], [], []);
  }

  /** A PPS that is nothing but a start code: the publisher's next byte made it a PPS, but in the preamble the sync
      byte of a null packet follows. */
  lemma BareStartCodeIsLost(pid: nat)
    requires 0 < pid < 0x2000
    ensures
      var sps := Unit(0x67, [9]);
      var r := Player(pid, sps, BARE_START_CODE, [], [0x68], [TS_SYNC_BYTE]);
      r.sps != sps || r.pps != BARE_START_CODE
  {
    hide Player, IsUnit;
    UnitIsOne(0x67, [9]);
    PairIsLost(pid, Unit(0x67, [9]), BARE_START_CODE, [], [0x68], [TS_SYNC_BYTE]);
  }

  /** A start code at the very end of a packet is taken for an SPS because the next sync byte reads as its header. */
  lemma BareSpsIsLostToo(pid: nat)
    requires 0 < pid < 0x2000
    ensures
      var pps := Unit(0x68, [9]);
      var r := Player(pid, BARE_START_CODE, pps, [TS_SYNC_BYTE], [], []);
      r.sps != BARE_START_CODE || r.pps != pps
  {
    hide Player, IsUnit;
    UnitIsOne(0x68, [9]);
    assert BARE_START_CODE[1..] == [0, 0, 0, 1];
    PairIsLost(pid, BARE_START_CODE, Unit(0x68, [9]), [TS_SYNC_BYTE], [], []);
  }
}
