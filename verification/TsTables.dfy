/** What the parser of slscore/common.cpp keeps of a stream besides SPS and PPS: its PAT and PMT packets, the time
    stamps of its PES headers, and the stream id under which the preamble announces it. */
module TsTables {
  import opened Bytes
  import opened Common
  import opened PreambleRoundTrip
  import opened TsExamples
  import opened TsParser
  import opened TsPreamble

  // ----- PAT and PMT over any packets

  predicate Begins(packet: seq<byte>) {
    Octet(packet, 0) == TS_SYNC_BYTE && IsStart(packet)
  }

  /** The PID the PATs among the packets have named, if any does, for the PMT. */
  function PmtPidAfter(packets: seq<seq<byte>>, was: int): int {
    if packets == [] then was
    else
      var before, last := PmtPidAfter(packets[..|packets| - 1], was), packets[|packets| - 1];
      match PayloadAt(last)
      case None => before
      case Some(pos) =>
        if !Begins(last) || Pid(last) != PAT_PID || pos >= |last| then before
        else PmtPidFrom(last[pos + 1..], SectionLen(last[pos + 1..]), 0, before)
  }

  /** The first 188 bytes of the last packet that began a PMT when it came, or what was there before. */
  function LastPmtPacket(packets: seq<seq<byte>>, wasPid: int, was: seq<byte>): seq<byte>
    requires forall p :: p in packets ==> |p| >= TS_PACK_LEN
  {
    if packets == [] then was
    else
      var front, last := packets[..|packets| - 1], packets[|packets| - 1];
      if Begins(last) && Pid(last) != PAT_PID && Pid(last) == PmtPidAfter(front, wasPid) then last[..TS_PACK_LEN]
      else LastPmtPacket(front, wasPid, was)
  }

  /** The same for PAT packets. */
  function LastPatPacket(packets: seq<seq<byte>>, was: seq<byte>): seq<byte>
    requires forall p :: p in packets ==> |p| >= TS_PACK_LEN
  {
    if packets == [] then was
    else
      var front, last := packets[..|packets| - 1], packets[|packets| - 1];
      if Begins(last) && Pid(last) == PAT_PID then last[..TS_PACK_LEN] else LastPatPacket(front, was)
  }

  lemma PacketSaves(ti: TsState, packet: seq<byte>)
    requires WellSized(ti) && |packet| >= TS_PACK_LEN
    ensures
      var next := ParsePacket(ti, packet).1;
      && next.pmt == (if Begins(packet) && Pid(packet) != PAT_PID && Pid(packet) == ti.pmtPid
                      then packet[..TS_PACK_LEN] else ti.pmt)
      && next.pat == (if Begins(packet) && Pid(packet) == PAT_PID then packet[..TS_PACK_LEN] else ti.pat)
      && (Begins(packet) && Pid(packet) == PAT_PID && PayloadAt(packet).Some? ==>
            var section := packet[PayloadAt(packet).value + 1..];
            next.pmtPid == PmtPidFrom(section, SectionLen(section), 0, ti.pmtPid))
      && (!Begins(packet) || Pid(packet) != PAT_PID || PayloadAt(packet).None? ==> next.pmtPid == ti.pmtPid)
  {
    hide Scan, ParsePts, PmtPidFrom, Preamble, IsStart, Pid, SectionLen;
  }

  /** Over every packet sequence the parser holds the last PAT packet, the last PMT packet, and the PID named last. */
  lemma {:induction false} TablesAreKept(ti: TsState, packets: seq<seq<byte>>)
    requires WellSized(ti) && (forall p :: p in packets ==> |p| >= TS_PACK_LEN)
    ensures
      var r := Feed(ti, packets);
      && r.pmtPid == PmtPidAfter(packets, ti.pmtPid)
      && r.pmt == LastPmtPacket(packets, ti.pmtPid, ti.pmt)
      && r.pat == LastPatPacket(packets, ti.pat)
  {
    hide ParsePacket, PmtPidFrom, PayloadAt, Begins, Pid, SectionLen;
    if packets != [] {
      var front := packets[..|packets| - 1];
      TablesAreKept(ti, front);
      PacketSaves(Feed(ti, front), packets[|packets| - 1]);
    }
  }

  /** The loop that stops once the stream is complete has fed the packets up to there. */
  lemma {:induction false} FedUpTo(ti: TsState, packets: seq<seq<byte>>) returns (k: nat)
    requires WellSized(ti) && (forall p :: p in packets ==> |p| >= TS_PACK_LEN)
    ensures k <= |packets| && FeedUntilComplete(ti, packets) == Feed(ti, packets[..k])
    ensures k == |packets| || Complete(Feed(ti, packets[..k]))
    ensures forall j :: 0 <= j < k ==> !Complete(Feed(ti, packets[..j]))
  {
    hide ParsePacket, Complete, Feed;
    if packets == [] {
      k := 0;
      FedNothing(ti);
    } else {
      var front := packets[..|packets| - 1];
      k := FedUpTo(ti, front);
      SameFronts(packets, k);
      if !Complete(FeedUntilComplete(ti, front)) {
        assert k == |front| && front[..k] == front;
        FedLast(ti, packets);
        k := |packets|;
        assert packets[..k] == packets && packets[..|front|] == front;
      }
    }
  }

  lemma FedNothing(ti: TsState)
    requires WellSized(ti)
    ensures Feed(ti, []) == ti
  {
  }

  lemma FedLast(ti: TsState, packets: seq<seq<byte>>)
    requires WellSized(ti) && packets != [] && (forall p :: p in packets ==> |p| >= TS_PACK_LEN)
    ensures Feed(ti, packets) == ParsePacket(Feed(ti, packets[..|packets| - 1]), packets[|packets| - 1]).1
  {
    hide ParsePacket;
  }

  lemma SameFronts(packets: seq<seq<byte>>, k: nat)
    requires packets != [] && k <= |packets| - 1
    ensures forall j :: 0 <= j <= k ==> packets[..|packets| - 1][..j] == packets[..j]
  {
  }

  /** Whatever a publisher sends: a preamble begins with the last PAT packet and the last PMT packet that came before
      the stream was complete; until a PMT comes, with what the buffer held. */
  lemma PreambleHoldsTheTables(pat: seq<byte>, pmt: seq<byte>, packets: seq<seq<byte>>) returns (k: nat)
    requires |pat| == |pmt| == TS_PACK_LEN && (forall p :: p in packets ==> |p| >= TS_PACK_LEN)
    ensures k <= |packets|
    ensures k == |packets| || Complete(Feed(Init(pat, pmt, true), packets[..k]))
    ensures forall j :: 0 <= j < k ==> !Complete(Feed(Init(pat, pmt, true), packets[..j]))
    ensures
      var ti := FeedUntilComplete(Init(pat, pmt, true), packets);
      HasPreamble(ti) ==>
        && ti.tsData[..PMT_AT] == LastPatPacket(packets[..k], pat)
        && ti.tsData[PMT_AT..UNITS_AT] == LastPmtPacket(packets[..k], INVALID_PID, pmt)
  {
    hide Feed, FeedUntilComplete, Complete, LastPatPacket, LastPmtPacket, SpsPpsPacket, NullPackets;
    k := FedUpTo(Init(pat, pmt, true), packets);
    TablesAreKept(Init(pat, pmt, true), packets[..k]);
  }

  // ----- the stream id

  /** The packet that completes the stream and fits: its PID and its stream id are those of the preamble. */
  lemma CompletingPacketNamesStream(ti: TsState, packet: seq<byte>)
    requires Reachable(ti) && !Complete(ti) && |packet| >= TS_PACK_LEN && Pid(packet) != PAT_PID
    requires
      var next := ParsePacket(ti, packet).1;
      Complete(next) && PesLen(next.sps, next.pps) <= TS_PACK_LEN - 4
    ensures PayloadAt(packet).Some?
    ensures
      var next := ParsePacket(ti, packet).1;
      && next.esPid == Pid(packet)
      && next.tsData[UNITS_AT..NULLS_AT]
         == SpsPpsPacket(TS_SYNC_BYTE, 0, Pid(packet), Octet(packet, PayloadAt(packet).value + 3), next.sps, next.pps)
      && PayloadAt(next.tsData[UNITS_AT..]).Some?
      && Octet(next.tsData, UNITS_AT + PayloadAt(next.tsData[UNITS_AT..]).value + 3)
         == Octet(packet, PayloadAt(packet).value + 3)
  {
    hide Scan, Recorded, ParsePts, PmtPidFrom, ScanFrom, SpsPpsPacket;
    var next := ParsePacket(ti, packet).1;
    assert NullPackets()[UNITS_AT] == TS_SYNC_BYTE && NullPackets()[NULLS_AT - 1] == 0;
    StreamIdIsAt(next.tsData, Pid(packet), Octet(packet, PayloadAt(packet).value + 3), next.sps, next.pps);
  }

  lemma StreamIdIsAt(data: seq<byte>, pid: nat, streamId: byte, sps: seq<byte>, pps: seq<byte>)
    requires |data| == TS_UDP_LEN && 0 < pid < 0x2000 && PesLen(sps, pps) <= TS_PACK_LEN - 4
    requires data[UNITS_AT..NULLS_AT] == SpsPpsPacket(TS_SYNC_BYTE, 0, pid, streamId, sps, pps)
    ensures
      var packet := data[UNITS_AT..];
      PayloadAt(packet).Some? && Octet(data, UNITS_AT + PayloadAt(packet).value + 3) == streamId
  {
    hide SpsPpsPacket, PayloadAt;
    var rest := data[NULLS_AT..];
    assert data[UNITS_AT..] == data[UNITS_AT..NULLS_AT] + rest;
    PacketHeader(0, pid, streamId, sps, pps, rest);
    var packet := data[UNITS_AT..];
    var at := PayloadAt(packet).value;
    assert packet[at..][3] == PesHead(streamId)[3];
  }

  // ----- the time stamps of a PES header

  /** A time stamp as ISO/IEC 13818-1, section 2.4.3.7, lays it out behind a four-bit prefix. */
  function StampBytes(prefix: nat, v: nat): (s: seq<byte>)
    requires prefix < 16 && v < 0x2_0000_0000
    ensures |s| == 5
  {
    var e := EncodePts(v);
    [prefix * 16 + e[0] % 16] + e[1..]
  }

  predicate IsReadable(v: nat) {
    v < 0x8000_0000 && v % 0x4000_0000 < 0x40_0000
  }

  lemma PrefixIsIgnored(prefix: nat, v: nat, mem: seq<byte>, at: nat)
    requires prefix < 16 && v < 0x2_0000_0000
    requires at + 5 <= |mem| && mem[at..at + 5] == StampBytes(prefix, v)
    ensures ParsePts(mem, at) == ParsePts(EncodePts(v), 0)
  {
    hide EncodePts;
    var e, s := EncodePts(v), StampBytes(prefix, v);
    assert forall i :: 0 <= i < 5 ==> Octet(mem, at + i) == mem[at..at + 5][i] == s[i];
    PrefixBits(prefix, e[0] % 16, e[0]);
  }

  lemma PrefixBits(prefix: nat, low: nat, b: nat)
    requires low == b % 16
    ensures (prefix * 16 + low) / 4 % 2 == b / 4 % 2 && (prefix * 16 + low) / 2 % 2 == b / 2 % 2
  {
    LowBits(prefix, low);
    LowBits(b / 16, low);
  }

  lemma LowBits(high: nat, low: nat)
    requires low < 16
    ensures (high * 16 + low) / 4 % 2 == low / 4 % 2 && (high * 16 + low) / 2 % 2 == low / 2 % 2
  {
    Shifted(high * 4, low, 4);
    Shifted(high * 8, low, 2);
    Parity(high * 2, low / 4);
    Parity(high * 4, low / 2);
  }

  lemma Shifted(high: nat, low: nat, d: nat)
    requires d == 2 || d == 4
    ensures (high * d + low) / d == high + low / d
  {
  }

  lemma Parity(high: nat, low: nat)
    ensures (high * 2 + low) % 2 == low % 2
  {
  }

  /** A PES packet with a PTS, or with a PTS and then a DTS: which stamps the parser takes from it, on all time stamps
      that it reads back at all. With a PTS alone both are this one; with neither, there is none. */
  lemma PesStampsRead(ti: TsState, packet: seq<byte>, at: nat, pid: nat, pts: nat, dts: nat)
    requires |packet| >= TS_PACK_LEN && at + 19 <= TS_PACK_LEN && WellSized(ti) && pid < 0x2000
    requires Octet(packet, at) == 0 && Octet(packet, at + 1) == 0 && Octet(packet, at + 2) == 1
    requires Octet(packet, at + 3) == 0xE0 || Octet(packet, at + 3) == 0xC0
    requires IsReadable(pts) && IsReadable(dts)
    ensures
      var next, flags := ParsePes(ti, packet, at, pid).1, Octet(packet, at + 7) / 64;
      && (flags == 2 && packet[at + 9..at + 14] == StampBytes(2, pts) ==> next.pts == pts && next.dts == pts)
      && (flags == 3 && packet[at + 9..at + 19] == StampBytes(3, pts) + StampBytes(1, dts) ==>
            next.pts == pts && next.dts == dts)
      && (flags < 2 ==> next.pts == next.dts == INVALID_DTS_PTS)
  {
    hide Scan, ParsePts, StampBytes, Preamble;
    PtsReadBackExactly(pts);
    PtsReadBackExactly(dts);
    var flags := Octet(packet, at + 7) / 64;
    if flags == 2 && packet[at + 9..at + 14] == StampBytes(2, pts) {
      PrefixIsIgnored(2, pts, packet, at + 9);
    }
    if flags == 3 && packet[at + 9..at + 19] == StampBytes(3, pts) + StampBytes(1, dts) {
      assert packet[at + 9..at + 14] == packet[at + 9..at + 19][..5] == StampBytes(3, pts);
      assert packet[at + 14..at + 19] == packet[at + 9..at + 19][5..] == StampBytes(1, dts);
      PrefixIsIgnored(3, pts, packet, at + 9);
      PrefixIsIgnored(1, dts, packet, at + 14);
    }
  }

  // ----- a publisher that does everything right

  /** A PAT packet for these programs: pointer field, section, CRC, stuffing. */
  function PatOf(id: nat, programs: seq<Program>, crc: seq<byte>): (packet: seq<byte>)
    requires id < 0x1_0000 && WellNumbered(programs) && |programs| <= 42 && |crc| == 4
    ensures |packet| == TS_PACK_LEN
  {
    [TS_SYNC_BYTE, 0x40, 0, 0x10, 0] + (PatSection(id, programs) + (crc + Fill(171 - 4 * |programs|, 0xFF)))
  }

  lemma PatSectionLen(id: nat, programs: seq<Program>, tail: seq<byte>)
    requires id < 0x1_0000 && WellNumbered(programs)
    ensures SectionLen(PatSection(id, programs) + tail) == 9 + 4 * |programs|
    ensures |PatSection(id, programs)| == 8 + 4 * |programs|
  {
    LengthReads(PatSection(id, programs) + tail, 9 + 4 * |programs|);
  }

  lemma PatOfFields(id: nat, programs: seq<Program>, crc: seq<byte>)
    requires id < 0x1_0000 && WellNumbered(programs) && |programs| <= 42 && |crc| == 4
    ensures
      var packet := PatOf(id, programs, crc);
      && Begins(packet) && Pid(packet) == PAT_PID && PayloadAt(packet) == Some(4)
      && packet[5..] == PatSection(id, programs) + (crc + Fill(171 - 4 * |programs|, 0xFF))
  {
    hide PatSection, Fill;
  }

  lemma PatOfNames(id: nat, programs: seq<Program>, crc: seq<byte>, was: int)
    requires id < 0x1_0000 && WellNumbered(programs) && |programs| <= 42 && |crc| == 4
    ensures
      var packet := PatOf(id, programs, crc);
      && Begins(packet) && Pid(packet) == PAT_PID && PayloadAt(packet) == Some(4) && SectionFits(packet)
      && PmtPidFrom(packet[5..], SectionLen(packet[5..]), 0, was) == LastPmt(programs, was)
  {
    hide PatSection, PmtPidFrom, SectionLen, Fill, PatOf, Begins, Pid, PayloadAt, LastPmt;
    var tail := crc + Fill(171 - 4 * |programs|, 0xFF);
    PatOfFields(id, programs, crc);
    PatNamesLastPmt(id, programs, tail, was);
    PatSectionLen(id, programs, tail);
  }

  lemma PatIsTaken(ti: TsState, packet: seq<byte>, named: int)
    requires WellSized(ti) && |packet| == TS_PACK_LEN && Begins(packet) && Pid(packet) == PAT_PID
    requires PayloadAt(packet) == Some(4) && PmtPidFrom(packet[5..], SectionLen(packet[5..]), 0, ti.pmtPid) == named
    ensures ParsePacket(ti, packet).1 == ti.(pat := packet, patLen := TS_PACK_LEN, pmtPid := named)
  {
    hide ParsePes, PmtPidFrom, PayloadAt, SectionLen, IsStart, Pid;
    assert packet[..TS_PACK_LEN] == packet;
  }

  /** A PMT packet on the PID that the parser waits for. */
  lemma PmtParses(ti: TsState, packet: seq<byte>)
    requires WellSized(ti) && |packet| == TS_PACK_LEN && Begins(packet) && 0 < Pid(packet) == ti.pmtPid
    ensures ParsePacket(ti, packet).1 == ti.(pmt := packet, pmtLen := TS_PACK_LEN)
  {
    hide ParsePes, PmtPidFrom, PayloadAt;
    assert packet[..TS_PACK_LEN] == packet;
  }

  lemma Whole(a: seq<byte>, b: seq<byte>, c: seq<byte>, d: seq<byte>)
    requires |a| >= TS_PACK_LEN && |b| >= TS_PACK_LEN && |c| >= TS_PACK_LEN && |d| >= TS_PACK_LEN
    ensures forall p :: p in [a, b, c] ==> |p| >= TS_PACK_LEN
    ensures forall p :: p in [a, b, c, d] ==> |p| >= TS_PACK_LEN
    ensures [a, b, c, d][..3] == [a, b, c]
  {
  }

  lemma FeedLast(start: TsState, packets: seq<seq<byte>>)
    requires WellSized(start) && packets != [] && (forall p :: p in packets ==> |p| >= TS_PACK_LEN)
    ensures
      var before := FeedUntilComplete(start, packets[..|packets| - 1]);
      FeedUntilComplete(start, packets)
      == if Complete(before) then before else ParsePacket(before, packets[|packets| - 1]).1
  {
    hide ParsePacket, Complete;
  }

  lemma CarrierStreamId(pid: nat, u: seq<byte>, next: seq<byte>)
    requires 0 < pid < 0x2000 && PesLen(u, []) < TS_PACK_LEN - 5
    ensures
      var packet := Carrier(pid, u, next);
      PayloadAt(packet).Some? && Octet(packet, PayloadAt(packet).value + 3) == 0xE0
  {
    hide Carrier, PayloadAt;
    var packet := Carrier(pid, u, next);
    var at := CarrierLies(pid, u, next);
    assert packet[at..][3] == PesHead(0xE0)[3];
  }

  /** What such a publisher sends first. */
  datatype Publication = Publication(
    id: nat, programs: seq<Program>, crc: seq<byte>, pmtPacket: seq<byte>,
    pid: nat, sps: seq<byte>, pps: seq<byte>, afterSps: seq<byte>, afterPps: seq<byte>)
  {
    /** The PMT packet has the PID that the PAT names, the stream another; its units can be recorded and fit. */
    ghost predicate IsSound() {
      && id < 0x1_0000 && WellNumbered(programs) && |programs| <= 42 && |crc| == 4
      && |pmtPacket| == TS_PACK_LEN && Begins(pmtPacket) && 0 < Pid(pmtPacket) == LastPmt(programs, INVALID_PID)
      && 0 < pid < 0x2000 && pid != Pid(pmtPacket)
      && Publishable(sps, H264_NAL_SPS, afterSps) && Publishable(pps, H264_NAL_PPS, afterPps)
      && |pps| > 3 && PesLen(sps, pps) <= TS_PACK_LEN - 4
    }

    ghost function PatPacket(): (packet: seq<byte>)
      requires IsSound()
      ensures |packet| == TS_PACK_LEN
    {
      PatOf(id, programs, crc)
    }

    ghost function SpsPacket(): (packet: seq<byte>)
      requires IsSound()
      ensures |packet| >= TS_PACK_LEN
    {
      Carrier(pid, sps, afterSps)
    }

    ghost function PpsPacket(): (packet: seq<byte>)
      requires IsSound()
      ensures |packet| >= TS_PACK_LEN
    {
      Carrier(pid, pps, afterPps)
    }

    ghost function Packets(): (packets: seq<seq<byte>>)
      requires IsSound()
      ensures forall p :: p in packets ==> |p| >= TS_PACK_LEN
    {
      Whole(PatPacket(), pmtPacket, SpsPacket(), PpsPacket());
      [PatPacket(), pmtPacket, SpsPacket(), PpsPacket()]
    }
  }

  /** A parser that knows PAT and PMT and has seen no unit. */
  predicate KnowsTables(ti: TsState, patPacket: seq<byte>, pmtPacket: seq<byte>) {
    && WellSized(ti) && ti.sps == ti.pps == [] && ti.needSpsPps && ti.esPid == INVALID_PID && ti.patLen > 0
    && ti.pmtPid == Pid(pmtPacket) && ti.pat == patPacket && ti.pmt == pmtPacket
  }

  lemma TablesComplete(start: TsState, p: Publication)
    requires WellSized(start) && start == Init(start.pat, start.pmt, true) && p.IsSound()
    ensures
      var one := ParsePacket(start, p.PatPacket()).1;
      !Complete(start) && !Complete(one) && KnowsTables(ParsePacket(one, p.pmtPacket).1, p.PatPacket(), p.pmtPacket)
  {
    hide ParsePacket, PatOf, LastPmt, Pid, IsStart, PmtPidFrom, Init;
    StartsIncomplete(start);
    PatOfNames(p.id, p.programs, p.crc, INVALID_PID);
    PatIsTaken(start, p.PatPacket(), Pid(p.pmtPacket));
    PmtParses(ParsePacket(start, p.PatPacket()).1, p.pmtPacket);
  }

  lemma TablesAreFed(start: TsState, p: Publication)
    requires WellSized(start) && start == Init(start.pat, start.pmt, true) && p.IsSound()
    ensures
      var before := FeedUntilComplete(start, p.Packets()[..2]);
      KnowsTables(before, p.PatPacket(), p.pmtPacket)
  {
    hide ParsePacket, FeedUntilComplete, Init, Publication.PatPacket, Publication.SpsPacket, Publication.PpsPacket;
    hide Publication.IsSound, KnowsTables;
    TablesComplete(start, p);
    var packets := p.Packets();
    var none: seq<seq<byte>> := [];
    assert packets[..2][..1] == packets[..1] && packets[..1][..0] == none;
    FeedNothing(start);
    FeedLast(start, packets[..1]);
    FeedLast(start, packets[..2]);
  }

  /** What the two unit packets make of it. */
  predicate KnowsUnits(ti: TsState, before: TsState, p: Publication) {
    ti.sps == p.sps && ti.pps == p.pps && ti.esPid == p.pid && ti.pat == before.pat && ti.pmt == before.pmt
    && ti.patLen > 0
  }

  lemma UnitsComplete(two: TsState, p: Publication)
    requires p.IsSound() && KnowsTables(two, p.PatPacket(), p.pmtPacket)
    ensures
      var three := ParsePacket(two, p.SpsPacket()).1;
      && !Complete(two) && !Complete(three)
      && KnowsUnits(ParsePacket(three, p.PpsPacket()).1, two, p) && Complete(ParsePacket(three, p.PpsPacket()).1)
  {
    hide ParsePacket, Carrier, Scan, Filed, PatOf, Pid;
    CarrierIsKept(two, p.pid, p.sps, p.afterSps, H264_NAL_SPS);
    var three := ParsePacket(two, p.SpsPacket()).1;
    CarrierIsKept(three, p.pid, p.pps, p.afterPps, H264_NAL_PPS);
  }

  lemma UnitsAreFed(start: TsState, p: Publication)
    requires WellSized(start) && start == Init(start.pat, start.pmt, true) && p.IsSound()
    ensures
      var packets := p.Packets();
      var three := FeedUntilComplete(start, packets[..3]);
      && !Complete(three) && FeedUntilComplete(start, packets) == ParsePacket(three, p.PpsPacket()).1
      && Complete(FeedUntilComplete(start, packets))
      && KnowsUnits(FeedUntilComplete(start, packets), FeedUntilComplete(start, packets[..2]), p)
  {
    hide ParsePacket, FeedUntilComplete, Init, Publication.PatPacket, Publication.SpsPacket, Publication.PpsPacket;
    hide Publication.IsSound, KnowsUnits, Complete;
    TablesAreFed(start, p);
    var packets := p.Packets();
    UnitsComplete(FeedUntilComplete(start, packets[..2]), p);
    assert packets[..3][..2] == packets[..2] && packets[..4] == packets;
    FeedLast(start, packets[..3]);
    FeedLast(start, packets);
  }

  lemma PreambleIsBuilt(start: TsState, p: Publication)
    requires WellSized(start) && start == Init(start.pat, start.pmt, true) && p.IsSound()
    ensures
      var ti := FeedUntilComplete(start, p.Packets());
      && HasPreamble(ti)
      && ti.tsData[UNITS_AT..NULLS_AT] == SpsPpsPacket(TS_SYNC_BYTE, 0, p.pid, 0xE0, p.sps, p.pps)
  {
    hide ParsePacket, FeedUntilComplete, Init, Carrier, PatOf, SpsPpsPacket, Reachable, HasPreamble, Complete;
    UnitsAreFed(start, p);
    var packets := p.Packets();
    var three := FeedUntilComplete(start, packets[..3]);
    StartsIncomplete(start);
    EveryStreamIsReachable(start.pat, start.pmt, packets[..3]);
    CompletingPacketBuilds(three, p.PpsPacket());
    CarrierStreamId(p.pid, p.pps, p.afterPps);
    CompletingPacketNamesStream(three, p.PpsPacket());
  }

  lemma PmtInPlaceIsHarmless(data: seq<byte>, patPacket: seq<byte>, pmtPacket: seq<byte>)
    requires |data| == TS_UDP_LEN && data[..PMT_AT] == patPacket && data[PMT_AT..UNITS_AT] == pmtPacket
    requires SectionFits(patPacket) && PayloadAt(patPacket) == Some(4)
    requires Begins(pmtPacket) && 0 < Pid(pmtPacket)
    requires PmtPidFrom(patPacket[5..], SectionLen(patPacket[5..]), 0, INVALID_PID) == Pid(pmtPacket)
    ensures PmtIsHarmless(data)
  {
    hide PmtPidFrom, SectionFits, PayloadAt, IsPes;
    SameNamedPmt(patPacket, data);
    var packet := data[PMT_AT..];
    assert forall i :: 0 <= i < TS_PACK_LEN ==> packet[i] == data[PMT_AT..UNITS_AT][i];
  }

  /** PAT, PMT, SPS and PPS in this order: the preamble is the PAT packet, the PMT packet, the units under the PID and
      id of the stream, and null packets. */
  lemma PublicationIsAnnounced(start: TsState, p: Publication)
    requires WellSized(start) && start == Init(start.pat, start.pmt, true) && p.IsSound()
    ensures
      FeedUntilComplete(start, p.Packets()).tsData
      == p.PatPacket() + p.pmtPacket + SpsPpsPacket(TS_SYNC_BYTE, 0, p.pid, 0xE0, p.sps, p.pps)
         + NullPackets()[NULLS_AT..]
  {
    hide ParsePacket, FeedUntilComplete, Init, Carrier, PatOf, SpsPpsPacket, NullPackets, Publication.Packets;
    PreambleIsBuilt(start, p);
    UnitsAreFed(start, p);
    TablesAreFed(start, p);
    StartsIncomplete(start);
    PatStaysSaved(start.pat, start.pmt, p.Packets());
    var data := FeedUntilComplete(start, p.Packets()).tsData;
    assert data == data[..PMT_AT] + data[PMT_AT..UNITS_AT] + data[UNITS_AT..NULLS_AT] + data[NULLS_AT..];
  }

  /** A player that is given this preamble finds the stream, and SPS and PPS exactly if they survive. */
  lemma PublicationIsUnderstood(start: TsState, p: Publication, player: TsState)
    requires WellSized(start) && start == Init(start.pat, start.pmt, true) && p.IsSound()
    requires WellSized(player) && player == Init(player.pat, player.pmt, true)
    ensures
      var r := CheckInfo(player, FeedUntilComplete(start, p.Packets()).tsData, TS_UDP_LEN, 0);
      r.esPid == p.pid && r.sps == p.sps && r.pps == p.pps <==> Survives(p.sps, p.pps, TS_SYNC_BYTE)
  {
    hide ParsePacket, FeedUntilComplete, Init, Carrier, PatOf, SpsPpsPacket, NullPackets, Publication.Packets;
    hide CheckInfo, PmtIsHarmless, HasPreamble, Survives, Pid, PmtPidFrom, SectionFits;
    PreambleIsBuilt(start, p);
    UnitsAreFed(start, p);
    TablesAreFed(start, p);
    PublicationIsAnnounced(start, p);
    var ti := FeedUntilComplete(start, p.Packets());
    PatOfNames(p.id, p.programs, p.crc, INVALID_PID);
    PmtInPlaceIsHarmless(ti.tsData, p.PatPacket(), p.pmtPacket);
    StartsIncomplete(start);
    OrdinaryPreambleParsesBack(start.pat, start.pmt, p.Packets(), player);
  }

  // ----- the synthetic PES header

  /** Start code, stream id, no declared length, no scrambling, a PTS and nothing else, which fills the header to its
      declared length, as ISO/IEC 13818-1, section 2.4.3.6, asks; the PTS is 0 to this parser. */
  lemma PesHeadIsStandard(streamId: byte)
    ensures
      var h := PesHead(streamId);
      && h[..3] == [0, 0, 1] && h[3] == streamId && h[4] * 256 + h[5] == 0
      && h[6] / 64 == 2 && h[6] % 64 == 0 && h[7] / 64 == 2 && h[7] % 64 == 0
      && h[8] == |h| - 9 == 5 && ParsePts(h, 9) == 0
  {
  }

  // ----- which packets matter

  /** A packet that begins nothing, and one of another PID once the stream is chosen, change nothing. */
  lemma OtherPacketsAreIgnored(ti: TsState, packet: seq<byte>)
    requires WellSized(ti) && |packet| >= TS_PACK_LEN
    requires !Begins(packet)
      || (Pid(packet) != PAT_PID && Pid(packet) != ti.pmtPid && ti.esPid != INVALID_PID && Pid(packet) != ti.esPid)
    ensures ParsePacket(ti, packet) == (SLS_ERROR, ti)
  {
    hide ParsePes, PmtPidFrom, PayloadAt;
  }

  /** No stream is chosen before a packet with a time stamp has come, or both units; the one that brings them is. */
  lemma StreamIsChosen(ti: TsState, packet: seq<byte>)
    requires WellSized(ti) && |packet| >= TS_PACK_LEN
    requires ti.esPid == INVALID_PID && ti.dts == INVALID_DTS_PTS && (ti.sps == [] || ti.pps == [])
    ensures
      var next := ParsePacket(ti, packet).1;
      && (next.esPid == INVALID_PID || next.esPid == Pid(packet))
      && (next.esPid == INVALID_PID <==> next.dts == INVALID_DTS_PTS && (next.sps == [] || next.pps == []))
  {
    hide Scan, ParsePts, Preamble, PmtPidFrom, ScanFrom;
  }
}
