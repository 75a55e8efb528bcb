/** What a player makes of the whole preamble, all seven packets of it (slscore/common.cpp, `sls_parse_ts_info`). */
module PreambleRoundTrip {
  import opened Bytes
  import opened Common
  import opened TsExamples
  import opened TsParser
  import opened TsPreamble

  const PMT_AT := 188
  const UNITS_AT := 376
  const NULLS_AT := 564

  // ----- what the publisher's side keeps

  /** A PAT that was saved begins as a PAT packet; the last four packets of the preamble are never written. */
  predicate PatIsSaved(ti: TsState) {
    && WellSized(ti) && ti.tsData[NULLS_AT..] == NullPackets()[NULLS_AT..]
    && (ti.patLen > 0 ==> Octet(ti.pat, 0) == TS_SYNC_BYTE && IsStart(ti.pat) && Pid(ti.pat) == PAT_PID)
  }

  lemma BuiltKeepsTail(ti: TsState, pid: nat, streamId: byte)
    requires WellSized(ti) && pid < 0x2000
    ensures Built(ti, pid, streamId).tsData[NULLS_AT..] == ti.tsData[NULLS_AT..]
  {
    hide SpsPpsPacket;
  }

  lemma PacketKeepsPat(ti: TsState, packet: seq<byte>)
    requires PatIsSaved(ti) && |packet| >= TS_PACK_LEN
    ensures PatIsSaved(ParsePacket(ti, packet).1)
  {
    hide Scan, ParsePts, PmtPidFrom, NullPackets, Preamble, ScanFrom, SpsPpsPacket;
    if PayloadAt(packet).Some? {
      var at := PayloadAt(packet).value;
      var (es, stamped) := Stamp(ti, packet, at);
      var (ret, u) := ScanFrom(packet, es, Units(ti.sps, ti.pps));
      BuiltKeepsTail(stamped.(sps := u.sps, pps := u.pps), Pid(packet), Octet(packet, at + 3));
    }
    assert forall i :: 0 <= i < 3 ==> Octet(packet[..TS_PACK_LEN], i) == Octet(packet, i);
  }

  lemma {:induction false} PatStaysSaved(pat: seq<byte>, pmt: seq<byte>, packets: seq<seq<byte>>)
    requires |pat| == |pmt| == TS_PACK_LEN && (forall p :: p in packets ==> |p| >= TS_PACK_LEN)
    ensures PatIsSaved(FeedUntilComplete(Init(pat, pmt, true), packets))
  {
    hide ParsePacket, NullPackets;
    if packets != [] {
      var front := packets[..|packets| - 1];
      PatStaysSaved(pat, pmt, front);
      PacketKeepsPat(FeedUntilComplete(Init(pat, pmt, true), front), packets[|packets| - 1]);
    }
  }

  // ----- the player's side, packet by packet

  /** The PMT PID that the PAT at the front of the buffer names. */
  function NamedPmt(data: seq<byte>): int {
    match PayloadAt(data)
    case None => INVALID_PID
    case Some(pos) =>
      var section := if pos + 1 <= |data| then data[pos + 1..] else [];
      PmtPidFrom(section, SectionLen(section), 0, INVALID_PID)
  }

  /** The packet in the place of the PMT is skipped by a player, or taken for the PMT. It need not even be one: until a
      PMT comes, its buffer holds what was in memory. */
  predicate PmtIsHarmless(data: seq<byte>)
    requires |data| == TS_UDP_LEN
  {
    var packet := data[PMT_AT..];
    Octet(packet, 0) != TS_SYNC_BYTE || !IsStart(packet)
    || (Pid(packet) != PAT_PID
        && (Pid(packet) == NamedPmt(data) || PayloadAt(packet).None? || !IsPes(packet, PayloadAt(packet).value)))
  }

  predicate IsPes(packet: seq<byte>, at: nat) {
    && Octet(packet, at) == 0 && Octet(packet, at + 1) == 0 && Octet(packet, at + 2) == 1
    && (Octet(packet, at + 3) == 0xE0 || Octet(packet, at + 3) == 0xC0)
  }

  /** A player that has seen no stream packet yet. */
  predicate Waiting(player: TsState) {
    WellSized(player) && player.needSpsPps && player.sps == player.pps == [] && player.esPid == INVALID_PID
    && player.dts == player.pts == INVALID_DTS_PTS
  }

  lemma PatIsRead(player: TsState, data: seq<byte>)
    requires Waiting(player) && player.pmtPid == INVALID_PID && |data| == TS_UDP_LEN
    requires Octet(data, 0) == TS_SYNC_BYTE && IsStart(data) && Pid(data) == PAT_PID
    ensures var next := ParsePacket(player, data).1; Waiting(next) && next.pmtPid == NamedPmt(data) && next.patLen > 0
  {
    hide PmtPidFrom, ParsePes;
  }

  lemma PmtIsSkipped(player: TsState, data: seq<byte>)
    requires Waiting(player) && |data| == TS_UDP_LEN && player.pmtPid == NamedPmt(data) && PmtIsHarmless(data)
    ensures
      var next := ParsePacket(player, data[PMT_AT..]).1;
      Waiting(next) && next.pmtPid == player.pmtPid && next.patLen == player.patLen
  {
    hide NamedPmt, PmtPidFrom, Scan;
  }

  /** Apart from the preamble it builds, a waiting player reads a stream packet like a fresh one. */
  lemma ReadsLikeFresh(player: TsState, packet: seq<byte>)
    requires Waiting(player) && |packet| >= TS_PACK_LEN && Pid(packet) != PAT_PID && Pid(packet) != player.pmtPid
    ensures
      var next, fresh' := ParsePacket(player, packet).1, ParsePacket(Init(player.pat, player.pmt, true), packet).1;
      && next.esPid == fresh'.esPid && next.sps == fresh'.sps && next.pps == fresh'.pps
      && next.patLen == player.patLen
  {
    hide Scan, ParsePts, Preamble, NullPackets;
  }

  predicate IsPreamble(ti: TsState, streamId: byte) {
    && WellSized(ti) && 0 < ti.esPid < 0x2000 && PesLen(ti.sps, ti.pps) <= TS_PACK_LEN - 4
    && ti.tsData[..PMT_AT] == ti.pat && ti.tsData[PMT_AT..UNITS_AT] == ti.pmt
    && ti.tsData[UNITS_AT..NULLS_AT]
       == SpsPpsPacket(ti.tsData[UNITS_AT], ti.tsData[NULLS_AT - 1], ti.esPid, streamId, ti.sps, ti.pps)
  }

  lemma PmtIsTaken(player: TsState, packet: seq<byte>)
    requires Waiting(player) && |packet| >= TS_PACK_LEN && Pid(packet) != PAT_PID && Pid(packet) == player.pmtPid
    ensures ParsePacket(player, packet).1.sps == []
  {
    hide ParsePes, PmtPidFrom;
  }

  lemma UnitsAreRead(player: TsState, ti: TsState, streamId: byte)
    requires Waiting(player) && player.patLen > 0 && (streamId == 0xE0 || streamId == 0xC0)
    requires Reachable(ti) && Complete(ti) && PatIsSaved(ti) && IsPreamble(ti, streamId)
    ensures |ti.pps| > 3
    ensures
      var next := ParsePacket(player, ti.tsData[UNITS_AT..]).1;
      && (next.esPid == ti.esPid && next.sps == ti.sps && next.pps == ti.pps
          <==> player.pmtPid != ti.esPid && Survives(ti.sps, ti.pps, TS_SYNC_BYTE))
      && (next.sps == ti.sps && next.pps == ti.pps ==> Complete(next))
  {
    hide ParsePacket, SpsPpsPacket, IsUnit, Survives, NullPackets, Scan, Pid, IsStart, PayloadAt, Init;
    var stale, rest := ti.tsData[NULLS_AT - 1], ti.tsData[NULLS_AT..];
    var packet := SpsPpsPacket(TS_SYNC_BYTE, stale, ti.esPid, streamId, ti.sps, ti.pps) + rest;
    assert ti.tsData[UNITS_AT..] == packet;
    assert Octet(rest, 0) == TS_SYNC_BYTE by { FirstNull(ti.tsData, 0); }
    FiledSize(ti.sps, H264_NAL_SPS);
    FiledSize(ti.pps, H264_NAL_PPS);
    PacketHeader(stale, ti.esPid, streamId, ti.sps, ti.pps, rest);
    if player.pmtPid == ti.esPid {
      PmtIsTaken(player, packet);
    } else {
      ReadsLikeFresh(player, packet);
      PacketParsesBack(ti.esPid, streamId, stale, ti.sps, ti.pps, rest, player.pat, player.pmt);
    }
  }

  lemma FirstNull(data: seq<byte>, n: nat)
    requires |data| == TS_UDP_LEN && data[NULLS_AT..] == NullPackets()[NULLS_AT..] && n < 4
    ensures Octet(data[NULLS_AT + n * TS_PACK_LEN..], 0) == TS_SYNC_BYTE
    ensures !IsStart(data[NULLS_AT + n * TS_PACK_LEN..])
  {
    var at := NULLS_AT + n * TS_PACK_LEN;
    assert data[at] == data[NULLS_AT..][at - NULLS_AT] == NullPackets()[NULLS_AT..][at - NULLS_AT];
    assert data[at + 1] == data[NULLS_AT..][at + 1 - NULLS_AT] == NullPackets()[NULLS_AT..][at + 1 - NULLS_AT];
  }

  // ----- the whole preamble

  lemma NullsAreSkipped(player: TsState, data: seq<byte>)
    requires WellSized(player) && |data| == TS_UDP_LEN && data[NULLS_AT..] == NullPackets()[NULLS_AT..]
    ensures CheckInfo(player, data, TS_UDP_LEN, NULLS_AT) == player
  {
    hide NullPackets;
    FirstNull(data, 0);
    FirstNull(data, 1);
    FirstNull(data, 2);
    FirstNull(data, 3);
    OnePacket(player, data, NULLS_AT);
    OnePacket(player, data, NULLS_AT + TS_PACK_LEN);
    OnePacket(player, data, NULLS_AT + 2 * TS_PACK_LEN);
    OnePacket(player, data, NULLS_AT + 3 * TS_PACK_LEN);
  }

  lemma OnePacket(player: TsState, data: seq<byte>, i: nat)
    requires WellSized(player) && |data| == TS_UDP_LEN && i % TS_PACK_LEN == 0 && i < TS_UDP_LEN
    ensures CheckInfo(player, data, TS_UDP_LEN, i)
         == if Complete(player) then player
            else CheckInfo(ParsePacket(player, data[i..]).1, data, TS_UDP_LEN, i + TS_PACK_LEN)
    ensures CheckInfo(player, data, TS_UDP_LEN, TS_UDP_LEN) == player
  {
    hide ParsePacket;
  }

  /** Whatever a publisher sends: a player that is given the whole preamble finds the stream, its SPS and its PPS
      exactly if the PAT does not name the stream itself as the PMT, and SPS and PPS survive their packet. */
  lemma WholePreambleParsesBack(pat: seq<byte>, pmt: seq<byte>, packets: seq<seq<byte>>, player: TsState)
    requires |pat| == |pmt| == TS_PACK_LEN && (forall p :: p in packets ==> |p| >= TS_PACK_LEN)
    requires player == Init(player.pat, player.pmt, true) && WellSized(player)
    requires
      var ti := FeedUntilComplete(Init(pat, pmt, true), packets);
      Complete(ti) && HasPreamble(ti) && PmtIsHarmless(ti.tsData)
    ensures
      var ti := FeedUntilComplete(Init(pat, pmt, true), packets);
      var r := CheckInfo(player, ti.tsData, TS_UDP_LEN, 0);
      && |ti.pps| > 3
      && (r.esPid == ti.esPid && r.sps == ti.sps && r.pps == ti.pps
          <==> NamedPmt(ti.tsData) != ti.esPid && Survives(ti.sps, ti.pps, TS_SYNC_BYTE))
  {
    hide ParsePacket, SpsPpsPacket, IsUnit, Survives, NullPackets, CheckInfo, NamedPmt, PmtIsHarmless, Pid, IsStart;
    hide FeedUntilComplete;
    EveryStreamIsReachable(pat, pmt, packets);
    PatStaysSaved(pat, pmt, packets);
    var ti := FeedUntilComplete(Init(pat, pmt, true), packets);
    var data := ti.tsData;
    assert data[..188] == ti.pat;
    PatHeads(data, ti.pat);
    PatIsRead(player, data);
    OnePacket(player, data, 0);
    assert data[0..] == data;
    var second := ParsePacket(player, data).1;
    PmtIsSkipped(second, data);
    OnePacket(second, data, PMT_AT);
    var third := ParsePacket(second, data[PMT_AT..]).1;
    UnitsAreRead(third, ti, if IsPreamble(ti, 0xE0) then 0xE0 else 0xC0);
    OnePacket(third, data, UNITS_AT);
    NullsAreSkipped(ParsePacket(third, data[UNITS_AT..]).1, data);
  }

  lemma PatHeads(data: seq<byte>, pat: seq<byte>)
    requires |data| == TS_UDP_LEN && |pat| == TS_PACK_LEN && data[..TS_PACK_LEN] == pat
    ensures Octet(data, 0) == Octet(pat, 0) && IsStart(data) == IsStart(pat) && Pid(data) == Pid(pat)
  {
    assert forall i :: 0 <= i < TS_PACK_LEN ==> data[i] == data[..TS_PACK_LEN][i];
  }

  // ----- a PAT whose section ends with its packet

  /** The section is within the first 188 bytes. */
  predicate SectionFits(packet: seq<byte>) {
    PayloadAt(packet).Some? ==>
      var start := PayloadAt(packet).value + 1;
      start + 3 <= TS_PACK_LEN && |packet| >= TS_PACK_LEN && start + SectionLen(packet[start..]) <= TS_PACK_LEN
  }

  /** The loop finds a program or keeps what it was given, and looks no further than the section. */
  lemma {:induction false} SameSection(a: seq<byte>, b: seq<byte>, len: nat, n: nat, was: int)
    requires forall i :: 0 <= i < len ==> Octet(a, i) == Octet(b, i)
    ensures
      var named := PmtPidFrom(b, len, n, INVALID_PID);
      named == INVALID_PID || PmtPidFrom(a, len, n, was) == named
    decreases len - n
  {
    if n + 12 < len {
      var program, pid := Octet(a, 8 + n) * 256 + Octet(a, 9 + n), Octet(a, 10 + n) % 32 * 256 + Octet(a, 11 + n);
      if program == 0 {
        SameSection(a, b, len, n + 4, was);
      } else {
        SameNamed(a, b, len, n + 4, pid);
      }
    }
  }

  lemma {:induction false} SameNamed(a: seq<byte>, b: seq<byte>, len: nat, n: nat, pmtPid: int)
    requires forall i :: 0 <= i < len ==> Octet(a, i) == Octet(b, i)
    ensures PmtPidFrom(a, len, n, pmtPid) == PmtPidFrom(b, len, n, pmtPid)
    decreases len - n
  {
    if n + 12 < len {
      var program, pid := Octet(a, 8 + n) * 256 + Octet(a, 9 + n), Octet(a, 10 + n) % 32 * 256 + Octet(a, 11 + n);
      SameNamed(a, b, len, n + 4, if program == 0 then pmtPid else pid);
    }
  }

  /** What is behind the packet does not matter. */
  lemma NamedInThePacket(packet: seq<byte>, more: seq<byte>, was: int)
    requires |packet| >= TS_PACK_LEN && |more| >= TS_PACK_LEN && packet[..TS_PACK_LEN] == more[..TS_PACK_LEN]
    requires SectionFits(packet)
    ensures PayloadAt(packet) == PayloadAt(more) && SectionFits(more)
    ensures PayloadAt(packet).Some? ==>
      var section := packet[PayloadAt(packet).value + 1..];
      NamedPmt(more) == INVALID_PID || PmtPidFrom(section, SectionLen(section), 0, was) == NamedPmt(more)
    ensures PayloadAt(packet).None? ==> NamedPmt(more) == INVALID_PID
  {
    assert forall i :: 0 <= i < TS_PACK_LEN ==>
        packet[i] == packet[..TS_PACK_LEN][i] == more[..TS_PACK_LEN][i] == more[i];
    if PayloadAt(packet).Some? {
      var start := PayloadAt(packet).value + 1;
      assert forall i :: 0 <= i < TS_PACK_LEN - start ==>
          Octet(packet[start..], i) == packet[start + i] == Octet(more[start..], i);
      SameSection(packet[start..], more[start..], SectionLen(packet[start..]), 0, was);
    }
  }

  lemma SameNamedPmt(packet: seq<byte>, more: seq<byte>)
    requires |packet| >= TS_PACK_LEN && |more| >= TS_PACK_LEN && packet[..TS_PACK_LEN] == more[..TS_PACK_LEN]
    requires SectionFits(packet)
    ensures NamedPmt(packet) == NamedPmt(more)
  {
    hide PmtPidFrom, SectionFits;
    NamedInThePacket(packet, more, INVALID_PID);
    NamedInThePacket(more, packet, INVALID_PID);
  }

  /** The PMT PID is what the saved PAT names, if that PAT fits its packet and names any; the chosen stream is not
      it. */
  predicate PmtIsAnother(ti: TsState) {
    && WellSized(ti)
    && (ti.patLen > 0 && SectionFits(ti.pat) ==> NamedPmt(ti.pat) == INVALID_PID || NamedPmt(ti.pat) == ti.pmtPid)
    && (Complete(ti) && ti.tsData != NullPackets() ==> ti.pmtPid != ti.esPid)
  }

  lemma PacketKeepsPmt(ti: TsState, packet: seq<byte>)
    requires PmtIsAnother(ti) && Reachable(ti) && !Complete(ti) && |packet| >= TS_PACK_LEN
    ensures PmtIsAnother(ParsePacket(ti, packet).1)
  {
    hide Scan, ParsePts, PmtPidFrom, NullPackets, Preamble, SpsPpsPacket, SectionFits, NamedPmt, ScanFrom, Recorded;
    var next := ParsePacket(ti, packet).1;
    if Octet(packet, 0) == TS_SYNC_BYTE && IsStart(packet) && Pid(packet) == PAT_PID {
      assert next.pat == packet[..TS_PACK_LEN];
      if SectionFits(next.pat) {
        assert next.pat[..TS_PACK_LEN] == packet[..TS_PACK_LEN];
        NamedInThePacket(next.pat, packet, ti.pmtPid);
        NamedInThePacket(packet, next.pat, ti.pmtPid);
      }
    }
  }

  lemma {:induction false} PmtStaysAnother(pat: seq<byte>, pmt: seq<byte>, packets: seq<seq<byte>>)
    requires |pat| == |pmt| == TS_PACK_LEN && (forall p :: p in packets ==> |p| >= TS_PACK_LEN)
    ensures PmtIsAnother(FeedUntilComplete(Init(pat, pmt, true), packets))
  {
    hide ParsePacket, NullPackets, Reachable;
    if packets != [] {
      var front := packets[..|packets| - 1];
      PmtStaysAnother(pat, pmt, front);
      EveryStreamIsReachable(pat, pmt, front);
      var before := FeedUntilComplete(Init(pat, pmt, true), front);
      if !Complete(before) {
        PacketKeepsPmt(before, packets[|packets| - 1]);
      }
    }
  }

  /** If the section of the PAT is in its packet, it never names the stream itself: then nothing but SPS and PPS
      decides. */
  lemma OrdinaryPreambleParsesBack(pat: seq<byte>, pmt: seq<byte>, packets: seq<seq<byte>>, player: TsState)
    requires |pat| == |pmt| == TS_PACK_LEN && (forall p :: p in packets ==> |p| >= TS_PACK_LEN)
    requires player == Init(player.pat, player.pmt, true) && WellSized(player)
    requires
      var ti := FeedUntilComplete(Init(pat, pmt, true), packets);
      Complete(ti) && HasPreamble(ti) && PmtIsHarmless(ti.tsData) && SectionFits(ti.pat)
    ensures
      var ti := FeedUntilComplete(Init(pat, pmt, true), packets);
      var r := CheckInfo(player, ti.tsData, TS_UDP_LEN, 0);
      && |ti.pps| > 3
      && (r.esPid == ti.esPid && r.sps == ti.sps && r.pps == ti.pps
          <==> Survives(ti.sps, ti.pps, TS_SYNC_BYTE))
  {
    hide SpsPpsPacket, Survives, NullPackets, CheckInfo, NamedPmt, PmtIsHarmless, FeedUntilComplete, SectionFits;
    var ti := FeedUntilComplete(Init(pat, pmt, true), packets);
    WholePreambleParsesBack(pat, pmt, packets, player);
    PmtStaysAnother(pat, pmt, packets);
    if ti.tsData == NullPackets() {
      NullPacketsAreNoPreamble(ti);
    }
    assert ti.tsData[..TS_PACK_LEN] == ti.pat == ti.pat[..TS_PACK_LEN];
    SameNamedPmt(ti.pat, ti.tsData);
  }

  // ----- a PAT whose section begins behind its packet

  /** Its adaptation field leaves one byte of payload. */
  function EdgePat(): (packet: seq<byte>)
    ensures |packet| == TS_PACK_LEN
  {
    [TS_SYNC_BYTE, 0x40, 0, 0x30, 182] + Fill(183, 0)
  }

  /** What a PMT buffer may hold before a PMT comes: read as a section, one program with this PMT PID. */
  function Leftover(pid: nat): (memory: seq<byte>)
    requires pid < 0x2000
    ensures |memory| == TS_PACK_LEN
  {
    [0, 0, 13, 0, 0, 0, 0, 0, 0, 1, pid / 256, pid % 256] + Fill(176, 0)
  }

  lemma EdgeFields(data: seq<byte>)
    requires |data| >= TS_PACK_LEN && data[..TS_PACK_LEN] == EdgePat()
    ensures Octet(data, 0) == TS_SYNC_BYTE && IsStart(data) && Pid(data) == PAT_PID
    ensures PayloadAt(data) == Some(TS_PACK_LEN - 1)
  {
    var packet := EdgePat();
    assert forall i :: 0 <= i < 5 ==> data[i] == data[..TS_PACK_LEN][i] == packet[i];
  }

  lemma EdgePatParses(pat: seq<byte>, pid: nat)
    requires |pat| == TS_PACK_LEN && pid < 0x2000
    ensures
      var start := Init(pat, Leftover(pid), true);
      ParsePacket(start, EdgePat()).1 == start.(pat := EdgePat(), patLen := TS_PACK_LEN)
    ensures Pid(EdgePat()) == PAT_PID
  {
    hide ParsePacket, Leftover, Init;
    EdgeFields(EdgePat());
    hide EdgePat, IsStart, Pid, PayloadAt;
    var start := Init(pat, Leftover(pid), true);
    InitIsSized(pat, Leftover(pid));
    NothingBehind(start, EdgePat());
  }

  lemma InitIsSized(pat: seq<byte>, pmt: seq<byte>)
    requires |pat| == |pmt| == TS_PACK_LEN
    ensures WellSized(Init(pat, pmt, true))
  {
  }

  lemma NothingBehind(ti: TsState, packet: seq<byte>)
    requires WellSized(ti) && |packet| == TS_PACK_LEN && Octet(packet, 0) == TS_SYNC_BYTE && IsStart(packet)
    requires Pid(packet) == PAT_PID && PayloadAt(packet) == Some(TS_PACK_LEN - 1)
    ensures ParsePacket(ti, packet).1 == ti.(pat := packet, patLen := TS_PACK_LEN)
  {
    hide ParsePes, IsStart, Pid, PayloadAt;
    assert packet[..TS_PACK_LEN] == packet && packet[TS_PACK_LEN..] == [];
    assert PmtPidFrom([], SectionLen([]), 0, ti.pmtPid) == ti.pmtPid;
  }

  lemma EdgeNames(pid: nat, data: seq<byte>)
    requires pid < 0x2000 && |data| == TS_UDP_LEN
    requires data[..PMT_AT] == EdgePat() && data[PMT_AT..UNITS_AT] == Leftover(pid)
    ensures NamedPmt(data) == pid && PmtIsHarmless(data)
  {
    var memory, section := Leftover(pid), data[PMT_AT..];
    EdgeFields(data);
    hide EdgePat, PayloadAt;
    assert forall i :: 0 <= i < TS_PACK_LEN ==> section[i] == data[PMT_AT..UNITS_AT][i] == memory[i];
    assert SectionLen(section) == 13;
    assert pid / 256 % 32 == pid / 256;
    assert PmtPidFrom(section, 13, 4, pid) == pid;
  }

  /** Every pair of units that fits the preamble can be lost this way, though it survives its packet. */
  lemma PatMayNameTheStream(pid: nat, sps: seq<byte>, pps: seq<byte>, afterSps: seq<byte>, afterPps: seq<byte>,
                            player: TsState)
    requires 0 < pid < 0x2000 && PesLen(sps, pps) <= TS_PACK_LEN - 4
    requires Publishable(sps, H264_NAL_SPS, afterSps) && Publishable(pps, H264_NAL_PPS, afterPps)
    requires player == Init(player.pat, player.pmt, true) && WellSized(player)
    ensures
      var packets := [EdgePat(), Carrier(pid, sps, afterSps), Carrier(pid, pps, afterPps)];
      var ti := FeedUntilComplete(Init(Fill(TS_PACK_LEN, 0), Leftover(pid), true), packets);
      var r := CheckInfo(player, ti.tsData, TS_UDP_LEN, 0);
      && ti.sps == sps && ti.pps == pps && HasPreamble(ti)
      && (r.esPid != pid || r.sps != sps || r.pps != pps)
  {
    hide ParsePacket, Carrier, CheckInfo, NamedPmt, PmtIsHarmless, FeedUntilComplete, EdgePat, Leftover, Survives;
    hide IsUnit, SpsPpsPacket, Filed;
    var start := Init(Fill(TS_PACK_LEN, 0), Leftover(pid), true);
    EdgePatParses(start.pat, pid);
    PairIsPublished(start, EdgePat(), pid, sps, pps, afterSps, afterPps);
    var packets := [EdgePat(), Carrier(pid, sps, afterSps), Carrier(pid, pps, afterPps)];
    var ti := FeedUntilComplete(start, packets);
    EdgeNames(pid, ti.tsData);
    WholePreambleParsesBack(start.pat, start.pmt, packets, player);
  }
}
