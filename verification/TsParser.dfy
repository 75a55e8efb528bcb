/** The MPEG-TS parser of slscore/common.cpp (ISO/IEC 13818-1, sections 2.4.3.2 to 2.4.3.7 and 2.4.4.3): it
    picks the first H.264 SPS and PPS (ITU-T H.264, Annex B) out of a packet stream and synthesises the preamble
    that is sent to every new player. */
module TsParser {
  import opened Bytes
  import opened Common

  const TS_SYNC_BYTE := 0x47
  const INVALID_PID := -1
  const PAT_PID := 0
  const INVALID_DTS_PTS := -1
  const H264_NAL_SPS := 7
  const H264_NAL_PPS := 8

  /** `ts_info`. `sps` and `pps` are the valid prefixes of their buffers; `pat` and `pmt` are whole buffers. */
  datatype TsState = TsState(
    esPid: int, dts: int, pts: int, needSpsPps: bool,
    sps: seq<byte>, pps: seq<byte>, tsData: seq<byte>,
    pat: seq<byte>, patLen: int, pmtPid: int, pmt: seq<byte>, pmtLen: int)

  predicate WellSized(ti: TsState) {
    |ti.tsData| == TS_UDP_LEN && |ti.pat| == TS_PACK_LEN && |ti.pmt| == TS_PACK_LEN
  }

  /** The byte at `mem + i`. The parser can read past the packet it was given: a packet is therefore passed with
      whatever follows it in memory, and only past the end of all that a zero stands in. */
  function Octet(mem: seq<byte>, i: nat): byte {
    if i < |mem| then mem[i] else 0
  }

  // ----- ff_parse_pes_pts

  /** Five bytes of a PES header as `ff_parse_pes_pts` combines them: the top bits go through a 32-bit `int`, and
      the second byte is shifted one place too far. */
  function CombinePts(b0: int, b1: int, b2: int, b3: int, b4: int): int {
    (if b0 / 4 % 2 == 1 then -0x8000_0000 else 0)
    + (if b0 / 2 % 2 == 1 && b1 < 128 then 0x4000_0000 else 0)
    + (b1 * 256 + b2 / 2) * 0x8000
    + (b3 * 256 + b4) / 2
  }

  function ParsePts(mem: seq<byte>, at: nat): int {
    CombinePts(Octet(mem, at), Octet(mem, at + 1), Octet(mem, at + 2), Octet(mem, at + 3), Octet(mem, at + 4))
  }

  /** A 33-bit time stamp in three groups of 3, 15 and 15 bits, each followed by a marker bit, as ISO/IEC 13818-1,
      section 2.4.3.7, lays it out. */
  function EncodePts(v: nat): (s: seq<byte>)
    requires v < 0x2_0000_0000
    ensures |s| == 5
  {
    var top, middle, low := v / 0x4000_0000, v % 0x4000_0000 / 0x8000, v % 0x4000_0000 % 0x8000;
    [0x21 + top * 2, middle / 128, middle % 128 * 2 + 1, low / 128, low % 128 * 2 + 1]
  }

  /** The parser reads back a standard time stamp exactly when its bits 22 to 29, 31 and 32 are zero. */
  lemma PtsReadBackExactly(v: nat)
    requires v < 0x2_0000_0000
    ensures ParsePts(EncodePts(v), 0) == v <==> v < 0x8000_0000 && v % 0x4000_0000 < 0x40_0000
  {
    var top, middle, low := v / 0x4000_0000, v % 0x4000_0000 / 0x8000, v % 0x4000_0000 % 0x8000;
    GroupsReadBack(top, middle, low);
  }

  /** The first value that is misread: 46.6 seconds on the 90 kHz clock. */
  lemma PtsIsMisread()
    ensures ParsePts(EncodePts(0x40_0000), 0) != 0x40_0000
  {
    PtsReadBackExactly(0x40_0000);
  }

  lemma GroupsReadBack(top: int, middle: int, low: int)
    requires 0 <= top < 8 && 0 <= middle < 0x8000 && 0 <= low < 0x8000
    ensures
      CombinePts(0x21 + top * 2, middle / 128, middle % 128 * 2 + 1, low / 128, low % 128 * 2 + 1)
        == top * 0x4000_0000 + middle * 0x8000 + low
      <==> top < 2 && middle < 128
  {
    assert (low / 128 * 256 + (low % 128 * 2 + 1)) / 2 == low;
    assert (middle % 128 * 2 + 1) / 2 == middle % 128;
  }

  /** No five bytes read back as the mark for "no time stamp". */
  lemma ParsedPtsIsNeverInvalid(mem: seq<byte>, at: nat)
    ensures ParsePts(mem, at) != INVALID_DTS_PTS
  {
    var b1: int, b2: int, b3: int, b4: int :=
      Octet(mem, at + 1), Octet(mem, at + 2), Octet(mem, at + 3), Octet(mem, at + 4);
    BitTwentyTwoIsZero(b1, b2 / 2, (b3 * 256 + b4) / 2);
  }

  lemma BitTwentyTwoIsZero(b1: int, half: int, low: int)
    requires 0 <= b1 < 256 && 0 <= half < 128 && 0 <= low < 0x8000
    ensures (b1 * 256 + half) * 0x8000 + low != 0x7FFF_FFFF
    ensures (b1 * 256 + half) * 0x8000 + low != 0x3FFF_FFFF
  {
  }

  // ----- sls_parse_spspps

  predicate StartsUnit(es: seq<byte>, pos: nat) {
    && Octet(es, pos) == 0 && Octet(es, pos + 1) == 0 && Octet(es, pos + 2) == 0
    && (Octet(es, pos + 3) == 1 || (Octet(es, pos + 3) == 0 && Octet(es, pos + 4) == 1))
  }

  function NalPos(es: seq<byte>, pos: nat): nat {
    pos + if Octet(es, pos + 3) != 0 then 4 else 5
  }

  function NalType(es: seq<byte>, pos: nat): nat {
    Octet(es, NalPos(es, pos)) % 32
  }

  datatype Units = Units(sps: seq<byte>, pps: seq<byte>)

  /** Files a finished unit under the type of the latest NAL header. */
  function FileUnit(u: Units, nalType: nat, unit: seq<byte>): Units {
    if nalType == H264_NAL_SPS then u.(sps := unit)
    else if nalType == H264_NAL_PPS then u.(pps := unit)
    else u
  }

  predicate BothFound(u: Units) {
    |u.sps| > 0 && |u.pps| > 0
  }

  /** The scan from `pos` on; `p` is where the latest SPS or PPS began. */
  function Scan(es: seq<byte>, esLen: int, pos: nat, p: Option<nat>, nalType: nat, u: Units): (r: (int, Units))
    requires esLen <= |es| && (p.Some? ==> p.value <= pos && p.value <= esLen)
    decreases esLen - pos
  {
    if pos >= esLen - 4 then
      var last := if p.Some? then FileUnit(u, nalType, es[p.value..esLen]) else u;
      (if p.Some? && BothFound(last) then SLS_OK else SLS_ERROR, last)
    else if StartsUnit(es, pos) then
      var filed := if p.Some? then FileUnit(u, nalType, es[p.value..pos]) else u;
      if p.Some? && BothFound(filed) then (SLS_OK, filed)
      else
        var t := NalType(es, pos);
        Scan(es, esLen, NalPos(es, pos), if t == H264_NAL_SPS || t == H264_NAL_PPS then Some(pos) else p, t, filed)
    else
      Scan(es, esLen, pos + 1, p, nalType, u)
  }

  // ----- sls_pes2es

  predicate Complete(ti: TsState) {
    |ti.sps| > 0 && |ti.pps| > 0 && ti.patLen > 0
  }

  /** The length of the PES packet that carries SPS and PPS: 9 header bytes and 5 of PTS before them. */
  function PesLen(sps: seq<byte>, pps: seq<byte>): nat {
    |sps| + |pps| + 9 + 5
  }

  function Fill(n: nat, b: byte): seq<byte> {
    seq(n, _ => b)
  }

  /** The transport header for a PES packet of `len` bytes, stuffed by an adaptation field up to 188. */
  function PacketHead(sync: byte, pid: nat, len: nat): (head: seq<byte>)
    requires pid < 0x2000 && len <= TS_PACK_LEN - 4
    ensures |head| == if len == TS_PACK_LEN - 5 then 4 else TS_PACK_LEN - len
  {
    var adLen := TS_PACK_LEN - 4 - len - 1;
    [sync, 0x40 + pid / 256, pid % 256] + if adLen > 0 then [0x30, adLen, 0] + Fill(adLen - 1, 0xFF) else [0x10]
  }

  /** A PES header with no declared length and a zero PTS. */
  function PesHead(streamId: byte): seq<byte> {
    [0, 0, 1, streamId, 0, 0, 0x80, 0x80, 5, 0, 0, 0, 0, 0]
  }

  /** The synthetic packet: header, stuffing in an adaptation field, PES header, SPS, PPS. The sync byte and a
      possible last byte are those the buffer already held. */
  function SpsPpsPacket(sync: byte, stale: byte, pid: nat, streamId: byte, sps: seq<byte>, pps: seq<byte>)
    : (packet: seq<byte>)
    requires pid < 0x2000 && PesLen(sps, pps) <= TS_PACK_LEN - 4
    ensures |packet| == TS_PACK_LEN
  {
    var len := PesLen(sps, pps);
    PacketHead(sync, pid, len) + PesHead(streamId) + sps + pps + if len == TS_PACK_LEN - 5 then [stale] else []
  }

  /** The preamble buffer after a build: PAT, PMT and the synthetic packet replace the first three packets. */
  function Preamble(ti: TsState, pid: nat, streamId: byte): (data: seq<byte>)
    requires WellSized(ti) && pid < 0x2000
    ensures |data| == TS_UDP_LEN
  {
    if PesLen(ti.sps, ti.pps) > TS_PACK_LEN - 4 then ti.pat + ti.pmt + ti.tsData[2 * TS_PACK_LEN..]
    else
      ti.pat + ti.pmt
      + SpsPpsPacket(ti.tsData[376], ti.tsData[563], pid, streamId, ti.sps, ti.pps)
      + ti.tsData[3 * TS_PACK_LEN..]
  }

  /** One PES packet that starts at offset `at` of the TS packet and ends with it. */
  function ParsePes(ti: TsState, packet: seq<byte>, at: nat, pid: nat): (r: (int, TsState))
    requires |packet| >= TS_PACK_LEN && at < TS_PACK_LEN && WellSized(ti) && pid < 0x2000
    ensures WellSized(r.1) && r.1.needSpsPps == ti.needSpsPps
  {
    var streamId := Octet(packet, at + 3);
    if Octet(packet, at) != 0 || Octet(packet, at + 1) != 0 || Octet(packet, at + 2) != 1 then (SLS_ERROR, ti)
    else if streamId != 0xE0 && streamId != 0xC0 then (SLS_ERROR, ti)
    else
      var (es, stamped) := Stamp(ti, packet, at);
      if ti.needSpsPps then FindSpsPps(stamped, packet, es, pid, streamId) else (SLS_OK, stamped)
  }

  /** The time stamps of a PES header, and the offset at which its payload begins. */
  function Stamp(ti: TsState, packet: seq<byte>, at: nat): (nat, TsState) {
    var flags := Octet(packet, at + 7) / 64;
    if flags == 2 then
      (at + 14, ti.(dts := ParsePts(packet, at + 9), pts := ParsePts(packet, at + 9)))
    else if flags == 3 then
      (at + 19, ti.(dts := ParsePts(packet, at + 14), pts := ParsePts(packet, at + 9)))
    else
      (at + 9, ti.(dts := INVALID_DTS_PTS, pts := INVALID_DTS_PTS))
  }

  /** Looks for SPS and PPS in the payload at `es`, and builds the preamble once they and a PAT are there. */
  function FindSpsPps(ti: TsState, packet: seq<byte>, es: nat, pid: nat, streamId: byte): (r: (int, TsState))
    requires |packet| >= TS_PACK_LEN && WellSized(ti) && pid < 0x2000
    ensures WellSized(r.1) && r.1.needSpsPps == ti.needSpsPps
  {
    var (ret, u) := ScanFrom(packet, es, Units(ti.sps, ti.pps));
    var scanned := ti.(sps := u.sps, pps := u.pps);
    (ret, if Complete(scanned) then Built(scanned, pid, streamId) else scanned)
  }

  function ScanFrom(packet: seq<byte>, es: nat, u: Units): (int, Units)
    requires |packet| >= TS_PACK_LEN
  {
    Scan(if es <= |packet| then packet[es..] else [], TS_PACK_LEN - es, 0, None, 0, u)
  }

  function Built(ti: TsState, pid: nat, streamId: byte): (r: TsState)
    requires WellSized(ti) && pid < 0x2000
    ensures WellSized(r)
  {
    var data := Preamble(ti, pid, streamId);
    if PesLen(ti.sps, ti.pps) > TS_PACK_LEN - 4 then ti.(tsData := data) else ti.(tsData := data, esPid := pid)
  }

  // ----- sls_parse_pat

  /** The PMT PID of the last program with a nonzero number, from entry offset `n` of the section on. */
  function PmtPidFrom(section: seq<byte>, sectionLen: nat, n: nat, pmtPid: int): int
    decreases sectionLen - n
  {
    if n + 12 >= sectionLen then pmtPid
    else
      var program := Octet(section, 8 + n) * 256 + Octet(section, 9 + n);
      var pid := Octet(section, 10 + n) % 32 * 256 + Octet(section, 11 + n);
      PmtPidFrom(section, sectionLen, n + 4, if program == 0 then pmtPid else pid)
  }

  function SectionLen(section: seq<byte>): nat {
    Octet(section, 1) % 16 * 256 + Octet(section, 2)
  }

  // ----- sls_parse_ts_info

  function Pid(packet: seq<byte>): (pid: nat)
    ensures pid < 0x2000
  {
    Octet(packet, 1) % 32 * 256 + Octet(packet, 2)
  }

  predicate IsStart(packet: seq<byte>) {
    Octet(packet, 1) / 64 % 2 == 1
  }

  /** The offset of the payload, if the packet has one. */
  function PayloadAt(packet: seq<byte>): (pos: Option<nat>)
    ensures pos.Some? ==> 4 <= pos.value < TS_PACK_LEN
  {
    var afc := Octet(packet, 3) / 16 % 4;
    var pos := if afc >= 2 then 4 + Octet(packet, 4) + 1 else 4;
    if afc == 0 || pos >= TS_PACK_LEN || afc % 2 != 1 then None else Some(pos)
  }

  function ParsePacket(ti: TsState, packet: seq<byte>): (r: (int, TsState))
    requires |packet| >= TS_PACK_LEN && WellSized(ti)
    ensures WellSized(r.1) && r.1.needSpsPps == ti.needSpsPps
  {
    var pid := Pid(packet);
    if Octet(packet, 0) != TS_SYNC_BYTE || !IsStart(packet) then (SLS_ERROR, ti)
    else if pid == PAT_PID then
      var saved := ti.(pat := packet[..TS_PACK_LEN], patLen := TS_PACK_LEN);
      match PayloadAt(packet)
      case None => (SLS_ERROR, saved)
      case Some(pos) =>
        var section := packet[pos + 1..];
        (SLS_OK, saved.(pmtPid := PmtPidFrom(section, SectionLen(section), 0, ti.pmtPid)))
    else if pid == ti.pmtPid then (SLS_OK, ti.(pmt := packet[..TS_PACK_LEN], pmtLen := TS_PACK_LEN))
    else if ti.esPid != INVALID_PID && pid != ti.esPid then (SLS_ERROR, ti)
    else
      match PayloadAt(packet)
      case None => (SLS_ERROR, ti)
      case Some(pos) =>
        var (ret, parsed) := ParsePes(ti, packet, pos, pid);
        (ret, if parsed.dts != INVALID_DTS_PTS || (|parsed.sps| > 0 && |parsed.pps| > 0) then parsed.(esPid := pid)
              else parsed)
  }

  // ----- CSLSMapData::check_ts_info

  lemma PacketFits(n: nat, i: nat)
    requires n % TS_PACK_LEN == 0 && i % TS_PACK_LEN == 0 && i < n
    ensures i + TS_PACK_LEN <= n && (i + TS_PACK_LEN) % TS_PACK_LEN == 0
  {
  }

  /** The packets of one datagram from offset `i` on, until SPS, PPS and PAT are all there. `data` is the whole
      receive buffer; only its first `len` bytes were received. */
  function CheckInfo(ti: TsState, data: seq<byte>, len: int, i: nat): (r: TsState)
    requires WellSized(ti) && len <= |data| && |data| % TS_PACK_LEN == 0 && i % TS_PACK_LEN == 0
    ensures WellSized(r) && r.needSpsPps == ti.needSpsPps
    decreases len - i
  {
    if i >= len || Complete(ti) then ti
    else
      PacketFits(|data|, i);
      CheckInfo(ParsePacket(ti, data[i..]).1, data, len, i + TS_PACK_LEN)
  }

  // ----- sls_init_ts_info

  /** Seven null packet headers over zeroes. */
  function NullPackets(): (s: seq<byte>)
    ensures |s| == TS_UDP_LEN
  {
    seq(TS_UDP_LEN, i =>
      if i % TS_PACK_LEN == 0 then 0x47 else if i % TS_PACK_LEN == 1 then 0x1F
      else if i % TS_PACK_LEN == 2 then 0xFF else 0)
  }

  /** A fresh `ts_info`; `sls_init_ts_info` leaves the PAT and PMT buffers as it finds them. */
  function Init(pat: seq<byte>, pmt: seq<byte>, needSpsPps: bool): TsState {
    TsState(INVALID_PID, INVALID_DTS_PTS, INVALID_DTS_PTS, needSpsPps, [], [], NullPackets(), pat, 0,
            INVALID_PID, pmt, 0)
  }
}
