/** `ts_info` and the functions of slscore/common.cpp that fill it in place, each against its specification. */
module TsInfoModel {
  import opened Bytes
  import opened Common
  import opened TsParser

  class TsInfo {
    var esPid: int
    var dts: int
    var pts: int
    var needSpsPps: bool
    var sps: seq<byte>
    var pps: seq<byte>
    const tsData: array<byte>
    var pat: seq<byte>
    var patLen: int
    var pmtPid: int
    var pmt: seq<byte>
    var pmtLen: int

    ghost predicate Valid()
      reads this
    {
      tsData.Length == TS_UDP_LEN && |pat| == TS_PACK_LEN && |pmt| == TS_PACK_LEN
    }

    ghost function Value(): TsState
      reads this, tsData
    {
      TsState(esPid, dts, pts, needSpsPps, sps, pps, tsData[..], pat, patLen, pmtPid, pmt, pmtLen)
    }

    /** `new ts_info` followed by `sls_init_ts_info`; `pat0` and `pmt0` stand for what the heap held. */
    constructor (pat0: seq<byte>, pmt0: seq<byte>)
      requires |pat0| == TS_PACK_LEN && |pmt0| == TS_PACK_LEN
      ensures Valid() && fresh(tsData) && Value() == Init(pat0, pmt0, false)
    {
      esPid, dts, pts, needSpsPps := INVALID_PID, INVALID_DTS_PTS, INVALID_DTS_PTS, false;
      sps, pps, pat, patLen, pmt, pmtLen := [], [], pat0, 0, pmt0, 0;
      pmtPid := INVALID_PID;
      tsData := new byte[TS_UDP_LEN](_ => 0);
      new;
      var i := 0;
      while i < TS_UDP_LEN
        invariant i % TS_PACK_LEN == 0 && 0 <= i <= TS_UDP_LEN
        invariant forall k {:trigger tsData[k]} :: 0 <= k < i ==> tsData[k] == NullPackets()[k]
        invariant forall k :: i <= k < TS_UDP_LEN ==> tsData[k] == 0
        modifies tsData
      {
        tsData[i] := 0x47;
        tsData[i + 1] := 0x1F;
        tsData[i + 2] := 0xFF;
        tsData[i + 3] := 0x00;
        i := i + TS_PACK_LEN;
      }
    }

    method ParseSpsPps(es: seq<byte>, esLen: int) returns (ret: int)
      requires esLen <= |es|
      modifies this`sps, this`pps
      ensures (ret, Units(sps, pps)) == Scan(es, esLen, 0, None, 0, Units(old(sps), old(pps)))
    {
      ret := SLS_ERROR;
      var pos := 0;
      var p: Option<nat> := None;
      var nalType: nat := 0;
      while pos < esLen - 4
        invariant p.Some? ==> p.value <= pos && p.value <= esLen
        invariant Scan(es, esLen, pos, p, nalType, Units(sps, pps))
          == Scan(es, esLen, 0, None, 0, Units(old(sps), old(pps)))
        decreases esLen - pos
      {
        if StartsUnit(es, pos) {
          if p.Some? {
            if nalType == H264_NAL_SPS {
              sps := es[p.value..pos];
            } else if nalType == H264_NAL_PPS {
              pps := es[p.value..pos];
            }
            if |sps| > 0 && |pps| > 0 {
              return SLS_OK;
            }
          }
          var nalPos := pos + if Octet(es, pos + 3) != 0 then 4 else 5;
          nalType := Octet(es, nalPos) % 32;
          if nalType == H264_NAL_SPS || nalType == H264_NAL_PPS {
            p := Some(pos);
          }
          pos := nalPos;
        } else {
          pos := pos + 1;
        }
      }
      if p.Some? {
        if nalType == H264_NAL_SPS {
          sps := es[p.value..esLen];
        } else if nalType == H264_NAL_PPS {
          pps := es[p.value..esLen];
        }
        if |sps| > 0 && |pps| > 0 {
          ret := SLS_OK;
        }
      }
    }

    /** A run of `p[pos++] = ...` stores, or one `memcpy` or `memset`, into the preamble buffer; `base` is where
        the part being assembled began. */
    method Emit(ghost base: nat, pos: nat, bytes: seq<byte>) returns (next: nat)
      requires base <= pos && pos + |bytes| <= tsData.Length
      modifies tsData
      ensures next == pos + |bytes|
      ensures tsData[base..next] == old(tsData[base..pos]) + bytes
      ensures forall k :: 0 <= k < base || next <= k < tsData.Length ==> tsData[k] == old(tsData[k])
    {
      for i := 0 to |bytes|
        invariant tsData[base..pos + i] == old(tsData[base..pos]) + bytes[..i]
        invariant forall k :: 0 <= k < base || pos + i <= k < tsData.Length ==> tsData[k] == old(tsData[k])
      {
        tsData[pos + i] := bytes[i];
      }
      next := pos + |bytes|;
    }

    /** The part of `sls_pes2es` that writes the preamble. */
    method BuildPreamble(pid: nat, streamId: byte)
      requires Valid() && pid < 0x2000
      modifies this`esPid, tsData
      ensures Value() == Built(old(Value()), pid, streamId)
    {
      ghost var was := tsData[..];
      var pos := Emit(0, 0, pat);
      pos := Emit(0, pos, pmt);
      ghost var tables := tsData[..pos];
      assert tables == pat + pmt;
      var len := |sps| + |pps|;
      len := len + 9 + 5;
      if len > TS_PACK_LEN - 4 {
        assert tsData[pos..] == was[pos..];
        assert tsData[..] == tsData[..pos] + tsData[pos..];
        return;
      }
      esPid := pid;
      BuildPacket(pos, len, streamId);
      assert tsData[..pos] == tables;
      assert tsData[pos + TS_PACK_LEN..] == was[pos + TS_PACK_LEN..];
      assert tsData[..] == tsData[..pos] + tsData[pos..pos + TS_PACK_LEN] + tsData[pos + TS_PACK_LEN..];
    }

    /** The synthetic packet at `at`, for the PID just stored in `esPid`. */
    method BuildPacket(at: nat, len: int, streamId: byte)
      requires Valid() && at == 2 * TS_PACK_LEN && 0 <= esPid < 0x2000
      requires len == PesLen(sps, pps) <= TS_PACK_LEN - 4
      modifies tsData
      ensures forall k :: 0 <= k < at || at + TS_PACK_LEN <= k < TS_UDP_LEN ==> tsData[k] == old(tsData[k])
      ensures tsData[at..at + TS_PACK_LEN]
        == SpsPpsPacket(old(tsData[at]), old(tsData[at + TS_PACK_LEN - 1]), esPid, streamId, sps, pps)
    {
      ghost var was := tsData[..];
      var pos := at + 1;
      assert tsData[at..pos] == [was[at]];
      pos := Emit(at, pos, [0x40 + esPid / 256, esPid % 256]);
      var adLen := TS_PACK_LEN - 4 - len - 1;
      if adLen > 0 {
        pos := Emit(at, pos, [0x30, adLen, 0x00] + Fill(adLen - 1, 0xFF));
      } else {
        pos := Emit(at, pos, [0x10]);
      }
      assert tsData[at..pos] == PacketHead(was[at], esPid, len);
      hide PacketHead;
      pos := Emit(at, pos, PesHead(streamId));
      pos := Emit(at, pos, sps);
      pos := Emit(at, pos, pps);
      ghost var end := at + TS_PACK_LEN;
      assert tsData[pos..end] == if adLen == 0 then [was[end - 1]] else [];
      assert tsData[at..end] == tsData[at..pos] + tsData[pos..end];
    }

    method ParsePesFrame(packet: seq<byte>, at: nat, pid: nat) returns (ret: int)
      requires Valid() && |packet| >= TS_PACK_LEN && at < TS_PACK_LEN && pid < 0x2000
      modifies this, tsData
      ensures Valid() && (ret, Value()) == ParsePes(old(Value()), packet, at, pid)
    {
      hide Scan, Preamble, ParsePts;
      if Octet(packet, at) != 0x00 || Octet(packet, at + 1) != 0x00 || Octet(packet, at + 2) != 0x01 {
        return SLS_ERROR;
      }
      var streamId := Octet(packet, at + 3);
      if streamId != 0xE0 && streamId != 0xC0 {
        return SLS_ERROR;
      }
      var flags := Octet(packet, at + 7) / 64;
      var pes := at + 9;
      dts, pts := INVALID_DTS_PTS, INVALID_DTS_PTS;
      if flags == 2 {
        dts := ParsePts(packet, pes);
        pts := dts;
        pes := pes + 5;
      } else if flags == 3 {
        pts := ParsePts(packet, pes);
        pes := pes + 5;
        dts := ParsePts(packet, pes);
        pes := pes + 5;
      }
      assert (pes, Value()) == Stamp(old(Value()), packet, at);
      ret := SLS_OK;
      if needSpsPps {
        ret := LookForSpsPps(packet, pes, pid, streamId);
      }
    }

    /** The part of `sls_pes2es` behind `need_spspps`. */
    method LookForSpsPps(packet: seq<byte>, es: nat, pid: nat, streamId: byte) returns (ret: int)
      requires Valid() && |packet| >= TS_PACK_LEN && pid < 0x2000
      modifies this`sps, this`pps, this`esPid, tsData
      ensures Valid() && (ret, Value()) == FindSpsPps(old(Value()), packet, es, pid, streamId)
    {
      hide Scan, Built;
      ret := ParseSpsPps(if es <= |packet| then packet[es..] else [], TS_PACK_LEN - es);
      if |sps| > 0 && |pps| > 0 && patLen > 0 {
        BuildPreamble(pid, streamId);
      }
    }

    method ParsePatSection(section: seq<byte>)
      modifies this`pmtPid
      ensures pmtPid == PmtPidFrom(section, SectionLen(section), 0, old(pmtPid))
    {
      var sectionLen := Octet(section, 1) % 16 * 256 + Octet(section, 2);
      var n := 0;
      while n < sectionLen - 12
        invariant PmtPidFrom(section, sectionLen, n, pmtPid) == PmtPidFrom(section, sectionLen, 0, old(pmtPid))
      {
        var program := Octet(section, 8 + n) * 256 + Octet(section, 9 + n);
        if program != 0 {
          pmtPid := Octet(section, 10 + n) % 32 * 256 + Octet(section, 11 + n);
        }
        n := n + 4;
      }
    }

    method ParseTsInfo(packet: seq<byte>) returns (ret: int)
      requires Valid() && |packet| >= TS_PACK_LEN
      modifies this, tsData
      ensures Valid() && (ret, Value()) == ParsePacket(old(Value()), packet)
    {
      if Octet(packet, 0) != TS_SYNC_BYTE {
        return SLS_ERROR;
      }
      if !IsStart(packet) {
        return SLS_ERROR;
      }
      var pid := Pid(packet);
      if PAT_PID == pid {
        pat := packet[..TS_PACK_LEN];
        patLen := TS_PACK_LEN;
      } else {
        if pmtPid == pid {
          pmt := packet[..TS_PACK_LEN];
          pmtLen := TS_PACK_LEN;
          return SLS_OK;
        }
        if INVALID_PID != esPid && pid != esPid {
          return SLS_ERROR;
        }
      }
      var payload := PayloadAt(packet);
      if payload.None? {
        return SLS_ERROR;
      }
      var pos := payload.value;
      if pid == PAT_PID {
        pos := pos + 1;
        ParsePatSection(packet[pos..]);
        return SLS_OK;
      }
      ret := ParsePesFrame(packet, pos, pid);
      if dts != INVALID_DTS_PTS {
        esPid := pid;
      }
      if |sps| > 0 && |pps| > 0 {
        esPid := pid;
      }
    }

    /** `check_ts_info`: the packets of one datagram, of which the first `len` bytes of `data` were received. */
    method CheckTsInfo(data: seq<byte>, len: int) returns (ret: int)
      requires Valid() && len <= |data| && |data| % TS_PACK_LEN == 0
      modifies this, tsData
      ensures Valid() && Value() == CheckInfo(old(Value()), data, len, 0)
      ensures ret == SLS_ERROR
    {
      hide ParsePacket;
      var i := 0;
      while i < len
        invariant Valid() && i % TS_PACK_LEN == 0
        invariant CheckInfo(Value(), data, len, i) == CheckInfo(old(Value()), data, len, 0)
        decreases len - i
      {
        if |sps| > 0 && |pps| > 0 && patLen > 0 {
          break;
        }
        var _ := ParseTsInfo(data[i..]);
        i := i + TS_PACK_LEN;
      }
      return SLS_ERROR;
    }
  }
}
