/** `CTSFileTimeReader`: the loops that write an RTS file through a byte queue, and the reader that plays it. */
module TsFileTimeReader {
  import opened Bytes
  import opened TsParser
  import opened TsInfoModel
  import opened ByteQueueModel
  import opened RtsFile

  class RtsWriter {
    const arrayData: ByteQueue
    const tsPack: array<byte>
    const rtsData: array<byte>
    var dts: int
    var udpDuration: int
    var records: seq<Record>

    ghost predicate Valid()
      reads this, arrayData, arrayData.arrayData
    {
      && tsPack.Length == TS_PACK_LEN && rtsData.Length == TS_UDP_LEN && tsPack != rtsData
      && tsPack != arrayData.arrayData && rtsData != arrayData.arrayData
      && arrayData.Valid() && arrayData.dataSize == WRITER_QUEUE_SIZE
    }

    ghost function State(ti: TsState): Writer
      reads this, arrayData, arrayData.arrayData
      requires Valid()
    {
      Writer(arrayData.Contents(), dts, udpDuration, ti, records)
    }

    /** A fresh reader object, its queue sized for writing. */
    constructor ()
      ensures Valid() && fresh(arrayData) && fresh(arrayData.arrayData) && fresh(tsPack) && fresh(rtsData)
      ensures forall ti :: State(ti) == Start(ti)
    {
      arrayData := new ByteQueue();
      tsPack := new byte[TS_PACK_LEN];
      rtsData := new byte[TS_UDP_LEN];
      dts, udpDuration, records := INVALID_DTS_PTS, 0, [];
      new;
      arrayData.SetSize(WRITER_QUEUE_SIZE);
    }

    /** `m_array_data.put(ts_pack, TS_PACK_LEN)` for the packet just read. A packet that makes the ring grow leaves the
        right bytes in a ring that is no queue any more. */
    method Queue(packet: seq<byte>)
      requires Valid() && |packet| >= TS_PACK_LEN
      modifies arrayData, arrayData.arrayData, tsPack
      ensures |old(arrayData.Contents())| + TS_PACK_LEN <= WRITER_QUEUE_SIZE ==>
        && Valid() && arrayData.arrayData == old(arrayData.arrayData)
        && arrayData.Contents() == old(arrayData.Contents()) + packet[..TS_PACK_LEN]
      ensures |old(arrayData.Contents())| + TS_PACK_LEN > WRITER_QUEUE_SIZE ==>
        && !arrayData.Valid() && arrayData.InRange() && 0 <= arrayData.dataCount <= arrayData.dataSize
        && arrayData.arrayData[..arrayData.dataCount] == old(arrayData.Contents()) + packet[..TS_PACK_LEN]
    {
      for i := 0 to TS_PACK_LEN
        invariant tsPack[..i] == packet[..i]
        modifies tsPack
      {
        tsPack[i] := packet[i];
      }
      assert tsPack[..TS_PACK_LEN] == packet[..TS_PACK_LEN];
      var _ := arrayData.Put(tsPack, TS_PACK_LEN);
    }

    /** Writes `n` payloads from the front of the queue, `duration` apart from `rts` on. */
    method WriteBatch(n: nat, from: int, duration: int) returns (rts: int)
      requires Valid() && n * TS_UDP_LEN <= |arrayData.Contents()|
      modifies this`records, arrayData, rtsData
      ensures Valid() && arrayData.arrayData == old(arrayData.arrayData)
      ensures records == old(records) + Batch(old(arrayData.Contents()), n, from, duration)
      ensures arrayData.Contents() == old(arrayData.Contents())[n * TS_UDP_LEN..]
      ensures rts == After(from, n, duration)
      ensures n > 0 ==> rtsData[..] == old(arrayData.Contents())[(n - 1) * TS_UDP_LEN..n * TS_UDP_LEN]
    {
      rts := from;
      ghost var queue, written := arrayData.Contents(), records;
      var i := 0;
      while i < n
        invariant 0 <= i <= n && Valid() && arrayData.arrayData == old(arrayData.arrayData)
        invariant arrayData.Contents() == queue[i * TS_UDP_LEN..]
        invariant records + Batch(arrayData.Contents(), n - i, rts, duration)
               == written + Batch(queue, n, from, duration)
        invariant After(rts, n - i, duration) == After(from, n, duration)
        invariant i > 0 ==> rtsData[..] == queue[(i - 1) * TS_UDP_LEN..i * TS_UDP_LEN]
      {
        ghost var rest := arrayData.Contents();
        var _ := arrayData.GetInline(rtsData, TS_UDP_LEN);
        assert rtsData[..] == rest[..TS_UDP_LEN];
        records := records + [Record(rts, rtsData[..])];
        rts := rts + duration;
        i := i + 1;
      }
    }

    /** The part of `generate_rts_file` between two time stamps. */
    method FlushUpTo(next: int, ghost ti: TsState)
      requires Valid() && SaneWriter(State(ti))
      modifies this, arrayData, rtsData
      ensures Valid() && arrayData.arrayData == old(arrayData.arrayData)
      ensures State(ti) == Flush(old(State(ti)), next)
    {
      var tsCount := arrayData.Count();
      var udpCount := tsCount / TS_UDP_LEN;
      if udpCount > 0 {
        udpDuration := TruncDiv(next - dts, udpCount);
        var _ := WriteBatch(udpCount, dts, udpDuration);
        dts := next;
      }
    }

    /** One turn of the loop of `generate_rts_file`. */
    method HandlePacket(ti: TsInfo, packet: seq<byte>)
      requires Valid() && ti.Valid() && |packet| >= TS_PACK_LEN
      requires ti.tsData != tsPack && ti.tsData != rtsData && ti.tsData != arrayData.arrayData
      requires SaneWriter(State(ti.Value()))
      modifies this, arrayData, arrayData.arrayData, tsPack, rtsData, ti, ti.tsData
      ensures ti.Valid()
      ensures
        var next := WritePacket(old(State(ti.Value())), packet);
        if |next.queue| <= WRITER_QUEUE_SIZE then
          Valid() && arrayData.arrayData == old(arrayData.arrayData) && State(ti.Value()) == next
        else
          && !arrayData.Valid() && arrayData.InRange() && 0 <= arrayData.dataCount <= arrayData.dataSize
          && arrayData.arrayData[..arrayData.dataCount] == next.queue
          && (dts, udpDuration, ti.Value(), records) == (next.dts, next.duration, next.ti, next.records)
    {
      hide ParsePacket, Flush;
      ghost var w := State(ti.Value());
      var _ := ti.ParseTsInfo(packet);
      if ti.dts == INVALID_DTS_PTS {
        Queue(packet);
        return;
      }
      if dts == INVALID_DTS_PTS {
        dts := ti.dts;
      } else {
        FlushUpTo(ti.dts, w.ti);
      }
      ti.dts := INVALID_DTS_PTS;
      ti.pts := INVALID_DTS_PTS;
      Queue(packet);
    }

    /** The part of `generate_rts_file` after the last packet. */
    method FinishFile(ghost ti: TsState)
      requires Valid() && SaneWriter(State(ti))
      modifies this, arrayData, rtsData
      ensures records == old(records) + Finish(old(State(ti)))
    {
      var tsCount := arrayData.Count();
      var udpCount := tsCount / TS_UDP_LEN;
      if udpCount > 0 {
        var rts := WriteBatch(udpCount, dts, udpDuration);
        WriteRemainder(rts);
      }
    }

    /** The last payload, if anything is left for it. */
    method WriteRemainder(rts: int)
      requires Valid() && |arrayData.Contents()| < TS_UDP_LEN && |arrayData.Contents()| % TS_PACK_LEN == 0
      modifies this`records, arrayData, rtsData
      ensures
        var rest := old(arrayData.Contents());
        records == old(records) + if rest == [] then [] else [Record(rts, Padded(rest, old(rtsData[..])))]
    {
      hide Padded;
      ghost var rest, before := arrayData.Contents(), rtsData[..];
      var n := arrayData.GetInline(rtsData, TS_UDP_LEN);
      assert rtsData[..] == rest + before[|rest|..];
      if n > 0 {
        assert rtsData[..n] == rest;
        PadRemainder(n);
        PaddingIgnoresFront(rest, before);
        records := records + [Record(rts, rtsData[..])];
      }
    }

    lemma PaddingIgnoresFront(rest: seq<byte>, before: seq<byte>)
      requires |rest| <= |before| == TS_UDP_LEN
      ensures Padded(rest, rest + before[|rest|..]) == Padded(rest, before)
    {
    }

    /** Null packet headers over what the buffer holds behind its first `n` bytes. */
    method PadRemainder(n: nat)
      requires rtsData.Length == TS_UDP_LEN && n < TS_UDP_LEN && n % TS_PACK_LEN == 0
      modifies rtsData
      ensures rtsData[..] == Padded(old(rtsData[..n]), old(rtsData[..]))
    {
      hide Padded;
      ghost var rest, before := rtsData[..n], rtsData[..];
      PaddedFront(rest, before);
      var i := n;
      while i < TS_UDP_LEN
        invariant n <= i <= TS_UDP_LEN && i % TS_PACK_LEN == 0
        invariant rtsData[..] == Padded(rest, before)[..i] + before[i..]
      {
        HeaderFits(n, i - n);
        NullHeader(i);
        PaddedPacket(rest, before, i);
        i := i + TS_PACK_LEN;
      }
    }

    method NullHeader(i: nat)
      requires i + 3 <= rtsData.Length
      modifies rtsData
      ensures rtsData[..] == old(rtsData[..i]) + [0x47, 0x1F, 0xFF] + old(rtsData[i + 3..])
    {
      rtsData[i] := 0x47;
      rtsData[i + 1] := 0x1F;
      rtsData[i + 2] := 0xFF;
    }

    lemma PaddedFront(rest: seq<byte>, before: seq<byte>)
      requires |rest| <= |before| == TS_UDP_LEN && rest == before[..|rest|]
      ensures |Padded(rest, before)| == TS_UDP_LEN && Padded(rest, before)[..|rest|] == rest
    {
    }

    /** One packet of the padding: three header bytes, then what was there. */
    lemma PaddedPacket(rest: seq<byte>, before: seq<byte>, i: nat)
      requires |rest| <= i && i + TS_PACK_LEN <= |before| == TS_UDP_LEN
      requires |rest| % TS_PACK_LEN == 0 && i % TS_PACK_LEN == 0
      ensures |Padded(rest, before)| == TS_UDP_LEN
      ensures
        var goal := Padded(rest, before);
        goal[..i] + [0x47, 0x1F, 0xFF] + (goal[..i] + before[i..])[i + 3..]
        == goal[..i + TS_PACK_LEN] + before[i + TS_PACK_LEN..]
    {
      var goal := Padded(rest, before);
      var now := goal[..i] + [0x47, 0x1F, 0xFF] + (goal[..i] + before[i..])[i + 3..];
      forall j | i <= j < i + TS_PACK_LEN
        ensures goal[j] == now[j]
      {
        OffsetInPacket(|rest|, i, j);
      }
      assert now[i + TS_PACK_LEN..] == before[i + TS_PACK_LEN..];
      assert now[..i + TS_PACK_LEN] == goal[..i + TS_PACK_LEN];
      assert now == now[..i + TS_PACK_LEN] + now[i + TS_PACK_LEN..];
    }

    lemma OffsetInPacket(n: nat, i: nat, j: nat)
      requires n <= i <= j < i + TS_PACK_LEN && n % TS_PACK_LEN == 0 && i % TS_PACK_LEN == 0
      ensures (j - n) % TS_PACK_LEN == j - i
    {
    }

    /** `generate_rts_file` on the whole packets of the input. */
    method GenerateRtsFile(packets: seq<seq<byte>>, ti: TsInfo)
      requires Valid() && ti.Valid() && State(ti.Value()) == Start(ti.Value()) && SaneWriter(State(ti.Value()))
      requires ti.tsData != tsPack && ti.tsData != rtsData && ti.tsData != arrayData.arrayData
      requires (forall p :: p in packets ==> |p| >= TS_PACK_LEN) && NeverGrows(ti.Value(), packets)
      modifies this, arrayData, arrayData.arrayData, tsPack, rtsData, ti, ti.tsData
      ensures records == Generate(old(ti.Value()), packets)
    {
      hide WritePacket, Finish;
      ghost var ti0 := ti.Value();
      var i := 0;
      while i < |packets|
        invariant 0 <= i <= |packets|
        invariant Valid() && ti.Valid() && arrayData.arrayData == old(arrayData.arrayData)
        invariant State(ti.Value()) == WriteAll(Start(ti0), packets[..i])
      {
        assert packets[..i + 1][..i] == packets[..i];
        assert packets[i] in packets;
        HandlePacket(ti, packets[i]);
        i := i + 1;
      }
      assert packets[..i] == packets;
      FinishFile(ti.Value());
    }
  }

  class RtsReader {
    const file: seq<byte>
    var filePos: int
    const arrayData: ByteQueue
    const readBuf: array<byte>
    const stamp: array<byte>

    ghost predicate Valid()
      reads this, arrayData, arrayData.arrayData
    {
      && 0 <= filePos <= |file| && |file| % RTS_PACK_LEN == 0 && filePos % RTS_PACK_LEN == 0
      && readBuf.Length == RTS_BUF_SIZE && stamp.Length == 8 && readBuf != stamp
      && readBuf != arrayData.arrayData && stamp != arrayData.arrayData
      && arrayData.Valid() && arrayData.dataSize == RTS_BUF_SIZE && arrayData.dataCount % RTS_PACK_LEN == 0
    }

    /** What has not been handed out yet: the buffered part, then the rest of the file. */
    ghost function Unread(): seq<byte>
      reads this, arrayData, arrayData.arrayData
      requires Valid()
    {
      arrayData.Contents() + file[filePos..]
    }

    constructor (file: seq<byte>)
      requires |file| % RTS_PACK_LEN == 0
      ensures Valid() && Unread() == file && this.file == file
      ensures fresh(arrayData) && fresh(arrayData.arrayData) && fresh(readBuf) && fresh(stamp)
    {
      this.file := file;
      filePos := 0;
      arrayData := new ByteQueue();
      readBuf := new byte[RTS_BUF_SIZE];
      stamp := new byte[8];
      new;
      arrayData.SetSize(RTS_BUF_SIZE);
    }

    /** `::read` on a regular file: full except at the end. */
    method Read() returns (n: int)
      requires Valid()
      modifies this`filePos, readBuf
      ensures n == Min(RTS_BUF_SIZE, |file| - old(filePos)) && filePos == old(filePos) + n
      ensures readBuf[..n] == file[old(filePos)..filePos]
    {
      n := Min(RTS_BUF_SIZE, |file| - filePos);
      var from := filePos;
      filePos := filePos + n;
      for i := 0 to n
        invariant readBuf[..i] == file[from..from + i]
        modifies readBuf
      {
        readBuf[i] := file[from + i];
      }
    }

    method Refill() returns (more: bool)
      requires Valid() && arrayData.Contents() == []
      modifies this`filePos, readBuf, arrayData, arrayData.arrayData
      ensures Valid() && arrayData.arrayData == old(arrayData.arrayData) && Unread() == old(Unread())
      ensures more == (Unread() != []) && (more ==> arrayData.Contents() != [])
    {
      var n := Read();
      more := n > 0;
      if n > 0 {
        ghost var pos := filePos - n;
        var _ := arrayData.Put(readBuf, n);
        assert file[pos..] == file[pos..filePos] + file[filePos..];
      }
    }

    /** `get` in non-loop mode, asked for one payload: the record at the front of the unread part, or the end of the
        file. */
    method Get(dst: array<byte>) returns (ret: int, tmMs: int)
      requires Valid() && dst.Length == TS_UDP_LEN
      requires dst != arrayData.arrayData && dst != readBuf && dst != stamp
      modifies this, arrayData, arrayData.arrayData, readBuf, stamp, dst
      ensures Valid() && arrayData.arrayData == old(arrayData.arrayData)
      ensures ret == if |old(Unread())| == 0 then SLS_ERROR else SLS_OK
      ensures ret == SLS_ERROR ==> Unread() == []
      ensures ret == SLS_OK ==>
        && |old(Unread())| >= RTS_PACK_LEN && Unread() == old(Unread())[RTS_PACK_LEN..]
        && Played(tmMs, dst[..]) == Play(FrontRecord(old(Unread())))
    {
      tmMs := 0;
      var count := arrayData.Count();
      if count == 0 {
        var more := Refill();
        if !more {
          return SLS_ERROR, 0;
        }
      }
      tmMs := PopRecord(dst);
      return SLS_OK, tmMs;
    }

    /** Takes one record off the buffered part. */
    method PopRecord(dst: array<byte>) returns (tmMs: int)
      requires Valid() && dst.Length == TS_UDP_LEN && arrayData.Contents() != []
      requires dst != arrayData.arrayData && dst != readBuf && dst != stamp
      modifies arrayData, stamp, dst
      ensures Valid() && arrayData.arrayData == old(arrayData.arrayData)
      ensures |old(Unread())| >= RTS_PACK_LEN && Unread() == old(Unread())[RTS_PACK_LEN..]
      ensures Played(tmMs, dst[..]) == Play(FrontRecord(old(Unread())))
    {
      hide Decode64;
      ghost var queue, later := arrayData.Contents(), file[filePos..];
      assert |queue| >= RTS_PACK_LEN;
      var n := arrayData.GetInline(stamp, 8);
      assert stamp[..] == queue[..8];
      tmMs := TruncDiv(Decode64(stamp[..]), 90);
      n := arrayData.GetInline(dst, TS_UDP_LEN);
      QueuedRecord(queue, later, stamp[..], dst[..], arrayData.Contents());
    }

    lemma QueuedRecord(queue: seq<byte>, later: seq<byte>, stamp: seq<byte>, payload: seq<byte>, left: seq<byte>)
      requires |queue| >= RTS_PACK_LEN && stamp == queue[..8]
      requires payload == queue[8..][..TS_UDP_LEN] && left == queue[8..][TS_UDP_LEN..]
      ensures FrontRecord(queue + later) == Record(Decode64(stamp), payload)
      ensures left + later == (queue + later)[RTS_PACK_LEN..]
    {
      assert (queue + later)[..8] == stamp;
      assert (queue + later)[8..RTS_PACK_LEN] == payload;
    }

    /** A client that reads to the end of the file. */
    method PlayToEnd() returns (played: seq<Played>)
      requires Valid()
      modifies this, arrayData, arrayData.arrayData, readBuf, stamp
      ensures played == PlayAll(old(Unread()))
    {
      hide Play, FrontRecord, ByteQueue.Valid, ByteQueue.InRange;
      played := [];
      var dst := new byte[TS_UDP_LEN];
      while true
        invariant Valid() && arrayData.arrayData == old(arrayData.arrayData)
        invariant played + PlayAll(Unread()) == PlayAll(old(Unread()))
        decreases |Unread()|
      {
        var ret, tmMs := Get(dst);
        if ret != SLS_OK {
          break;
        }
        played := played + [Played(tmMs, dst[..])];
      }
    }
  }
}
