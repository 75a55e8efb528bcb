/** The growable FIFO ring of slscore/SLSArray.cpp. */
module ByteQueueModel {
  import opened Bytes
  import opened RingBytes

  const GROWTH := 4096

  /** The ring positions agree with the count: this is a queue of `count` bytes from `read` on. */
  ghost predicate IsQueue(buf: seq<byte>, read: int, write: int, count: int) {
    && 0 <= read < |buf| && 0 <= count <= |buf|
    && write == Turn(read + count, |buf|)
  }

  lemma PutAppends(buf: seq<byte>, read: int, write: int, count: int, bytes: seq<byte>)
    requires IsQueue(buf, read, write, count) && |bytes| <= |buf| - count
    ensures
      var buf' := Written(buf, write, bytes);
      && IsQueue(buf', read, Turn(write + |bytes|, |buf|), count + |bytes|)
      && Seen(buf', read, count + |bytes|) == Seen(buf, read, count) + bytes
  {
  }

  lemma GetTakesFront(buf: seq<byte>, read: int, write: int, count: int, n: nat)
    requires IsQueue(buf, read, write, count) && n <= count
    ensures IsQueue(buf, Turn(read + n, |buf|), write, count - n)
    ensures Seen(buf, read, count) == Seen(buf, read, n) + Seen(buf, Turn(read + n, |buf|), count - n)
  {
  }

  lemma NothingSeen(buf: seq<byte>, read: nat, out: seq<byte>)
    requires read < |buf|
    ensures Seen(buf, read, 0) == [] && out == Seen(buf, read, 0) + out[0..]
  {
  }

  /** How many bytes `get_inline` takes to be there. */
  function ReadyBytes(size: int, read: int, write: int): int {
    if read < write then write - read else size - read + write
  }

  lemma QueueReady(buf: seq<byte>, read: int, write: int, count: int)
    requires IsQueue(buf, read, write, count) && count > 0
    ensures ReadyBytes(|buf|, read, write) == count
  {
  }

  /** A buffer of `count` bytes with both positions at 0 is a queue only when it is full. */
  lemma FullOrNot(buf: seq<byte>, count: int, len: int)
    requires 0 <= count && 0 < len && count + len <= |buf|
    ensures IsQueue(buf, 0, 0, count + len) <==> count + len == |buf|
    ensures count + len == |buf| ==> Seen(buf, 0, count + len) == buf[..count + len]
  {
  }

  lemma Behind(before: seq<byte>, after: seq<byte>, front: seq<byte>, bytes: seq<byte>)
    requires |front| + |bytes| <= |before| == |after| && before[..|front|] == front
    requires forall i :: 0 <= i < |after| ==>
      after[i] == if |front| <= i < |front| + |bytes| then bytes[i - |front|] else before[i]
    ensures after[..|front| + |bytes|] == front + bytes
  {
    forall i | 0 <= i < |front|
      ensures after[i] == front[i]
    {
      assert before[..|front|][i] == front[i];
    }
  }

  class ByteQueue {
    var arrayData: array<byte>
    var dataSize: int
    var writePos: int
    var readPos: int
    var dataCount: int

    /** The fields are in range; nothing is said about what they mean together. */
    ghost predicate InRange()
      reads this
    {
      arrayData.Length == dataSize > 0 && 0 <= writePos < dataSize && 0 <= readPos < dataSize
    }

    ghost predicate Valid()
      reads this, arrayData
    {
      arrayData.Length == dataSize && IsQueue(arrayData[..], readPos, writePos, dataCount)
    }

    ghost function Contents(): seq<byte>
      reads this, arrayData
      requires Valid()
    {
      Seen(arrayData[..], readPos, dataCount)
    }

    constructor ()
      ensures Valid() && Contents() == [] && fresh(arrayData) && dataSize == 4096
    {
      dataSize := 4096;
      writePos, readPos, dataCount := 0, 0, 0;
      arrayData := new byte[4096];
    }

    method Count() returns (n: int)
      ensures n == dataCount
    {
      return dataCount;
    }

    method SetSize(n: int)
      requires n > 0
      modifies this
      ensures Valid() && Contents() == [] && fresh(arrayData) && dataSize == n
    {
      dataSize := n;
      writePos, readPos, dataCount := 0, 0, 0;
      arrayData := new byte[n];
    }

    method Clear()
      requires InRange()
      modifies this
      ensures Valid() && Contents() == [] && arrayData == old(arrayData) && dataSize == old(dataSize)
    {
      writePos, readPos, dataCount := 0, 0, 0;
    }

    /** Without growth this is `enqueue`. Growth copies the queue and the new bytes to the front of a larger buffer
        but leaves the write position at 0: the result is a queue only if the larger buffer happens to be full. */
    method Put(data: array?<byte>, len: int) returns (ret: int)
      requires Valid()
      requires data != null ==> data != arrayData && len <= data.Length
      modifies this, arrayData
      ensures if ret == SLS_ERROR || len <= old(dataSize - dataCount) then arrayData == old(arrayData)
              else fresh(arrayData)
      ensures ret == if data == null || len <= 0 then SLS_ERROR else len
      ensures ret == SLS_ERROR ==> Valid() && Contents() == old(Contents()) && dataSize == old(dataSize)
      ensures ret != SLS_ERROR && len <= old(dataSize - dataCount) ==>
        Valid() && Contents() == old(Contents()) + data[..len] && dataSize == old(dataSize)
      ensures ret != SLS_ERROR && len > old(dataSize - dataCount) ==>
        && InRange() && readPos == writePos == 0 && dataSize == old(dataSize) + Max(GROWTH, len)
        && dataCount == old(dataCount) + len <= dataSize
        && arrayData[..dataCount] == old(Contents()) + data[..len]
        && (Valid() <==> old(dataCount == dataSize) && len >= GROWTH)
        && (Valid() ==> Contents() == old(Contents()) + data[..len])
    {
      if data == null || len <= 0 {
        return SLS_ERROR;
      }
      var remainder := dataSize - dataCount;
      if len > remainder {
        Grow(data, len);
        return len;
      }
      PutAppends(arrayData[..], readPos, writePos, dataCount, data[..len]);
      writePos := StoreAround(arrayData, writePos, data, len);
      dataCount := dataCount + len;
      return len;
    }

    /** The part of `put` that replaces the buffer. */
    method Grow(data: array<byte>, len: int)
      requires Valid() && data != arrayData && 0 < len <= data.Length && len > dataSize - dataCount
      modifies this
      ensures InRange() && readPos == writePos == 0 && dataSize == old(dataSize) + Max(GROWTH, len)
      ensures dataCount == old(dataCount) + len <= dataSize && fresh(arrayData)
      ensures arrayData[..dataCount] == old(Contents()) + data[..len]
      ensures Valid() <==> old(dataCount == dataSize) && len >= GROWTH
      ensures Valid() ==> Contents() == old(Contents()) + data[..len]
    {
      hide Seen;
      var extLen := dataSize + if GROWTH >= len then GROWTH else len;
      var extData := new byte[extLen];
      var re := MoveTo(extData, data, len);
      FullOrNot(extData[..], re, len);
      arrayData := extData;
      dataSize := extLen;
      writePos := 0;
      readPos := 0;
      dataCount := re + len;
    }

    /** Empties the queue into `extData`, and the new bytes behind it. */
    method MoveTo(extData: array<byte>, data: array<byte>, len: int) returns (re: int)
      requires Valid() && data != extData && extData != arrayData
      requires 0 < len <= data.Length && dataCount + len <= extData.Length
      modifies this`readPos, this`dataCount, extData
      ensures re == old(dataCount) && extData[..re + len] == old(Contents()) + data[..len]
    {
      ghost var queued := Contents();
      re := GetInline(extData, dataCount);
      ghost var front := extData[..];
      CopyBytes(extData, re, data, 0, len);
      Behind(front, extData[..], queued, data[..len]);
    }

    /** On a queue this is `dequeue`; on any other state it copies what the ring positions say is there. */
    method GetInline(dst: array<byte>, size: int) returns (ret: int)
      requires InRange() && dst != arrayData && 0 <= size <= dst.Length
      modifies this`readPos, this`dataCount, dst
      ensures ret == if old(dataCount) == 0 then 0 else Min(ReadyBytes(dataSize, old(readPos), writePos), size)
      ensures 0 <= ret <= Min(size, dataSize)
      ensures dst[..] == Seen(arrayData[..], old(readPos), ret) + old(dst[ret..])
      ensures readPos == Turn(old(readPos) + ret, dataSize) && dataCount == old(dataCount) - ret
      ensures old(Valid()) ==>
        && Valid() && ret == Min(size, |old(Contents())|)
        && dst[..] == old(Contents())[..ret] + old(dst[ret..])
        && Contents() == old(Contents())[ret..]
    {
      hide Seen;
      if dataCount == 0 {
        NothingSeen(arrayData[..], readPos, dst[..]);
        return SLS_OK;
      }
      ghost var was := arrayData[..];
      var readyLen := if readPos < writePos then writePos - readPos else dataSize - readPos + writePos;
      ret := if readyLen <= size then readyLen else size;
      if old(Valid()) {
        QueueReady(was, readPos, writePos, dataCount);
        GetTakesFront(was, readPos, writePos, dataCount, ret);
      }
      readPos := CopyAround(dst, arrayData, readPos, ret);
      dataCount := dataCount - ret;
    }

  }

  // ----- growth at work

  /** A queue of one byte that is given 4096 more is no queue afterwards. */
  method GrowthHappens() returns (q: ByteQueue)
    ensures !q.Valid() && q.InRange() && q.dataCount == 4097
  {
    q := new ByteQueue();
    var one, many := new byte[1], new byte[GROWTH];
    var _ := q.Put(one, 1);
    var _ := q.Put(many, GROWTH);
  }

  /** The next bytes put into a queue that has grown to `count` bytes, with both positions at 0, take the place of the
      oldest: they come out first, and what they replaced is lost. */
  lemma GrownQueueIsOverwritten(buf: seq<byte>, count: nat, bytes: seq<byte>)
    requires 0 < |bytes| <= count && count + |bytes| <= |buf|
    ensures Seen(Written(buf, 0, bytes), 0, count) == bytes + buf[|bytes|..count]
  {
  }
}
