/** The overwriting broadcast ring of slscore/SLSRecycleArray.cpp.
    One writer appends to `published`, the whole byte stream of one publisher; the buffer keeps its last
    `dataSize` bytes. Every reader owns a cursor and is never waited for. */
module RecycleRing {
  import opened Bytes
  import opened RingBytes

  const DEFAULT_MAX_DATA_SIZE := 1024 * 1316

  // ----- what a cursor means

  /** The three fields of `SLSRecycleArrayID`. */
  datatype Cursor = Cursor(readPos: int, dataCount: int, first: bool)

  /** A reader against the unbounded stream: the next byte it is due, and how much had been published when it
      last looked. */
  datatype Reader = Fresh | At(pos: nat, seen: nat)

  ghost predicate Follows(c: Cursor, r: Reader, size: nat)
    requires size > 0
  {
    match r
    case Fresh => c.first
    case At(pos, seen) =>
      && !c.first
      && pos <= seen < pos + size
      && c.readPos == Mod(pos, size)
      && c.dataCount == Wrap32(seen)
  }

  /** How far a reader due byte `pos < total` is behind, as the two ring positions can tell: whole laps are
      invisible, and no distance at all reads as one full lap. */
  function Ready(total: nat, pos: nat, size: nat): nat
    requires size > 0 && pos < total
  {
    Mod(total - pos - 1, size) + 1
  }

  /** The number of bytes one call copies. */
  function CopyLen(ready: nat, size: int, aligned: int): int {
    var n := Min(ready, size);
    if aligned > 0 then RoundTo(n, aligned) else n
  }

  /** The outcome of one `get`: the reader after it, and the stream interval handed out. */
  datatype Fetched = Fetched(reader: Reader, from: nat, len: int)

  /** `get` on the unbounded stream, with the source's test for "nothing new": equal ring positions and equal
      32-bit counters. */
  function Fetch(total: nat, ringSize: nat, r: Reader, size: int, aligned: int): Fetched
    requires ringSize > 0
    requires r.At? ==> r.pos <= r.seen <= total
  {
    match r
    case Fresh => Fetched(At(total, total), total, 0)
    case At(pos, seen) =>
      if Mod(total - pos, ringSize) == 0 && (total - seen) % 0x1_0000_0000 == 0 then Fetched(r, pos, 0)
      else Advance(total, ringSize, pos, size, aligned)
  }

  /** A reader that some test tells from the writer is strictly behind it. */
  lemma NewDataMeansBehind(total: nat, ringSize: nat, r: Reader)
    requires ringSize > 0 && r.At? && r.pos <= r.seen <= total
    requires !(Mod(total - r.pos, ringSize) == 0 && (total - r.seen) % 0x1_0000_0000 == 0)
    ensures r.pos < total
  {
  }

  function Advance(total: nat, ringSize: nat, pos: nat, size: int, aligned: int): Fetched
    requires ringSize > 0 && pos < total
  {
    var ready := Ready(total, pos, ringSize);
    ReadyBounds(total, pos, ringSize);
    var from := total - ready;
    var n := CopyLen(ready, size, aligned);
    CopyLenBounds(ready, size, aligned);
    if n > 0 then Fetched(At(from + n, total), from, n)
    else Fetched(At(if ready == ringSize then total else from, total), from, n)
  }

  lemma {:induction false} ReadyBounds(total: nat, pos: nat, size: nat)
    requires size > 0 && pos < total
    ensures 1 <= Ready(total, pos, size) <= size
    ensures Ready(total, pos, size) <= total - pos
    ensures Mod(total - pos - Ready(total, pos, size), size) == 0
    ensures total - pos <= size ==> Ready(total, pos, size) == total - pos
    ensures Ready(total, pos, size) == size <==> Mod(total - pos, size) == 0
  {
    if total - pos > size {
      ReadyBounds(total - size, pos, size);
    }
  }

  lemma CopyLenBounds(ready: nat, size: int, aligned: int)
    ensures CopyLen(ready, size, aligned) <= ready
    ensures size >= 0 ==> 0 <= CopyLen(ready, size, aligned) <= size
    ensures size < 0 ==> CopyLen(ready, size, aligned) <= 0
    ensures aligned > 0 && size >= 0 ==> Mod(CopyLen(ready, size, aligned), aligned) == 0
    ensures 0 < aligned <= size && aligned <= ready ==> CopyLen(ready, size, aligned) >= aligned
  {
    if aligned > 0 {
      RoundToBounds(Min(ready, size), aligned);
    }
  }

  /** The two cursor comparisons of `get`, read on the unbounded stream. */
  lemma CursorTests(total: nat, pos: nat, seen: nat, size: nat)
    requires size > 0 && pos <= seen <= total
    ensures Mod(pos, size) == Mod(total, size) <==> Mod(total - pos, size) == 0
    ensures Wrap32(total) == Wrap32(seen) <==> (total - seen) % 0x1_0000_0000 == 0
  {
    hide Mod;
    ModEqualIffLaps(total, pos, size);
    WrapEqual(total, seen);
  }

  /** What the two branches of `get` compute from the ring positions is `Ready`. */
  lemma RingDistance(total: nat, pos: nat, size: nat)
    requires size > 0 && pos < total
    ensures
      var p, w := Mod(pos, size), Mod(total, size);
      Ready(total, pos, size) == if p < w then w - p else size - p + w
  {
    hide Mod, Ready;
    ReadyBounds(total, pos, size);
    var ready := Ready(total, pos, size);
    var from := total - ready;
    ModEqualIffLaps(from, pos, size);
    ModStep(from, ready, size);
    assert from + ready == total;
    assert from - pos == total - pos - ready;
  }

  /** Where the ring position ends up after `n` bytes have been taken, and when none could be. */
  lemma CursorMoves(total: nat, pos: nat, size: nat, n: nat)
    requires size > 0 && pos < total && n <= size
    ensures var from := total - Ready(total, pos, size);
      from >= pos && Mod(from + n, size) == Turn(Mod(pos, size) + n, size)
    ensures Ready(total, pos, size) == size ==> Mod(total, size) == Mod(pos, size)
  {
    hide Mod, Ready;
    ReadyBounds(total, pos, size);
    var from := total - Ready(total, pos, size);
    assert from - pos == total - pos - Ready(total, pos, size);
    ModEqualIffLaps(from, pos, size);
    ModEqualIffLaps(total, pos, size);
    ModStep(from, n, size);
  }

  // ----- what the buffer means

  /** The buffer holds the last |buf| bytes of the stream, byte k in cell k mod |buf|. */
  ghost predicate Holds(buf: seq<byte>, stream: seq<byte>)
    requires |buf| > 0
  {
    forall k {:trigger stream[k]} :: Max(0, |stream| - |buf|) <= k < |stream| ==> buf[Mod(k, |buf|)] == stream[k]
  }

  lemma WrittenHolds(buf: seq<byte>, stream: seq<byte>, bytes: seq<byte>)
    requires 0 < |bytes| <= |buf| && Holds(buf, stream)
    ensures Holds(Written(buf, Mod(|stream|, |buf|), bytes), stream + bytes)
  {
    var written, longer := Written(buf, Mod(|stream|, |buf|), bytes), stream + bytes;
    forall k {:trigger longer[k]} | Max(0, |longer| - |buf|) <= k < |longer|
      ensures written[Mod(k, |buf|)] == longer[k]
    {
      WrittenCell(buf, stream, bytes, k);
    }
  }

  lemma WrittenCell(buf: seq<byte>, stream: seq<byte>, bytes: seq<byte>, k: nat)
    requires 0 < |bytes| <= |buf| && Holds(buf, stream)
    requires |stream| + |bytes| - |buf| <= k < |stream| + |bytes|
    ensures Written(buf, Mod(|stream|, |buf|), bytes)[Mod(k, |buf|)] == (stream + bytes)[k]
  {
    hide Mod, Written;
    var n, w := |buf|, Mod(|stream|, |buf|);
    if k >= |stream| {
      ModStep(|stream|, k - |stream|, n);
      assert |stream| + (k - |stream|) == k;
      WrittenNew(buf, w, bytes, k - |stream|);
    } else {
      ModStep(k, |stream| - k, n);
      assert k + (|stream| - k) == |stream|;
      WrittenOld(buf, w, bytes, Mod(k, n), |stream| - k);
      assert buf[Mod(k, n)] == stream[k];
    }
  }

  lemma SeenIsSlice(buf: seq<byte>, stream: seq<byte>, from: nat, n: nat)
    requires |buf| > 0 && Holds(buf, stream)
    requires |stream| - |buf| <= from && from + n <= |stream|
    ensures Seen(buf, Mod(from, |buf|), n) == stream[from..from + n]
  {
    hide Mod;
    var seen := Seen(buf, Mod(from, |buf|), n);
    forall i | 0 <= i < n
      ensures seen[i] == stream[from + i]
    {
      CellHoldsByte(buf, stream, from, i);
    }
  }

  lemma CellHoldsByte(buf: seq<byte>, stream: seq<byte>, from: nat, i: nat)
    requires |buf| > 0 && Holds(buf, stream) && i < |buf|
    requires |stream| - |buf| <= from && from + i < |stream|
    ensures buf[Turn(Mod(from, |buf|) + i, |buf|)] == stream[from + i]
  {
    hide Mod;
    ModStep(from, i, |buf|);
    assert buf[Mod(from + i, |buf|)] == stream[from + i];
  }

  // ----- the classes

  /** `SLSRecycleArrayID`, kept by the caller of `get`. */
  class ReadId {
    var nReadPos: int
    var nDataCount: int
    var bFirst: bool

    constructor ()
      ensures Value() == Cursor(0, 0, true)
    {
      bFirst, nDataCount, nReadPos := true, 0, 0;
    }

    function Value(): Cursor
      reads this
    {
      Cursor(nReadPos, nDataCount, bFirst)
    }
  }

  /** The ring's fields against the stream it stands for. */
  ghost predicate RingState(buf: seq<byte>, writePos: int, dataCount: int, stream: seq<byte>) {
    && |buf| > 0
    && writePos == Mod(|stream|, |buf|)
    && dataCount == Wrap32(|stream|)
    && Holds(buf, stream)
  }

  lemma PutKeepsRing(buf: seq<byte>, writePos: int, dataCount: int, stream: seq<byte>, bytes: seq<byte>)
    requires RingState(buf, writePos, dataCount, stream) && 0 < |bytes| <= |buf|
    ensures RingState(Written(buf, writePos, bytes), Turn(writePos + |bytes|, |buf|),
                      Wrap32(dataCount + |bytes|), stream + bytes)
  {
    hide Mod;
    WrittenHolds(buf, stream, bytes);
    ModStep(|stream|, |bytes|, |buf|);
    WrapAccumulates(|stream|, |bytes|);
  }

  /** What one `get` owes its caller: the return value, the moved cursor, and in the first bytes of the
      caller's buffer exactly the fetched interval of the stream. */
  ghost predicate Delivers(stream: seq<byte>, ringSize: nat, r: Reader, size: int, aligned: int,
                           ret: int, c: Cursor, out: seq<byte>, was: seq<byte>)
    requires ringSize > 0 && (r.At? ==> r.pos <= r.seen <= |stream|)
  {
    var f := Fetch(|stream|, ringSize, r, size, aligned);
    var n := Max(0, f.len);
    && ret == f.len
    && Follows(c, f.reader, ringSize)
    && f.from + n <= |stream| && n <= |was|
    && out == stream[f.from..f.from + n] + was[n..]
  }

  lemma FirstGetDelivers(buf: seq<byte>, writePos: int, dataCount: int, stream: seq<byte>,
                         size: int, aligned: int, was: seq<byte>)
    requires RingState(buf, writePos, dataCount, stream)
    ensures Delivers(stream, |buf|, Fresh, size, aligned, SLS_OK, Cursor(writePos, dataCount, false), was, was)
  {
    assert was == stream[|stream|..|stream|] + was[0..];
  }

  lemma NothingNewDelivers(buf: seq<byte>, writePos: int, dataCount: int, stream: seq<byte>,
                           c: Cursor, r: Reader, size: int, aligned: int, was: seq<byte>)
    requires RingState(buf, writePos, dataCount, stream)
    requires Follows(c, r, |buf|) && r.At? && r.seen <= |stream|
    requires c.readPos == writePos && c.dataCount == dataCount
    ensures Delivers(stream, |buf|, r, size, aligned, SLS_OK, c, was, was)
  {
    hide Mod;
    CursorTests(|stream|, r.pos, r.seen, |buf|);
    assert was == stream[r.pos..r.pos] + was[0..];
  }

  lemma NewDataDelivers(buf: seq<byte>, writePos: int, dataCount: int, stream: seq<byte>,
                        c: Cursor, r: Reader, size: int, aligned: int, was: seq<byte>)
    requires RingState(buf, writePos, dataCount, stream)
    requires Follows(c, r, |buf|) && r.At? && r.seen <= |stream|
    requires !(c.readPos == writePos && c.dataCount == dataCount)
    requires size <= |was|
    ensures 0 <= c.readPos < |buf| && 0 <= writePos < |buf|
    ensures
      var ready := if c.readPos < writePos then writePos - c.readPos else |buf| - c.readPos + writePos;
      var len := CopyLen(ready, size, aligned);
      var n := Max(0, len);
      && n <= Min(|buf|, |was|)
      && Delivers(stream, |buf|, r, size, aligned, len, Cursor(Turn(c.readPos + n, |buf|), dataCount, false),
                  Seen(buf, c.readPos, n) + was[n..], was)
  {
    hide Mod;
    CursorTests(|stream|, r.pos, r.seen, |buf|);
    NewDataMeansBehind(|stream|, |buf|, r);
    AdvanceDelivers(buf, writePos, dataCount, stream, c, r, size, aligned);
    CopyLenBounds(Ready(|stream|, r.pos, |buf|), size, aligned);
  }

  /** The cursor after a `get` that passed the "nothing new" test, and what it copied. */
  lemma AdvanceDelivers(buf: seq<byte>, writePos: int, dataCount: int, stream: seq<byte>,
                        c: Cursor, r: Reader, size: int, aligned: int)
    requires RingState(buf, writePos, dataCount, stream)
    requires Follows(c, r, |buf|) && r.At? && r.pos < |stream| && r.seen <= |stream|
    ensures
      var f := Advance(|stream|, |buf|, r.pos, size, aligned);
      var ready := if c.readPos < writePos then writePos - c.readPos else |buf| - c.readPos + writePos;
      var n := Max(0, CopyLen(ready, size, aligned));
      && ready == Ready(|stream|, r.pos, |buf|)
      && f.len == CopyLen(ready, size, aligned)
      && n <= ready <= |buf|
      && f.from + n <= |stream|
      && Follows(Cursor(Turn(c.readPos + n, |buf|), dataCount, false), f.reader, |buf|)
      && Seen(buf, c.readPos, n) == stream[f.from..f.from + n]
  {
    hide Mod, Holds, Seen, Ready;
    ReadyBounds(|stream|, r.pos, |buf|);
    RingDistance(|stream|, r.pos, |buf|);
    var ready := Ready(|stream|, r.pos, |buf|);
    CopyLenBounds(ready, size, aligned);
    var n := Max(0, CopyLen(ready, size, aligned));
    CursorMoves(|stream|, r.pos, |buf|, n);
    CursorMoves(|stream|, r.pos, |buf|, 0);
    SeenIsSlice(buf, stream, |stream| - ready, n);
  }

  class RecycleArray {
    const arrayData: array<byte>
    const dataSize: int
    var writePos: int
    var dataCount: int
    ghost var published: seq<byte>

    ghost predicate Valid()
      reads this, arrayData
    {
      arrayData.Length == dataSize && RingState(arrayData[..], writePos, dataCount, published)
    }

    constructor (size: int := DEFAULT_MAX_DATA_SIZE)
      requires size > 0
      ensures Valid() && fresh(arrayData)
      ensures dataSize == size && published == []
    {
      dataSize := size;
      writePos, dataCount := 0, 0;
      published := [];
      arrayData := new byte[size];
    }

    method Put(data: array?<byte>, len: int) returns (ret: int)
      requires Valid()
      requires data != null ==> data != arrayData && len <= data.Length
      modifies this, arrayData
      ensures Valid()
      ensures ret == if data == null || len <= 0 || len > dataSize then SLS_ERROR else len
      ensures published == old(published) + if ret == SLS_ERROR then [] else data[..len]
      ensures ret == SLS_ERROR ==> arrayData[..] == old(arrayData[..])
    {
      hide Mod;
      if data == null || len <= 0 {
        return SLS_ERROR;
      }
      if len > dataSize {
        return SLS_ERROR;
      }
      PutKeepsRing(arrayData[..], writePos, dataCount, published, data[..len]);
      published := published + data[..len];
      writePos := StoreAround(arrayData, writePos, data, len);
      dataCount := Wrap32(dataCount + len);
      return len;
    }

    method Get(dst: array<byte>, size: int, readId: ReadId?, aligned: int, ghost r: Reader) returns (ret: int)
      requires Valid()
      requires dst != arrayData && size <= dst.Length
      requires readId != null ==> Follows(readId.Value(), r, dataSize) && (r.At? ==> r.seen <= |published|)
      modifies readId, dst
      ensures readId == null ==> ret == SLS_ERROR && dst[..] == old(dst[..])
      ensures readId != null ==>
        Delivers(published, dataSize, r, size, aligned, ret, readId.Value(), dst[..], old(dst[..]))
    {
      hide Delivers, RingState, CopyLen, Mod;
      if readId == null {
        return SLS_ERROR;
      }
      if readId.bFirst {
        FirstGetDelivers(arrayData[..], writePos, dataCount, published, size, aligned, dst[..]);
        readId.nReadPos := writePos;
        readId.nDataCount := dataCount;
        readId.bFirst := false;
        return SLS_OK;
      }
      if readId.nReadPos == writePos && dataCount == readId.nDataCount {
        NothingNewDelivers(arrayData[..], writePos, dataCount, published, readId.Value(), r, size, aligned, dst[..]);
        return SLS_OK;
      }
      NewDataDelivers(arrayData[..], writePos, dataCount, published, readId.Value(), r, size, aligned, dst[..]);
      ret := Take(dst, size, readId, aligned);
    }

    /** The part of `get` after the test for new data. */
    method Take(dst: array<byte>, size: int, readId: ReadId, aligned: int) returns (copyLen: int)
      requires arrayData.Length == dataSize && 0 <= readId.nReadPos < dataSize && 0 <= writePos < dataSize
      requires dst != arrayData && size <= dst.Length && !readId.bFirst
      modifies readId, dst
      ensures
        var p := old(readId.nReadPos);
        var ready := if p < writePos then writePos - p else dataSize - p + writePos;
        && copyLen == CopyLen(ready, size, aligned)
        && Max(0, copyLen) <= Min(dataSize, dst.Length)
        && dst[..] == Seen(arrayData[..], p, Max(0, copyLen)) + old(dst[Max(0, copyLen)..])
        && readId.Value() == Cursor(Turn(p + Max(0, copyLen), dataSize), dataCount, false)
    {
      var readyLen := 0;
      if readId.nReadPos < writePos {
        readyLen := writePos - readId.nReadPos;
      } else {
        readyLen := dataSize - readId.nReadPos + writePos;
      }
      copyLen := Min(readyLen, size);
      if aligned > 0 {
        TruncDivTimes(copyLen, aligned);
        copyLen := TruncDiv(copyLen, aligned) * aligned;
      }
      CopyLenBounds(readyLen, size, aligned);
      if copyLen > 0 {
        readId.nReadPos := CopyAround(dst, arrayData, readId.nReadPos, copyLen);
      }
      readId.nDataCount := dataCount;
    }

  }
}
