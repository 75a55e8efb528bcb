/** Copying into and out of a circular buffer, wrapping at most once. */
module RingBytes {
  import opened Bytes

  /** Bytes written from cell `w` on, wrapping at most once. */
  function Written(buf: seq<byte>, w: nat, bytes: seq<byte>): seq<byte>
    requires w < |buf| && |bytes| <= |buf|
  {
    seq(|buf|, i requires 0 <= i < |buf| =>
      if w <= i < w + |bytes| then bytes[i - w]
      else if i + |buf| < w + |bytes| then bytes[i + |buf| - w]
      else buf[i])
  }

  lemma WrittenNew(buf: seq<byte>, w: nat, bytes: seq<byte>, d: nat)
    requires w < |buf| && d < |bytes| <= |buf|
    ensures Written(buf, w, bytes)[Turn(w + d, |buf|)] == bytes[d]
  {
  }

  lemma WrittenOld(buf: seq<byte>, w: nat, bytes: seq<byte>, p: nat, d: nat)
    requires w < |buf| && p < |buf| && 1 <= d <= |buf| - |bytes|
    requires Turn(p + d, |buf|) == w
    ensures Written(buf, w, bytes)[p] == buf[p]
  {
  }

  /** `n` bytes read from cell `p` on, wrapping at most once. */
  function Seen(buf: seq<byte>, p: nat, n: nat): seq<byte>
    requires p < |buf| && n <= |buf|
  {
    seq(n, i requires 0 <= i < n =>
      if p + i < |buf| then buf[p + i] else buf[p + i - |buf|])
  }

  /** Copies `len` bytes to `at` on; `next` is the position behind them. */
  method StoreAround(buf: array<byte>, at: int, data: array<byte>, len: int) returns (next: int)
    requires 0 <= at < buf.Length && buf != data && 0 < len <= data.Length && len <= buf.Length
    modifies buf
    ensures buf[..] == Written(old(buf[..]), at, data[..len])
    ensures next == Turn(at + len, buf.Length)
  {
    if buf.Length - at >= len {
      CopyBytes(buf, at, data, 0, len);
      next := at + len;
    } else {
      var firstLen := buf.Length - at;
      CopyBytes(buf, at, data, 0, firstLen);
      CopyBytes(buf, 0, data, firstLen, len - firstLen);
      next := len - firstLen;
    }
    if next == buf.Length {
      next := 0;
    }
  }

  /** Copies `n` bytes from `at` on, in one piece or round the end of the buffer; `next` is the position behind
      them. */
  method CopyAround(dst: array<byte>, buf: array<byte>, at: int, n: int) returns (next: int)
    requires 0 <= at < buf.Length && dst != buf && 0 <= n <= Min(dst.Length, buf.Length)
    modifies dst
    ensures dst[..] == Seen(buf[..], at, n) + old(dst[n..])
    ensures next == Turn(at + n, buf.Length)
  {
    ghost var seen := Seen(buf[..], at, n);
    if buf.Length - at >= n {
      CopyBytes(dst, 0, buf, at, n);
      next := at + n;
    } else {
      var tail := buf.Length - at;
      CopyBytes(dst, 0, buf, at, tail);
      CopyBytes(dst, tail, buf, 0, n - tail);
      next := n - tail;
    }
    if next == buf.Length {
      next := 0;
    }
    next := if next > buf.Length then 0 else next;
    assert dst[..n] == seen;
    assert dst[..] == dst[..n] + dst[n..];
  }
}
