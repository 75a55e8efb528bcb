/** Octets, status codes, C integer arithmetic and `memcpy`: what every other module builds on. */
module Bytes {

  type byte = x: int | 0 <= x < 256

  const SLS_OK := 0
  const SLS_ERROR := -0x100_0000

  const TS_PACK_LEN := 188
  const TS_UDP_LEN := 1316

  /** Division of C integers: the quotient is truncated toward zero. */
  function TruncDiv(a: int, b: int): int
    requires b > 0
  {
    if a >= 0 then a / b else -(-a / b)
  }

  /** The remainder x % n, by repeated subtraction (see ModIsRemainder). */
  function Mod(x: nat, n: nat): (r: nat)
    requires n > 0
    ensures r < n
  {
    if x < n then x else Mod(x - n, n)
  }

  /** What `n / a * a` comes to in C: `n` rounded toward zero to a multiple of `a`. */
  function RoundTo(n: int, a: nat): int
    requires a > 0
  {
    if n >= 0 then n - Mod(n, a) else n + Mod(-n, a)
  }

  /** A ring position brought back into the ring once it has moved past its end. */
  function Turn(pos: int, size: int): int {
    if pos >= size then pos - size else pos
  }

  /** The value an `int` holds after an update whose exact result is `n`. */
  function Wrap32(n: int): int {
    (n + 0x8000_0000) % 0x1_0000_0000 - 0x8000_0000
  }

  function Min(a: int, b: int): int {
    if a <= b then a else b
  }

  function Max(a: int, b: int): int {
    if a >= b then a else b
  }

  /** `memcpy(dst + to, src + from, n)` between two different buffers. */
  method CopyBytes(dst: array<byte>, to: nat, src: array<byte>, from: nat, n: nat)
    requires dst != src
    requires to + n <= dst.Length && from + n <= src.Length
    modifies dst
    ensures forall i {:trigger dst[i]} :: 0 <= i < dst.Length ==>
      dst[i] == if to <= i < to + n then src[from + i - to] else old(dst[i])
  {
    for k := 0 to n
      invariant forall i {:trigger dst[i]} :: 0 <= i < dst.Length ==>
        dst[i] == if to <= i < to + k then src[from + i - to] else old(dst[i])
    {
      dst[to + k] := src[from + k];
    }
  }

  // ----- residues

  lemma {:induction false} ModStep(x: nat, d: nat, n: nat)
    requires n > 0 && d <= n
    ensures Mod(x + d, n) == Turn(Mod(x, n) + d, n)
  {
    if x >= n {
      ModStep(x - n, d, n);
    }
  }

  /** Equal residues mean that the distance is whole laps, and the other way round. */
  lemma {:induction false} ModEqualIffLaps(a: nat, b: nat, n: nat)
    requires n > 0 && b <= a
    ensures Mod(a, n) == Mod(b, n) <==> Mod(a - b, n) == 0
  {
    if a - b >= n {
      ModEqualIffLaps(a - n, b, n);
    } else {
      ModStep(b, a - b, n);
    }
  }

  lemma {:induction false} LapsAdd(a: nat, b: nat, n: nat)
    requires n > 0 && Mod(a, n) == 0
    ensures Mod(a + b, n) == Mod(b, n)
  {
    if a >= n {
      LapsAdd(a - n, b, n);
    }
  }

  lemma {:induction false} ModIsRemainder(x: nat, n: nat)
    requires n > 0
    ensures Mod(x, n) == x % n
  {
    if x >= n {
      ModIsRemainder(x - n, n);
      assert x == (x - n) / n * n + (x - n) % n + n == ((x - n) / n + 1) * n + (x - n) % n;
      RemainderUnique(x, (x - n) / n + 1, (x - n) % n, n);
    }
  }

  lemma RemainderUnique(x: int, q: int, r: int, n: int)
    requires n > 0 && x == q * n + r && 0 <= r < n
    ensures x % n == r
  {
    var d := x / n - q;
    assert d * n == (x / n) * n - q * n == r - x % n;
    MulBound(d, n);
  }

  lemma MulBound(d: int, n: int)
    requires n > 0
    ensures d >= 1 ==> d * n >= n
    ensures d <= -1 ==> d * n <= -n
  {
  }

  lemma TruncDivTimes(n: int, a: nat)
    requires a > 0
    ensures TruncDiv(n, a) * a == RoundTo(n, a)
  {
    var m := if n >= 0 then n else -n;
    ModIsRemainder(m, a);
    assert m == (m / a) * a + m % a;
    assert (-(m / a)) * a == -((m / a) * a);
  }

  lemma RoundToBounds(n: int, a: nat)
    requires a > 0
    ensures n >= 0 ==> n - a < RoundTo(n, a) <= n && Mod(RoundTo(n, a), a) == 0
    ensures n >= a ==> RoundTo(n, a) >= a
    ensures n < 0 ==> n <= RoundTo(n, a) <= 0
  {
    if n >= 0 {
      RoundDown(n, a);
    } else {
      RoundDown(-n, a);
    }
  }

  lemma {:induction false} RoundDown(n: nat, a: nat)
    requires a > 0
    ensures Mod(n, a) <= n && Mod(n - Mod(n, a), a) == 0
    ensures n >= a ==> n - Mod(n, a) >= a
  {
    if n >= a {
      RoundDown(n - a, a);
    }
  }

  // ----- the 32-bit counter

  lemma WrapAccumulates(total: int, len: int)
    ensures Wrap32(Wrap32(total) + len) == Wrap32(total + len)
  {
  }

  lemma WrapEqual(a: int, b: int)
    ensures Wrap32(a) == Wrap32(b) <==> (a - b) % 0x1_0000_0000 == 0
  {
  }
}
