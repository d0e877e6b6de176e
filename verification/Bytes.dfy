/** Little-endian bytes of fixed-width integers, shared by the wire formats. */
module Bytes {
  import opened Arith

  type byte = x: int | 0 <= x < 256

  function Pow256(w: nat): (p: int)
    ensures p >= 1 && (w > 0 ==> p % 2 == 0)
  {
    if w == 0 then 1 else 256 * Pow256(w - 1)
  }

  /** The w low bytes of n, least significant first. */
  function Low(n: int, w: nat): (b: seq<byte>)
    ensures |b| == w
    decreases w
  {
    if w == 0 then [] else [n % 256] + Low(n / 256, w - 1)
  }

  /** Byte j of a number is its j-th digit to the base 256. */
  lemma {:induction false} LowByte(n: int, w: nat, j: nat)
    requires j < w
    ensures Low(n, w)[j] == n / Pow256(j) % 256
    decreases j
  {
    if j > 0 {
      LowByte(n / 256, w - 1, j - 1);
      DivDiv(n, Pow256(j - 1));
    }
  }

  lemma DivDiv(n: int, p: int)
    requires p >= 1
    ensures n / 256 / p == n / (256 * p)
  {
    var m := n / 256;
    var q, r := m / p, m % p;
    assert 256 * (q * p) == q * (256 * p);
    DivModUnique(n, 256 * p, q, 256 * r + n % 256);
  }

  function Unsigned(b: seq<byte>): (n: nat)
    ensures n < Pow256(|b|)
  {
    if b == [] then 0 else b[0] + 256 * Unsigned(b[1..])
  }

  /** Two's complement. */
  function Signed(b: seq<byte>): int
  {
    var n := Unsigned(b);
    if 2 * n < Pow256(|b|) then n else n - Pow256(|b|)
  }

  /** Truncating to w bytes and reading back is reduction modulo 256^w. */
  lemma {:induction false} LowUnsigned(n: int, w: nat)
    ensures Unsigned(Low(n, w)) == n % Pow256(w)
    decreases w
  {
    if w == 0 {
      DivModUnique(n, 1, n, 0);
    } else {
      LowUnsigned(n / 256, w - 1);
      assert Low(n, w)[1..] == Low(n / 256, w - 1);
      ModStep(n, Pow256(w - 1));
    }
  }

  lemma ModStep(n: int, p: int)
    requires p >= 1
    ensures n % (256 * p) == 256 * (n / 256 % p) + n % 256
  {
    var m := n / 256;
    var q, r := m / p, m % p;
    assert 256 * (q * p) == q * (256 * p);
    DivModUnique(n, 256 * p, q, 256 * r + n % 256);
  }

  lemma UnsignedRoundTrip(n: int, w: nat)
    requires 0 <= n < Pow256(w)
    ensures Unsigned(Low(n, w)) == n
  {
    LowUnsigned(n, w);
    DivModUnique(n, Pow256(w), 0, n);
  }

  lemma SignedRoundTrip(n: int, w: nat)
    requires w > 0 && -Pow256(w) <= 2 * n < Pow256(w)
    ensures Signed(Low(n, w)) == n
  {
    LowUnsigned(n, w);
    if n >= 0 { DivModUnique(n, Pow256(w), 0, n); } else { DivModUnique(n, Pow256(w), -1, n + Pow256(w)); }
  }

  /** The other way round: bytes are recovered from the number they denote. */
  lemma {:induction false} LowOfUnsigned(b: seq<byte>)
    ensures Low(Unsigned(b), |b|) == b
  {
    if b != [] {
      LowOfUnsigned(b[1..]);
      DivModUnique(Unsigned(b), 256, Unsigned(b[1..]), b[0]);
    }
  }
}
