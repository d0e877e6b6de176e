/** Bits of natural numbers and the bitwise operators of C++ on them.

    The operators are defined by recursion on the binary digits; the laws say
    what each of them does to a single bit, and numbers below a power of two are
    equal when their bits are.  Nothing here knows about machine words: the bit
    stream uses the operators only where they cannot overflow. */
module Bits {
  import opened Arith

  function Pow2(k: nat): (p: int)
    ensures p >= 1
  {
    if k == 0 then 1 else 2 * Pow2(k - 1)
  }

  function Bit(x: nat, k: nat): (b: nat)
    ensures b <= 1
    decreases k
  {
    if k == 0 then x % 2 else Bit(x / 2, k - 1)
  }

  function And(a: nat, b: nat): nat
  {
    if a == 0 || b == 0 then 0 else (a % 2) * (b % 2) + 2 * And(a / 2, b / 2)
  }

  function Or(a: nat, b: nat): nat
  {
    if a == 0 then b else if b == 0 then a else
      (if a % 2 + b % 2 > 0 then 1 else 0) + 2 * Or(a / 2, b / 2)
  }

  /** a & ~b */
  function AndNot(a: nat, b: nat): nat
  {
    if a == 0 then 0 else (a % 2) * (1 - b % 2) + 2 * AndNot(a / 2, b / 2)
  }

  function Xor(a: nat, b: nat): nat
  {
    if a == 0 && b == 0 then 0 else (a + b) % 2 + 2 * Xor(a / 2, b / 2)
  }

  function ShiftLeft(x: nat, k: nat): nat { MulNonNegative(x, Pow2(k)); x * Pow2(k) }

  function ShiftRight(x: nat, k: nat): nat
    decreases k
  {
    if k == 0 then x else ShiftRight(x / 2, k - 1)
  }

  lemma {:induction false} BitOfZero(k: nat)
    ensures Bit(0, k) == 0
  {
    if k > 0 { BitOfZero(k - 1); }
  }

  lemma {:induction false} BitAnd(a: nat, b: nat, k: nat)
    ensures Bit(And(a, b), k) == Bit(a, k) * Bit(b, k)
    decreases k
  {
    BitOfZero(k);
    if a != 0 && b != 0 {
      assert And(a, b) % 2 == (a % 2) * (b % 2) && And(a, b) / 2 == And(a / 2, b / 2) by { HalveAnd(a % 2, b % 2, And(a / 2, b / 2)); }
      if k > 0 { BitAnd(a / 2, b / 2, k - 1); }
    }
  }

  lemma HalveAnd(x: nat, y: nat, h: nat)
    requires x <= 1 && y <= 1
    ensures (x * y + 2 * h) % 2 == x * y && (x * y + 2 * h) / 2 == h
  {
  }

  lemma {:induction false} BitOr(a: nat, b: nat, k: nat)
    ensures Bit(Or(a, b), k) == if Bit(a, k) + Bit(b, k) > 0 then 1 else 0
    decreases k
  {
    BitOfZero(k);
    if a != 0 && b != 0 && k > 0 { BitOr(a / 2, b / 2, k - 1); }
  }

  lemma {:induction false} BitAndNot(a: nat, b: nat, k: nat)
    ensures Bit(AndNot(a, b), k) == if Bit(b, k) == 1 then 0 else Bit(a, k)
    decreases k
  {
    BitOfZero(k);
    if a != 0 {
      assert AndNot(a, b) % 2 == (a % 2) * (1 - b % 2) && AndNot(a, b) / 2 == AndNot(a / 2, b / 2) by {
        HalveAnd(a % 2, 1 - b % 2, AndNot(a / 2, b / 2));
      }
      if k > 0 { BitAndNot(a / 2, b / 2, k - 1); }
    }
  }

  lemma {:induction false} BitXor(a: nat, b: nat, k: nat)
    ensures Bit(Xor(a, b), k) == (Bit(a, k) + Bit(b, k)) % 2
    decreases k
  {
    BitOfZero(k);
    if (a != 0 || b != 0) && k > 0 { BitXor(a / 2, b / 2, k - 1); }
  }

  /** The exclusive or of numbers of m bits has m bits. */
  lemma {:induction false} XorStaysBelow(a: nat, b: nat, m: nat)
    requires a < Pow2(m) && b < Pow2(m)
    ensures Xor(a, b) < Pow2(m)
    decreases m
  {
    if m > 0 && (a != 0 || b != 0) { XorStaysBelow(a / 2, b / 2, m - 1); }
  }

  lemma {:induction false} BitShiftRight(x: nat, s: nat, k: nat)
    ensures Bit(ShiftRight(x, s), k) == Bit(x, s + k)
    decreases s
  {
    if s > 0 { BitShiftRight(x / 2, s - 1, k); }
  }

  lemma {:induction false} BitShiftLeft(x: nat, s: nat, k: nat)
    ensures Bit(ShiftLeft(x, s), k) == if k < s then 0 else Bit(x, k - s)
    decreases s
  {
    if s > 0 {
      var half := ShiftLeft(x, s - 1);
      assert ShiftLeft(x, s) == 2 * half by { Twice(x, Pow2(s - 1)); }
      if k > 0 { BitShiftLeft(x, s - 1, k - 1); }
    }
  }

  lemma Twice(x: nat, p: nat)
    ensures x * (2 * p) == 2 * (x * p)
  {
  }

  /** Bits at and beyond m are zero exactly below 2^m. */
  lemma {:induction false} HighBits(x: nat, m: nat, k: nat)
    requires x < Pow2(m) && k >= m
    ensures Bit(x, k) == 0
    decreases m
  {
    if m == 0 { BitOfZero(k); } else { HighBits(x / 2, m - 1, k - 1); }
  }

  lemma {:induction false} SmallFromBits(x: nat, m: nat)
    requires forall k: nat :: k >= m ==> Bit(x, k) == 0
    ensures x < Pow2(m)
    decreases m, x
  {
    if m == 0 { assert Bit(x, 0) == 0; }
    if x > 0 {
      var m' := if m == 0 then 0 else m - 1;
      forall k: nat | k >= m' ensures Bit(x / 2, k) == 0 { assert Bit(x, k + 1) == 0; }
      SmallFromBits(x / 2, m');
    }
  }

  /** Numbers below 2^m with the same m bits are equal. */
  lemma {:induction false} SameBits(x: nat, y: nat, m: nat)
    requires x < Pow2(m) && y < Pow2(m) && forall k: nat :: k < m ==> Bit(x, k) == Bit(y, k)
    ensures x == y
    decreases m
  {
    if m > 0 {
      forall k: nat | k < m - 1 ensures Bit(x / 2, k) == Bit(y / 2, k) { assert Bit(x, k + 1) == Bit(y, k + 1); }
      SameBits(x / 2, y / 2, m - 1);
      assert Bit(x, 0) == Bit(y, 0);
    }
  }

  /** (1 << (u + w)) - (1 << u) */
  function Mask(u: nat, w: nat): (m: nat)
  {
    PowMonotone(u, w);
    Pow2(u + w) - Pow2(u)
  }

  lemma {:induction false} PowMonotone(u: nat, w: nat)
    ensures Pow2(u) <= Pow2(u + w)
  {
    if w > 0 { PowMonotone(u, w - 1); }
  }

  /** The mask has exactly the bits u, ..., u + w - 1. */
  lemma {:induction false} BitMask(u: nat, w: nat, k: nat)
    ensures Bit(Mask(u, w), k) == if u <= k < u + w then 1 else 0
    decreases u, w, k
  {
    if w == 0 {
      BitOfZero(k);
    } else if u == 0 {
      // 2^w - 1 == 2 * (2^(w-1) - 1) + 1
      if k > 0 { BitMask(0, w - 1, k - 1); }
    } else {
      assert Mask(u, w) == 2 * Mask(u - 1, w);
      if k > 0 { BitMask(u - 1, w, k - 1); }
    }
  }

  /** Reducing modulo 2^m keeps the low m bits. */
  lemma {:induction false} BitMod(x: nat, m: nat, k: nat)
    ensures Bit(x % Pow2(m), k) == if k < m then Bit(x, k) else 0
    decreases m
  {
    if m == 0 {
      DivModUnique(x, 1, x, 0);
      BitOfZero(k);
    } else {
      ModHalf(x, Pow2(m - 1));
      if k > 0 { BitMod(x / 2, m - 1, k - 1); }
    }
  }

  lemma ModHalf(x: nat, p: int)
    requires p >= 1
    ensures (x % (2 * p)) / 2 == (x / 2) % p && (x % (2 * p)) % 2 == x % 2
  {
    var h := x / 2;
    var q, r := h / p, h % p;
    Twice'(q, p);
    DivModUnique(x, 2 * p, q, 2 * r + x % 2);
  }

  lemma Twice'(q: int, p: int)
    ensures 2 * (q * p) == q * (2 * p)
  {
  }
}
