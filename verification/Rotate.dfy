/** The two in-place rotations of hobbies/leetcode/algorithms/solution_189.cpp:
    three reversals, and following the cycles of "move k places on".

    The second rotation is right because the positions of an array of length n
    fall into exactly gcd(k, n) cycles of n / gcd(k, n) positions each, with the
    positions 0 to gcd(k, n) - 1 in different cycles.  The greatest common
    divisor is carried around together with the two coefficients that combine
    it from k and n, so that the number theory stays elementary. */
module Rotate {
  import opened Arith
  import opened Reversal

  /** s moved k places to the right, the end wrapping round to the front. */
  ghost function Rotated(s: seq<int>, k: nat): (r: seq<int>)
    requires k < |s|
    ensures |r| == |s|
  {
    s[|s| - k..] + s[..|s| - k]
  }

  /** Where the element at position p comes from. */
  lemma RotatedAt(s: seq<int>, k: nat, p: nat)
    requires k < |s| && p < |s|
    ensures Rotated(s, k)[p] == s[if p >= k then p - k else p + |s| - k]
  {
  }

  // ---------- three reversals ----------

  /** Mirroring both parts and then the whole exchanges the parts. */
  lemma MirrorThrice(s: seq<int>, k: nat)
    requires 0 < k < |s|
    ensures var n := |s|;
            Mirrored(Mirrored(Mirrored(s, 0, n - k - 1), n - k, n - 1), 0, n - 1) == Rotated(s, k)
  {
    var n := |s|;
    var s1 := Mirrored(s, 0, n - k - 1);
    var s2 := Mirrored(s1, n - k, n - 1);
    var s3 := Mirrored(s2, 0, n - 1);
    forall p | 0 <= p < n ensures s3[p] == Rotated(s, k)[p] {
      assert s3[p] == s2[n - 1 - p];
    }
  }

  lemma RotatedNone(s: seq<int>)
    requires s != []
    ensures Rotated(s, 0) == s
  {
  }

  method RotateByReversal(nums: array<int>, k0: nat)
    modifies nums
    ensures nums.Length > 0 ==> nums[..] == Rotated(old(nums[..]), k0 % nums.Length)
  {
    hide Mirrored, Rotated;
    var n := nums.Length;
    if n == 0 { return; }
    RotatedNone(nums[..]);
    var k := k0 % n;
    if k == 0 { return; }
    MirrorThrice(nums[..], k);
    Reverse(nums, 0, n - k - 1);
    Reverse(nums, n - k, n - 1);
    Reverse(nums, 0, n - 1);
  }

  // ---------- the greatest common divisor ----------

  /** g divides both numbers and is an integer combination of them, so every
      common divisor divides g. */
  ghost predicate IsGcd(g: int, m: int, n: int, x: int, y: int)
  {
    && g > 0
    && m % g == 0 && n % g == 0
    && g == x * m + y * n
  }

  lemma GcdIsGreatest(g: int, m: int, n: int, x: int, y: int, d: int)
    requires IsGcd(g, m, n, x, y) && d > 0 && m % d == 0 && n % d == 0
    ensures g % d == 0 && d <= g
  {
    var m', n' := m / d, n / d;
    calc {
      g;
      x * (m' * d) + y * (n' * d);
      (x * m') * d + (y * n') * d;
      (x * m' + y * n') * d;
    }
    DivModUnique(g, d, x * m' + y * n', 0);
    if g < d { DivModUnique(g, d, 0, g); }
  }

  lemma Combine(m0: int, n0: int, a: int, b: int, c: int, d: int)
    ensures (c - a) * m0 + (d - b) * n0 == (c * m0 + d * n0) - (a * m0 + b * n0)
  {
  }

  lemma Uncombine(m: int, n: int, p: int, q: int)
    ensures p * m + q * n == (p + q) * m + q * (n - m)
  {
  }

  /** The subtractive loop, with the coefficients of the combination as ghost results. */
  method Gcd(m0: nat, n0: nat) returns (g: nat, ghost x: int, ghost y: int)
    requires n0 > 0
    ensures g > 0 && m0 % g == 0 && n0 % g == 0
    ensures forall d: nat :: d > 0 && m0 % d == 0 && n0 % d == 0 ==> d <= g
    ensures IsGcd(g, m0, n0, x, y)
  {
    var m, n := m0, n0;
    // m and n are combinations of m0 and n0, and the other way round
    ghost var a, b, c, d := 1, 0, 0, 1;
    ghost var p, q, r, t := 1, 0, 0, 1;
    while m != 0
      invariant m >= 0 && n >= 0 && m + n > 0
      invariant m == a * m0 + b * n0 && n == c * m0 + d * n0
      invariant m0 == p * m + q * n && n0 == r * m + t * n
      decreases m + n, if n < m then 1 else 0
    {
      if n >= m {
        Combine(m0, n0, a, b, c, d);
        Uncombine(m, n, p, q);
        Uncombine(m, n, r, t);
        c, d := c - a, d - b;
        p, r := p + q, r + t;
        n := n - m;
      } else {
        m, n := n, m;
        a, b, c, d := c, d, a, b;
        p, q, r, t := q, p, t, r;
      }
    }
    g, x, y := n, c, d;
    DivModUnique(m0, n, q, 0);
    DivModUnique(n0, n, t, 0);
    forall e: nat | e > 0 && m0 % e == 0 && n0 % e == 0 ensures e <= g { GcdIsGreatest(g, m0, n0, x, y, e); }
  }

  // ---------- the orbits of +k modulo n ----------

  /** The position reached from leader j after s moves of k. */
  ghost function Orbit(j: nat, s: nat, k: nat, n: nat): (p: nat)
    requires n > 0
    ensures p < n
  {
    MulNonNegative(s, k);
    (j + s * k) % n
  }

  lemma OrbitStep(j: nat, s: nat, k: nat, n: nat)
    requires k < n
    ensures Orbit(j, s + 1, k, n) == if Orbit(j, s, k, n) + k < n then Orbit(j, s, k, n) + k else Orbit(j, s, k, n) + k - n
  {
    MulNonNegative(s, k);
    MulNonNegative(s + 1, k);
    var q, p := (j + s * k) / n, (j + s * k) % n;
    assert (s + 1) * k == s * k + k;
    if p + k < n {
      DivModUnique(j + (s + 1) * k, n, q, p + k);
    } else {
      DivModUnique(j + (s + 1) * k, n, q + 1, p + k - n);
    }
  }

  lemma OrbitStart(j: nat, k: nat, n: nat)
    requires j < n
    ensures Orbit(j, 0, k, n) == j
  {
    DivModUnique(j, n, 0, j);
  }

  /** The setting of the cycle proof: g cycles of length c. */
  ghost predicate Cycles(g: nat, c: nat, k: nat, n: nat, x: int, y: int)
  {
    && k < n && IsGcd(g, k, n, x, y) && n == g * c && c > 0
  }

  /** After c moves the orbit is back at its leader. */
  lemma OrbitCloses(j: nat, g: nat, c: nat, k: nat, n: nat, x: int, y: int)
    requires Cycles(g, c, k, n, x, y) && j < g
    ensures j < n && Orbit(j, c, k, n) == j
  {
    MulAtLeast(c, g);
    var k' := k / g;
    calc {
      c * k;
      c * (k' * g);
      k' * (g * c);
      k' * n;
    }
    DivModUnique(j + c * k, n, k', j);
  }

  /** Moving by k never leaves the residue class of the leader. */
  lemma OrbitResidue(j: nat, s: nat, g: nat, c: nat, k: nat, n: nat, x: int, y: int)
    requires Cycles(g, c, k, n, x, y) && j < g
    ensures Orbit(j, s, k, n) % g == j
  {
    MulNonNegative(s, k);
    var q, p := (j + s * k) / n, (j + s * k) % n;
    var k' := k / g;
    calc {
      p;
      j + s * k - q * n;
      j + s * (k' * g) - q * (g * c);
      j + (s * k') * g - (q * c) * g;
      { Distribute(s * k', q * c, g); }
      (s * k' - q * c) * g + j;
    }
    DivModUnique(p, g, s * k' - q * c, j);
  }

  /** Two positions of the same orbit coincide only when the numbers of moves do. */
  lemma OrbitInjective(j: nat, s: nat, s': nat, g: nat, c: nat, k: nat, n: nat, x: int, y: int)
    requires Cycles(g, c, k, n, x, y) && j < g && s <= s' < c
    requires Orbit(j, s, k, n) == Orbit(j, s', k, n)
    ensures s == s'
  {
    MulNonNegative(s, k);
    MulNonNegative(s', k);
    var d := s' - s;
    var w1, w2 := (j + s' * k) / n, (j + s * k) / n;
    Distribute(s', s, k);
    Distribute(w1, w2, n);
    var z := x * (w1 - w2) + d * y;
    Annihilate(d, g, x, y, k, n, w1 - w2);
    MultipleTooSmall(d, g, c, z, n);
  }

  lemma Annihilate(d: int, g: int, x: int, y: int, k: int, n: int, w: int)
    requires g == x * k + y * n && d * k == w * n
    ensures d * g == (x * w + d * y) * n
  {
    calc {
      d * g;
      d * (x * k + y * n);
      x * (d * k) + d * y * n;
      x * (w * n) + d * y * n;
      (x * w + d * y) * n;
    }
  }

  /** No positive multiple of g below g * c is a multiple of n == g * c. */
  lemma MultipleTooSmall(d: int, g: int, c: int, z: int, n: int)
    requires 0 <= d < c && g > 0 && n == g * c && d * g == z * n
    ensures d == 0
  {
    Distribute(c, d, g);
    MulAtLeast(c - d, g);
    if d > 0 { MulAtLeast(d, g); }
    if z >= 1 { MulAtLeast(z, n); } else { MulNonNegative(-z, n); }
  }

  /** Every position lies on the orbit of its residue. */
  lemma OrbitSurjective(p: nat, g: nat, c: nat, k: nat, n: nat, x: int, y: int) returns (s: nat)
    requires Cycles(g, c, k, n, x, y) && p < n
    ensures s < c && p % g < g && Orbit(p % g, s, k, n) == p
  {
    var j, w := p % g, p / g;
    var e := (w * x) / c;
    s := (w * x) % c;
    var k' := k / g;
    assert c * k == k' * n by { Reorder(c, k', g); }
    Residual(p, j, w, g, x, y, k, n, c, e, s, k');
    MulNonNegative(s, k);
    DivModUnique(j + s * k, n, -(e * k' + w * y), p);
  }

  lemma Reorder(c: int, k': int, g: int)
    ensures c * (k' * g) == k' * (g * c)
  {
  }

  lemma Residual(p: int, j: int, w: int, g: int, x: int, y: int, k: int, n: int, c: int, e: int, s: int, k': int)
    requires p == w * g + j && g == x * k + y * n
    requires w * x == e * c + s && c * k == k' * n
    ensures j + s * k == (-(e * k' + w * y)) * n + p
  {
    Expand(w, x, y, k, n);
    SplitQuotient(w * x, c, k, e, s, k', n);
    Gather(e * k', w * y, n);
  }

  lemma Expand(w: int, x: int, y: int, k: int, n: int)
    ensures w * (x * k + y * n) == (w * x) * k + (w * y) * n
  {
  }

  lemma Gather(a: int, b: int, n: int)
    ensures (-(a + b)) * n == -(a * n) - (b * n)
  {
  }

  lemma SplitQuotient(a: int, c: int, k: int, e: int, s: int, k': int, n: int)
    requires a == e * c + s && c * k == k' * n
    ensures a * k == (e * k') * n + s * k
  {
    calc {
      a * k;
      (e * c + s) * k;
      e * (c * k) + s * k;
      e * (k' * n) + s * k;
    }
  }

  // ---------- following the cycles ----------

  /** What the array holds when cycles 0..j are done and q moves of cycle j have
      been made: the source of the element at (j', s). */
  ghost function Source(j': nat, s: nat, j: nat, q: nat, k: nat, n: nat): (p: nat)
    requires k < n && j' < n
    ensures p < n
  {
    if j' == j && s == 0 then Orbit(j, q, k, n)
    else if j' < j || (j' == j && s <= q) then Before(Orbit(j', s, k, n), k, n)
    else Orbit(j', s, k, n)
  }

  /** The position k places before p. */
  ghost function Before(p: nat, k: nat, n: nat): (b: nat)
    requires k < n && p < n
    ensures b < n
  {
    if p >= k then p - k else p + n - k
  }

  ghost predicate Progress(now: seq<int>, was: seq<int>, j: nat, q: nat, g: nat, c: nat, k: nat)
    requires |now| == |was| && k < |was| && g <= |was|
  {
    forall j': nat, s: nat :: j' < g && s < c ==>
      now[Orbit(j', s, k, |was|)] == was[Source(j', s, j, q, k, |was|)]
  }

  /** Where one swap leaves the element at (j', s). */
  lemma SwapSource(now: seq<int>, was: seq<int>, j: nat, q: nat, g: nat, c: nat, k: nat, x: int, y: int,
                   j': nat, s: nat)
    requires |now| == |was| && Cycles(g, c, k, |was|, x, y) && g <= |was| && j < g && q < c
    requires Progress(now, was, j, q, g, c, k)
    requires j' < g && s < c
    ensures var n := |was|;
            var r := Orbit(j, q + 1, k, n);
            now[r := now[j]][j := now[r]][Orbit(j', s, k, n)] ==
              was[if q + 1 < c then Source(j', s, j, q + 1, k, n) else Source(j', s, j + 1, 0, k, n)]
  {
    var n := |was|;
    var r := Orbit(j, q + 1, k, n);
    var p := Orbit(j', s, k, n);
    OrbitStart(j, k, n);
    assert now[j] == now[Orbit(j, 0, k, n)] == was[Orbit(j, q, k, n)];
    OrbitResidue(j', s, g, c, k, n, x, y);
    OrbitResidue(j, q + 1, g, c, k, n, x, y);
    OrbitStep(j, q, k, n);
    assert Before(r, k, n) == Orbit(j, q, k, n);
    OrbitStart(j', k, n);
    DivModUnique(j, g, 0, j);
    if j' == j { SwapWithin(j, q, s, g, c, k, n, x, y); }
  }

  /** On the cycle being followed, the swap touches the leader and the next position only. */
  lemma SwapWithin(j: nat, q: nat, s: nat, g: nat, c: nat, k: nat, n: nat, x: int, y: int)
    requires Cycles(g, c, k, n, x, y) && g <= n && j < g && q < c && s < c
    ensures q + 1 < c && Orbit(j, s, k, n) == Orbit(j, q + 1, k, n) ==> s == q + 1
    ensures Orbit(j, s, k, n) == j ==> s == 0
    ensures q + 1 == c ==> Orbit(j, q + 1, k, n) == j
  {
    OrbitStart(j, k, n);
    OrbitCloses(j, g, c, k, n, x, y);
    if q + 1 < c && Orbit(j, s, k, n) == Orbit(j, q + 1, k, n) {
      if s <= q + 1 { OrbitInjective(j, s, q + 1, g, c, k, n, x, y); }
      else { OrbitInjective(j, q + 1, s, g, c, k, n, x, y); }
    }
    if Orbit(j, s, k, n) == j { OrbitInjective(j, 0, s, g, c, k, n, x, y); }
  }

  /** One swap of the loop body. */
  lemma SwapProgress(now: seq<int>, was: seq<int>, j: nat, q: nat, g: nat, c: nat, k: nat, x: int, y: int)
    requires |now| == |was| && Cycles(g, c, k, |was|, x, y) && g <= |was| && j < g && q < c
    requires Progress(now, was, j, q, g, c, k)
    ensures var r := Orbit(j, q + 1, k, |was|);
            var next := now[r := now[j]][j := now[r]];
            if q + 1 < c then Progress(next, was, j, q + 1, g, c, k) else Progress(next, was, j + 1, 0, g, c, k)
  {
    assert k < |was|;
    hide Cycles, Source, Orbit;
    forall j': nat, s: nat | j' < g && s < c
      ensures var n := |was|;
              var r := Orbit(j, q + 1, k, n);
              now[r := now[j]][j := now[r]][Orbit(j', s, k, n)] ==
                was[if q + 1 < c then Source(j', s, j, q + 1, k, n) else Source(j', s, j + 1, 0, k, n)]
    {
      SwapSource(now, was, j, q, g, c, k, x, y, j', s);
    }
  }

  lemma StartProgress(was: seq<int>, g: nat, c: nat, k: nat)
    requires 0 < g <= |was| && k < |was|
    ensures Progress(was, was, 0, 0, g, c, k)
  {
    forall j': nat, s: nat | j' < g && s < c ensures Source(j', s, 0, 0, k, |was|) == Orbit(j', s, k, |was|) {
      OrbitStart(0, k, |was|);
    }
  }

  /** When all cycles are done every element has moved k places on. */
  lemma EndProgress(now: seq<int>, was: seq<int>, g: nat, c: nat, k: nat, x: int, y: int)
    requires |now| == |was| && Cycles(g, c, k, |was|, x, y) && g <= |was|
    requires Progress(now, was, g, 0, g, c, k)
    ensures now == Rotated(was, k)
  {
    forall p | 0 <= p < |was| ensures now[p] == Rotated(was, k)[p] {
      var s := OrbitSurjective(p, g, c, k, |was|, x, y);
      assert now[Orbit(p % g, s, k, |was|)] == was[Source(p % g, s, g, 0, k, |was|)];
      RotatedAt(was, k, p);
    }
  }

  /** The running position after one more move, before it is brought back into range. */
  lemma NextPosition(j: nat, q: nat, r: nat, g: nat, c: nat, k: nat, n: nat, x: int, y: int)
    requires Cycles(g, c, k, n, x, y) && j < g <= n && q < c && r == Orbit(j, q + 1, k, n)
    ensures (r + k) % n == Orbit(j, q + 2, k, n)
    ensures q + 1 == c ==> r == j && (r + k + 1) % n == Orbit(j + 1, 1, k, n)
  {
    OrbitStep(j, q + 1, k, n);
    if r + k < n { DivModUnique(r + k, n, 0, r + k); } else { DivModUnique(r + k, n, 1, r + k - n); }
    OrbitCloses(j, g, c, k, n, x, y);
  }

  /** The moves counted by i fill cycle after cycle. */
  lemma CycleCount(i: nat, j: nat, q: nat, g: nat, c: nat)
    requires j <= g && q < c && i == j * c + q && i < g * c
    ensures j < g
    ensures (i + 1) % c == 0 <==> q + 1 == c
    ensures q + 1 == c ==> i + 1 == (j + 1) * c <= g * c
    ensures q + 1 < c ==> i + 1 == j * c + (q + 1) <= g * c
  {
    if q + 1 == c {
      DivModUnique(i + 1, c, j + 1, 0);
    } else {
      DivModUnique(i + 1, c, j, q + 1);
    }
  }

  lemma CycleLength(g: nat, k: nat, n: nat, x: int, y: int) returns (c: nat)
    requires k < n && IsGcd(g, k, n, x, y)
    ensures c == n / g && Cycles(g, c, k, n, x, y) && g <= n
    ensures g == n ==> k == 0
  {
    c := n / g;
    if c <= 0 { DivModUnique(n, g, 0, 0); }
    MulAtLeast(c, g);
    if g == n { DivModUnique(k, n, 0, k); }
  }

  method RotateByCycles(nums: array<int>, k0: nat)
    modifies nums
    ensures nums.Length > 0 ==> nums[..] == Rotated(old(nums[..]), k0 % nums.Length)
  {
    hide Rotated, Progress, Cycles, Orbit, IsGcd;
    var n := nums.Length;
    if n == 0 { return; }
    var k := k0 % n;
    var cycles; ghost var x, y;
    cycles, x, y := Gcd(k, n);
    ghost var c := CycleLength(cycles, k, n, x, y);
    ghost var was := nums[..];
    RotatedNone(was);
    if cycles == n { return; }
    StartProgress(was, cycles, c, k);
    StartPosition(k, n);
    var i, j, r := 0, 0, k;
    ghost var q := 0;
    while i < n
      invariant 0 <= q < c && 0 <= j <= cycles && i == j * c + q <= cycles * c
      invariant 0 <= r < 2 * n
      invariant r % n == Orbit(j, q + 1, k, n)
      invariant Progress(nums[..], was, j, q, cycles, c, k)
    {
      CycleCount(i, j, q, cycles, c);
      ModOnce(r, n);
      r := if r >= n then r - n else r;
      SwapProgress(nums[..], was, j, q, cycles, c, k, x, y);
      NextPosition(j, q, r, cycles, c, k, n, x, y);
      var t := nums[r];
      nums[r] := nums[j];
      nums[j] := t;
      i := i + 1;
      r := r + k;
      if i % (n / cycles) == 0 {
        r := r + 1;
        j := j + 1;
        q := 0;
      } else {
        q := q + 1;
      }
    }
    CycleEnd(j, q, cycles, c);
    EndProgress(nums[..], was, cycles, c, k, x, y);
  }

  lemma StartPosition(k: nat, n: nat)
    requires k < n
    ensures k % n == Orbit(0, 1, k, n)
  {
  }

  lemma ModOnce(r: nat, n: nat)
    requires r < 2 * n
    ensures r % n == if r >= n then r - n else r
  {
    if r >= n { DivModUnique(r, n, 1, r - n); } else { DivModUnique(r, n, 0, r); }
  }

  lemma CycleEnd(j: nat, q: nat, g: nat, c: nat)
    requires q < c && j <= g && j * c + q == g * c
    ensures j == g && q == 0
  {
    if j < g { Distribute(g, j, c); MulAtLeast(g - j, c); }
  }
}
