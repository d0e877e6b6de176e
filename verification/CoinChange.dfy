/** The fewest coins for an amount: hobbies/leetcode/algorithms/solution_322.cpp,
    by pruned recursion over the largest coin and by dynamic programming. */
module CoinChange {
  import opened Arith
  import opened Sorting

  ghost function Sum(picks: seq<int>): int
  {
    if picks == [] then 0 else Sum(picks[..|picks| - 1]) + picks[|picks| - 1]
  }

  /** The picked coins are all of denominations in `coins` and add up to v. */
  ghost predicate Pays(coins: seq<int>, picks: seq<int>, v: int)
  {
    Sum(picks) == v && forall i :: 0 <= i < |picks| ==> picks[i] in coins
  }

  ghost predicate CanPay(coins: seq<int>, v: int, n: nat)
  {
    exists picks :: |picks| == n && Pays(coins, picks, v)
  }

  /** r is the least number of coins that pay v, or -1 when none do. */
  ghost predicate IsFewest(coins: seq<int>, v: int, r: int)
  {
    if r == -1 then forall n: nat :: !CanPay(coins, v, n)
    else r >= 0 && CanPay(coins, v, r) && forall n: nat :: CanPay(coins, v, n) ==> r <= n
  }

  ghost predicate Positive(coins: seq<int>)
  {
    forall i :: 0 <= i < |coins| ==> coins[i] > 0
  }

  lemma FewestIsUnique(coins: seq<int>, v: int, r: int, s: int)
    requires IsFewest(coins, v, r) && IsFewest(coins, v, s)
    ensures r == s
  {
  }

  /** Only the set of denominations matters, not their order. */
  lemma CanPayPermutes(coins: seq<int>, other: seq<int>, v: int, n: nat)
    requires multiset(coins) == multiset(other)
    ensures CanPay(coins, v, n) <==> CanPay(other, v, n)
  {
    forall c ensures c in coins <==> c in other { assert c in multiset(coins) <==> c in multiset(other); }
    forall picks ensures Pays(coins, picks, v) <==> Pays(other, picks, v) {}
  }

  /** Each coin is worth between 1 and the largest denomination. */
  lemma {:induction false} PaysBounds(coins: seq<int>, picks: seq<int>, v: int, largest: int)
    requires Pays(coins, picks, v) && Positive(coins)
    requires forall i :: 0 <= i < |coins| ==> coins[i] <= largest
    ensures |picks| <= v <= |picks| * largest
  {
    if picks != [] {
      var last := picks[|picks| - 1];
      assert last in coins;
      PaysBounds(coins, picks[..|picks| - 1], v - last, largest);
      assert |picks| * largest == (|picks| - 1) * largest + largest;
    }
  }

  // ---------- splitting off the largest coin ----------

  /** Any payment is k coins of the last denomination and a payment without it. */
  lemma {:induction false} SplitLast(coins: seq<int>, picks: seq<int>, v: int) returns (k: nat, rest: seq<int>)
    requires coins != [] && Pays(coins, picks, v)
    ensures k <= |picks| && |rest| == |picks| - k
    ensures Pays(coins[..|coins| - 1], rest, v - k * coins[|coins| - 1])
  {
    var last := coins[|coins| - 1];
    if picks == [] {
      k, rest := 0, [];
    } else {
      var p := picks[|picks| - 1];
      assert p in coins;
      k, rest := SplitLast(coins, picks[..|picks| - 1], v - p);
      if p == last {
        assert (k + 1) * last == k * last + last;
        k := k + 1;
      } else {
        var i :| 0 <= i < |coins| && coins[i] == p;
        assert coins[..|coins| - 1][i] == p;
        rest := rest + [p];
        assert rest[..|rest| - 1] + [p] == rest;
      }
    }
  }

  lemma {:induction false} AddCopies(coins: seq<int>, rest: seq<int>, v: int, k: nat, last: int) returns (picks: seq<int>)
    requires last in coins && Pays(coins, rest, v)
    ensures |picks| == |rest| + k && Pays(coins, picks, v + k * last)
  {
    if k == 0 {
      picks := rest;
    } else {
      var p := AddCopies(coins, rest, v, k - 1, last);
      picks := p + [last];
      assert picks[..|picks| - 1] == p;
      assert k * last == (k - 1) * last + last;
    }
  }

  lemma JoinLast(coins: seq<int>, v: int, k: nat, n: nat)
    requires coins != [] && CanPay(coins[..|coins| - 1], v - k * coins[|coins| - 1], n)
    ensures CanPay(coins, v, n + k)
  {
    var last := coins[|coins| - 1];
    var rest :| |rest| == n && Pays(coins[..|coins| - 1], rest, v - k * last);
    forall i | 0 <= i < |rest| ensures rest[i] in coins { assert rest[i] in coins[..|coins| - 1]; }
    var picks := AddCopies(coins, rest, v - k * last, k, last);
  }

  // ---------- the pruned recursion ----------

  ghost predicate SortedCoins(coins: seq<int>)
  {
    Positive(coins) && Ascending(coins)
  }

  /** A multiple of the largest coin is paid best in that coin alone. */
  lemma DivisibleIsFewest(coins: seq<int>, v: nat)
    requires coins != [] && SortedCoins(coins) && v % coins[|coins| - 1] == 0
    ensures IsFewest(coins, v, v / coins[|coins| - 1])
  {
    var last := coins[|coins| - 1];
    var k := v / last;
    assert Sum([]) == 0 && Pays(coins[..|coins| - 1], [], v - k * last);
    JoinLast(coins, v, k, 0);
    forall n: nat | CanPay(coins, v, n) ensures k <= n {
      var picks :| |picks| == n && Pays(coins, picks, v);
      PaysBounds(coins, picks, v, last);
      if n < k { Distribute(k, n, last); MulAtLeast(k - n, last); }
    }
  }

  /** v can be paid with k coins of the largest kind and n others. */
  ghost predicate PayUsing(coins: seq<int>, v: int, k: nat, n: nat)
  {
    coins != [] && CanPay(coins[..|coins| - 1], v - k * coins[|coins| - 1], n)
  }

  /** Why the loop may stop: with fewer coins of the largest kind, the bound
      k + ceil(x / y) on the number of coins never falls. */
  lemma BoundNeverFalls(v: nat, last: int, y: int, k: nat, k': nat, n: nat)
    requires 0 < y <= last && k' <= k && k * last <= v && v - k' * last <= n * y
    ensures n + k' >= k + (v - k * last + y - 1) / y
  {
    var x := v - k * last;
    var q, m, d := (x + y - 1) / y, n + k' - k, k - k';
    Distribute(k, k', last);
    Distribute(last, y, d);
    MulNonNegative(last - y, d);
    Commute(d, last);
    Commute(d, y);
    Distribute(n, d, y);
    assert m * y >= x;
    CeilBelow(x, y, m);
  }

  lemma Commute(a: int, b: int)
    ensures a * b == b * a
  {
  }

  lemma CeilBelow(x: nat, y: int, m: int)
    requires y > 0 && m * y >= x
    ensures m >= (x + y - 1) / y
  {
    var q, r := (x + y - 1) / y, (x + y - 1) % y;
    if m < q { Distribute(q, m, y); MulAtLeast(q - m, y); }
  }

  /** Every payment using more than k coins of the largest kind takes at least mink coins. */
  ghost predicate Covered(coins: seq<int>, v: int, k: int, mink: int)
  {
    forall k': nat, n: nat :: k' > k && PayUsing(coins, v, k', n) ==> mink <= n + k'
  }

  lemma CoverStart(coins: seq<int>, v: nat, steps: nat, mink: int)
    requires coins != [] && SortedCoins(coins) && steps == v / coins[|coins| - 1]
    ensures Covered(coins, v, steps, mink)
  {
    var last := coins[|coins| - 1];
    forall k': nat, n: nat | k' > steps ensures !PayUsing(coins, v, k', n) {
      TooMany(v, last, k');
      if PayUsing(coins, v, k', n) { AtLeastOnePerUnit(coins[..|coins| - 1], v - k' * last, n); }
    }
  }

  lemma TooMany(v: nat, last: int, k: nat)
    requires last > 0 && k > v / last
    ensures k * last > v
  {
    Distribute(k, v / last, last);
    MulAtLeast(k - v / last, last);
  }

  lemma CoverStep(coins: seq<int>, v: int, k: nat, mink: int, n: int)
    requires coins != [] && Covered(coins, v, k, mink)
    requires IsFewest(coins[..|coins| - 1], v - k * coins[|coins| - 1], n)
    ensures Covered(coins, v, k - 1, if n >= 0 && n + k < mink then n + k else mink)
  {
  }

  lemma CoverPruned(coins: seq<int>, v: nat, k: nat, mink: int)
    requires |coins| >= 2 && SortedCoins(coins) && k * coins[|coins| - 1] <= v
    requires Covered(coins, v, k, mink)
    requires var x, y := v - k * coins[|coins| - 1], coins[|coins| - 2]; k + (x + y - 1) / y >= mink
    ensures Covered(coins, v, -1, mink)
  {
    var last, y := coins[|coins| - 1], coins[|coins| - 2];
    forall k': nat, n: nat | k' > -1 && PayUsing(coins, v, k', n) ensures mink <= n + k' {
      if k' <= k {
        var rest :| |rest| == n && Pays(coins[..|coins| - 1], rest, v - k' * last);
        PaysBounds(coins[..|coins| - 1], rest, v - k' * last, y);
        BoundNeverFalls(v, last, y, k, k', n);
      }
    }
  }

  /** When all uses of the largest coin are covered, the answer stands. */
  lemma CoverEnd(coins: seq<int>, v: nat, mink: int)
    requires coins != [] && SortedCoins(coins) && Covered(coins, v, -1, mink)
    requires 0 <= mink <= v + 1 && (mink <= v ==> CanPay(coins, v, mink))
    ensures IsFewest(coins, v, if mink > v then -1 else mink)
  {
    forall n: nat | CanPay(coins, v, n) ensures mink <= n <= v {
      var picks :| |picks| == n && Pays(coins, picks, v);
      PaysBounds(coins, picks, v, coins[|coins| - 1]);
      var k, rest := SplitLast(coins, picks, v);
      assert PayUsing(coins, v, k, |rest|);
    }
  }

  lemma NothingIsFewest(coins: seq<int>)
    ensures IsFewest(coins, 0, 0)
  {
    assert Sum([]) == 0 && Pays(coins, [], 0);
  }

  lemma NoCoins(v: int)
    requires v != 0
    ensures IsFewest([], v, -1)
  {
    forall n: nat ensures !CanPay([], v, n) {
      forall picks ensures !Pays([], picks, v) { if picks != [] { assert picks[0] !in []; } }
    }
  }

  /** The private overload: the first `end` coins of the sorted array. */
  method Pruned(coins: seq<int>, end: nat, v: nat) returns (r: int)
    requires end <= |coins| && SortedCoins(coins)
    ensures IsFewest(coins[..end], v, r)
    decreases end
  {
    if v == 0 { NothingIsFewest(coins[..end]); return 0; }
    if end == 0 { assert coins[..0] == []; NoCoins(v); return -1; }
    ghost var cs := coins[..end];
    assert cs[..end - 1] == coins[..end - 1];
    var last := coins[end - 1];
    assert SortedCoins(cs) && last > 0 && (end > 1 ==> coins[end - 2] > 0);
    hide IsFewest, Covered, CanPay, SortedCoins;
    var steps := v / last;
    if v % last == 0 {
      DivisibleIsFewest(cs, v);
      return steps;
    }
    var mink := v + 1;
    var k := steps;
    CoverStart(cs, v, steps, mink);
    StepsFit(v, last);
    while k >= 0
      invariant -1 <= k <= steps && 0 <= mink <= v + 1
      invariant k * last <= v
      invariant Covered(cs, v, k, mink)
      invariant mink <= v ==> CanPay(cs, v, mink)
    {
      var x := v - k * last;
      if end != 1 {
        var y := coins[end - 2];
        if k + (x + y - 1) / y >= mink {
          CoverPruned(cs, v, k, mink);
          break;
        }
      }
      var n := Pruned(coins, end - 1, x);
      mink := BetterOf(cs, v, k, mink, n);
      Distribute(k, 1, last);
      k := k - 1;
    }
    CoverEnd(cs, v, mink);
    return if mink > v then -1 else mink;
  }

  lemma StepsFit(v: nat, last: int)
    requires last > 0
    ensures 0 <= (v / last) * last <= v
  {
  }

  /** The loop's update of mink with the answer n for the rest. */
  method BetterOf(ghost cs: seq<int>, ghost v: nat, k: nat, mink: int, n: int) returns (better: int)
    requires cs != [] && Covered(cs, v, k, mink) && mink >= 0
    requires IsFewest(cs[..|cs| - 1], v - k * cs[|cs| - 1], n)
    requires mink <= v ==> CanPay(cs, v, mink)
    ensures 0 <= better <= mink && Covered(cs, v, k - 1, better)
    ensures better <= v ==> CanPay(cs, v, better)
  {
    CoverStep(cs, v, k, mink, n);
    better := mink;
    if n >= 0 {
      JoinLast(cs, v, k, n);
      better := if n + k < mink then n + k else mink;
    }
  }

  /** The public function: sort the denominations in place, then recurse. */
  method CoinChange(coins: array<int>, amount: nat) returns (r: int)
    requires Positive(coins[..])
    modifies coins
    ensures multiset(coins[..]) == multiset(old(coins[..]))
    ensures IsFewest(old(coins[..]), amount, r)
  {
    ghost var given := coins[..];
    Sort(coins, (x, y) => x < y, (x: int) => true);
    forall i | 0 <= i < coins.Length ensures coins[..][i] > 0 {
      assert coins[..][i] in multiset(given);
    }
    r := Pruned(coins[..], coins.Length, amount);
    assert coins[..][..coins.Length] == coins[..];
    forall n: nat ensures CanPay(given, amount, n) <==> CanPay(coins[..], amount, n) {
      CanPayPermutes(given, coins[..], amount, n);
    }
  }

  // ---------- dynamic programming ----------

  /** The last coin of a payment is one of the denominations. */
  lemma LastPick(coins: seq<int>, v: int, n: nat) returns (c: int)
    requires CanPay(coins, v, n) && n > 0
    ensures c in coins && CanPay(coins, v - c, n - 1)
  {
    var picks :| |picks| == n && Pays(coins, picks, v);
    c := picks[n - 1];
    assert Pays(coins, picks[..n - 1], v - c);
  }

  lemma NoPicks(coins: seq<int>, v: int, n: nat)
    requires CanPay(coins, v, n) && v > 0
    ensures n > 0
  {
  }

  lemma AddPick(coins: seq<int>, v: int, n: nat, c: int)
    requires CanPay(coins, v, n) && c in coins
    ensures CanPay(coins, v + c, n + 1)
  {
    var picks :| |picks| == n && Pays(coins, picks, v);
    assert (picks + [c])[..n] == picks;
    assert Pays(coins, picks + [c], v + c);
  }

  lemma AtLeastOnePerUnit(coins: seq<int>, v: int, n: nat)
    requires Positive(coins) && CanPay(coins, v, n)
    ensures n <= v && (v == 0 ==> n == 0)
  {
    var picks :| |picks| == n && Pays(coins, picks, v);
    var largest := Largest(coins);
    PaysBounds(coins, picks, v, largest);
  }

  lemma {:induction false} Largest(coins: seq<int>) returns (m: int)
    ensures forall i :: 0 <= i < |coins| ==> coins[i] <= m
  {
    if coins == [] { return 0; }
    m := Largest(coins[..|coins| - 1]);
    if coins[|coins| - 1] > m { m := coins[|coins| - 1]; }
  }

  /** What an entry of the table means; amount + 1 stands for "not payable". */
  ghost predicate Entry(coins: seq<int>, i: nat, s: int, amount: nat)
  {
    0 <= s <= amount + 1 && IsFewest(coins, i, if s == amount + 1 then -1 else s)
  }

  /** i can be paid with n coins and then one of denomination c. */
  ghost predicate PayEnding(coins: seq<int>, i: int, c: int, n: nat)
  {
    CanPay(coins, i - c, n)
  }

  /** The entry for i after trying the first j denominations as the last coin. */
  ghost predicate Partial(coins: seq<int>, i: nat, j: nat, s: int, amount: nat)
  {
    && j <= |coins| && 0 <= s <= amount + 1 && (s <= amount ==> CanPay(coins, i, s))
    && forall c: int, n: nat :: c in coins[..j] && PayEnding(coins, i, c, n) ==> s <= n + 1
  }

  lemma PartialStep(coins: seq<int>, i: nat, j: nat, s: int, prev: int, amount: nat)
    requires Positive(coins) && i <= amount && j < |coins| && Partial(coins, i, j, s, amount)
    requires coins[j] <= i ==> Entry(coins, i - coins[j], prev, amount)
    ensures Partial(coins, i, j + 1, if coins[j] <= i && prev + 1 < s then prev + 1 else s, amount)
  {
    var s' := if coins[j] <= i && prev + 1 < s then prev + 1 else s;
    if s' != s { AddPick(coins, i - coins[j], prev, coins[j]); }
    forall c: int, n: nat | c in coins[..j + 1] && PayEnding(coins, i, c, n) ensures s' <= n + 1 {
      AtLeastOnePerUnit(coins, i - c, n);
      assert c in coins[..j] || c == coins[j];
    }
  }

  lemma PartialEnd(coins: seq<int>, i: nat, s: int, amount: nat)
    requires Positive(coins) && 0 < i <= amount && Partial(coins, i, |coins|, s, amount)
    ensures Entry(coins, i, s, amount)
  {
    assert coins[..|coins|] == coins;
    forall n: nat | CanPay(coins, i, n) ensures s <= n <= amount {
      AtLeastOnePerUnit(coins, i, n);
      NoPicks(coins, i, n);
      var c := LastPick(coins, i, n);
      assert PayEnding(coins, i, c, n - 1);
    }
  }

  method CoinChangeDP(coins: array<int>, amount: nat) returns (r: int)
    requires Positive(coins[..])
    ensures IsFewest(coins[..], amount, r)
  {
    hide IsFewest, CanPay, Partial;
    ghost var cs := coins[..];
    var steps := new int[amount + 1](_ => amount + 1);
    steps[0] := 0;
    NothingIsFewest(cs);
    var i := 1;
    while i < amount + 1
      invariant 1 <= i <= amount + 1 && coins[..] == cs
      invariant forall a :: 0 <= a < i ==> Entry(cs, a, steps[a], amount)
      invariant forall a :: i <= a <= amount ==> steps[a] == amount + 1
    {
      PartialStart(cs, i, amount);
      var j := 0;
      while j < coins.Length
        invariant 0 <= j <= coins.Length && coins[..] == cs
        invariant forall a :: 0 <= a < i ==> Entry(cs, a, steps[a], amount)
        invariant forall a :: i < a <= amount ==> steps[a] == amount + 1
        invariant Partial(cs, i, j, steps[i], amount)
      {
        PartialStep(cs, i, j, steps[i], if coins[j] <= i then steps[i - coins[j]] else 0, amount);
        if coins[j] <= i {
          steps[i] := if steps[i - coins[j]] + 1 < steps[i] then steps[i - coins[j]] + 1 else steps[i];
        }
        j := j + 1;
      }
      PartialEnd(cs, i, steps[i], amount);
      i := i + 1;
    }
    return if steps[amount] > amount then -1 else steps[amount];
  }

  lemma PartialStart(coins: seq<int>, i: nat, amount: nat)
    ensures Partial(coins, i, 0, amount + 1, amount)
  {
  }
}
