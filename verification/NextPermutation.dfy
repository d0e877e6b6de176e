/** The two in-place successors of hobbies/leetcode/algorithms/solution_31.cpp. */
module NextPermutation {
  import opened Reversal

  // ---------- the order ----------

  ghost predicate SamePrefix(a: seq<int>, b: seq<int>, k: nat)
  {
    k <= |a| && k <= |b| && forall m :: 0 <= m < k ==> a[m] == b[m]
  }

  /** a precedes b, the first difference being at k. */
  ghost predicate LessAt(a: seq<int>, b: seq<int>, k: nat)
  {
    |a| == |b| && k < |a| && SamePrefix(a, b, k) && a[k] < b[k]
  }

  ghost predicate Less(a: seq<int>, b: seq<int>)
  {
    exists k: nat :: LessAt(a, b, k)
  }

  ghost predicate Permutes(a: seq<int>, b: seq<int>) { multiset(a) == multiset(b) }

  /** s does not descend from position i on. */
  ghost predicate Ascending(s: seq<int>, i: nat)
  {
    forall p, q :: i <= p < q < |s| ==> s[p] <= s[q]
  }

  ghost predicate Descending(s: seq<int>, i: nat)
  {
    forall p, q :: i <= p < q < |s| ==> s[p] >= s[q]
  }

  /** b is the immediate successor of a among the arrangements of a's elements. */
  ghost predicate IsSuccessor(a: seq<int>, b: seq<int>)
  {
    && Permutes(a, b) && Less(a, b)
    && forall c :: Permutes(a, c) && Less(a, c) ==> c == b || Less(b, c)
  }

  /** What the header comment of the file asks for. */
  ghost predicate IsNext(a: seq<int>, b: seq<int>)
  {
    if Descending(a, 0) then Permutes(a, b) && Ascending(b, 0) else IsSuccessor(a, b)
  }

  lemma LessIsStrict(a: seq<int>, b: seq<int>)
    requires Less(a, b)
    ensures !Less(b, a) && a != b
  {
    var k: nat :| LessAt(a, b, k);
  }

  lemma SameLength(a: seq<int>, c: seq<int>)
    requires Permutes(a, c)
    ensures |a| == |c|
  {
    assert |multiset(a)| == |multiset(c)|;
  }

  /** Where equal prefixes end, c continues with some remaining element of a. */
  lemma NextElement(a: seq<int>, c: seq<int>, k: nat) returns (m: nat)
    requires Permutes(a, c) && k < |c| && k < |a| && SamePrefix(a, c, k)
    ensures k <= m < |a| && a[m] == c[k]
  {
    assert a[..k] == c[..k];
    assert a == a[..k] + a[k..] && c == c[..k] + c[k..];
    assert multiset(a[k..]) == multiset(a) - multiset(a[..k]);
    assert multiset(c[k..]) == multiset(c) - multiset(c[..k]);
    assert c[k..][0] in multiset(c[k..]);
    assert c[k] in a[k..];
    var i :| 0 <= i < |a[k..]| && a[k..][i] == c[k];
    m := k + i;
  }

  lemma {:induction false} FirstDifference(a: seq<int>, b: seq<int>, from: nat) returns (k: nat)
    requires |a| == |b| && a != b && SamePrefix(a, b, from)
    ensures from <= k < |a| && SamePrefix(a, b, k) && a[k] != b[k]
    decreases |a| - from
  {
    if a[from] == b[from] {
      k := FirstDifference(a, b, from + 1);
    } else {
      k := from;
    }
  }

  /** An arrangement is descending exactly when none is greater. */
  lemma DescendingIsGreatest(a: seq<int>)
    ensures Descending(a, 0) <==> forall c :: Permutes(a, c) ==> !Less(a, c)
  {
    if Descending(a, 0) {
      forall c | Permutes(a, c) ensures !Less(a, c) {
        if Less(a, c) {
          var k: nat :| LessAt(a, c, k);
          var m := NextElement(a, c, k);
        }
      }
    } else {
      var i, j :| 0 <= i < j < |a| && a[i] < a[j];
      var c := a[i := a[j]][j := a[i]];
      SwapPermutes(a, i, j);
      assert LessAt(a, c, i);
      assert Permutes(a, c) && Less(a, c);
    }
  }

  /** With equal prefixes, the arrangement whose rest ascends comes first. */
  lemma AscendingIsLeast(b: seq<int>, c: seq<int>, k: nat)
    requires Permutes(b, c) && |b| == |c| && SamePrefix(b, c, k) && Ascending(b, k)
    ensures c == b || Less(b, c)
  {
    if c != b {
      var d := FirstDifference(b, c, k);
      var m := NextElement(b, c, d);
      assert LessAt(b, c, d);
    }
  }

  /** There is only one array to produce, so the two functions agree. */
  lemma NextIsUnique(a: seq<int>, b: seq<int>, c: seq<int>)
    requires IsNext(a, b) && IsNext(a, c)
    ensures b == c
  {
    SameLength(b, c);
    if Descending(a, 0) {
      AscendingIsLeast(b, c, 0);
      AscendingIsLeast(c, b, 0);
    }
    if Less(b, c) { LessIsStrict(b, c); }
  }

  // ---------- one exchange and one reversal ----------

  /** The situation both functions look for: i is the last ascent and j the last
      element beyond it that is greater than a[i]. */
  ghost predicate Pivot(a: seq<int>, i: nat, j: nat)
  {
    && i < j < |a| && a[i] < a[i + 1]
    && Descending(a, i + 1)
    && a[i] < a[j] && (forall m :: j < m < |a| ==> a[m] <= a[i])
  }

  ghost function Exchange(a: seq<int>, i: nat, j: nat): (b: seq<int>)
    requires i < j < |a|
    ensures |b| == |a|
  {
    Mirrored(a[i := a[j]][j := a[i]], i + 1, |a| - 1)
  }

  lemma ExchangePermutes(a: seq<int>, i: nat, j: nat)
    requires i < j < |a|
    ensures Permutes(a, Exchange(a, i, j))
  {
    SwapPermutes(a, i, j);
    MirrorPermutes(a[i := a[j]][j := a[i]], i + 1, |a| - 1);
  }

  lemma ExchangeAscends(a: seq<int>, i: nat, j: nat)
    requires Pivot(a, i, j)
    ensures SamePrefix(a, Exchange(a, i, j), i) && Exchange(a, i, j)[i] == a[j]
    ensures Ascending(Exchange(a, i, j), i + 1)
  {
    var s := a[i := a[j]][j := a[i]];
    var b := Exchange(a, i, j);
    assert Descending(s, i + 1);
    forall p, q | i + 1 <= p < q < |b| ensures b[p] <= b[q] {
      assert b[p] == s[i + |a| - p] && b[q] == s[i + |a| - q];
    }
  }

  /** Nothing lies strictly between a and the exchanged array. */
  lemma ExchangeBelow(a: seq<int>, i: nat, j: nat, c: seq<int>, k: nat)
    requires Pivot(a, i, j) && Permutes(a, c) && LessAt(a, c, k)
    ensures c == Exchange(a, i, j) || Less(Exchange(a, i, j), c)
  {
    var b := Exchange(a, i, j);
    ExchangePermutes(a, i, j);
    ExchangeAscends(a, i, j);
    hide Exchange;
    var m := NextElement(a, c, k);
    if k < i {
      assert LessAt(b, c, k);
    } else if k == i {
      if c[i] > b[i] {
        assert LessAt(b, c, i);
      } else {
        assert m <= j;
        AscendingIsLeast(b, c, i + 1);
      }
    }
  }

  lemma ExchangeIsNext(a: seq<int>, i: nat, j: nat)
    requires Pivot(a, i, j)
    ensures IsNext(a, Exchange(a, i, j))
  {
    var b := Exchange(a, i, j);
    ExchangePermutes(a, i, j);
    ExchangeAscends(a, i, j);
    assert LessAt(a, b, i);
    forall c | Permutes(a, c) && Less(a, c) ensures c == b || Less(b, c) {
      var k :| LessAt(a, c, k);
      ExchangeBelow(a, i, j, c, k);
    }
    assert !Descending(a, 0);
  }

  lemma ReversalIsNext(a: seq<int>)
    requires Descending(a, 0)
    ensures IsNext(a, Mirrored(a, 0, |a| - 1))
  {
    MirrorPermutes(a, 0, |a| - 1);
    var b := Mirrored(a, 0, |a| - 1);
    forall p, q | 0 <= p < q < |b| ensures b[p] <= b[q] {
      assert b[p] == a[|a| - 1 - p] && b[q] == a[|a| - 1 - q];
    }
  }

  // ---------- the code ----------

  method Swap(nums: array<int>, i: nat, j: nat)
    requires i < nums.Length && j < nums.Length
    modifies nums
    ensures nums[..] == old(nums[..][i := nums[j]][j := nums[i]])
  {
    nums[i], nums[j] := nums[j], nums[i];
  }

  method Next(nums: array<int>)
    requires nums.Length > 0
    modifies nums
    ensures IsNext(old(nums[..]), nums[..])
  {
    hide IsNext, Mirrored;
    var last := nums.Length;
    if last == 1 {
      SingletonIsNext(nums[..]);
      return;
    }
    var i := last - 1;
    while true
      invariant 1 <= i < last && nums[..] == old(nums[..]) && Descending(nums[..], i)
      decreases i
    {
      var ii := i;
      i := i - 1;
      if nums[i] < nums[ii] {
        var j := last - 1;
        while nums[j] <= nums[i]
          invariant ii <= j < last
          invariant forall m :: j < m < last ==> nums[..][m] <= nums[i]
          decreases j
        {
          j := j - 1;
        }
        ExchangeIsNext(nums[..], i, j);
        Swap(nums, i, j);
        Reverse(nums, ii, last - 1);
        return;
      }
      if i == 0 {
        ReversalIsNext(nums[..]);
        Reverse(nums, 0, last - 1);
        return;
      }
    }
  }

  lemma SingletonIsNext(a: seq<int>)
    requires |a| <= 1
    ensures IsNext(a, a)
  {
  }

  /** is_sorted_until over the reversed array: the first t whose element,
      counted from the back, is smaller than the one before it. */
  method SortedUntilFromBack(nums: array<int>) returns (t: nat)
    ensures t <= nums.Length && (nums.Length > 0 ==> t > 0)
    ensures Descending(nums[..], nums.Length - t)
    ensures t < nums.Length ==> nums[nums.Length - 1 - t] < nums[nums.Length - t]
  {
    var n := nums.Length;
    if n == 0 { return 0; }
    t := 1;
    while t < n
      invariant 1 <= t <= n && Descending(nums[..], n - t)
    {
      if nums[n - 1 - t] < nums[n - t] { return; }
      t := t + 1;
    }
  }

  /** upper_bound over the first t elements from the back, by bisection. */
  method UpperBoundFromBack(nums: array<int>, t: nat, value: int) returns (u: nat)
    requires t <= nums.Length && Descending(nums[..], nums.Length - t)
    ensures u <= t
    ensures forall p :: nums.Length - u <= p < nums.Length ==> nums[..][p] <= value
    ensures forall p :: nums.Length - t <= p < nums.Length - u ==> nums[..][p] > value
  {
    var n := nums.Length;
    var lo, hi := 0, t;
    while lo < hi
      invariant 0 <= lo <= hi <= t
      invariant forall p :: n - lo <= p < n ==> nums[..][p] <= value
      invariant forall p :: n - t <= p < n - hi ==> nums[..][p] > value
    {
      var mid := (lo + hi) / 2;
      assert nums[..][n - 1 - mid] == nums[n - 1 - mid];
      if value < nums[n - 1 - mid] {
        hi := mid;
      } else {
        lo := mid + 1;
      }
    }
    u := lo;
  }

  method Next2(nums: array<int>)
    modifies nums
    ensures IsNext(old(nums[..]), nums[..])
  {
    hide IsNext, Mirrored;
    var n := nums.Length;
    var t := SortedUntilFromBack(nums);
    if t != n {
      var i := n - 1 - t;
      var u := UpperBoundFromBack(nums, t, nums[i]);
      assert nums[..][n - t] > nums[i];
      assert nums[..][n - 1 - u] > nums[i];
      ExchangeIsNext(nums[..], i, n - 1 - u);
      Swap(nums, i, n - 1 - u);
    } else {
      ReversalIsNext(nums[..]);
    }
    Reverse(nums, n - t, n - 1);
  }
}
