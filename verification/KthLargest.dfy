/** The selections of hobbies/leetcode/algorithms/solution_215.cpp: the k-th largest
    element by partial heap sort, with the heap at the front of the shrinking array
    or at a moving start. */
module KthLargest {
  import opened Reversal

  // ---------- the k-th largest ----------

  /** s consists of k - 1 elements not below v, v itself, and elements not above v. */
  ghost predicate IsKth(s: seq<int>, k: nat, v: int)
  {
    exists high: multiset<int>, low: multiset<int> :: Around(s, k, v, high, low)
  }

  ghost predicate Around(s: seq<int>, k: nat, v: int, high: multiset<int>, low: multiset<int>)
  {
    && |high| + 1 == k && multiset(s) == high + multiset{v} + low
    && (forall x :: x in high ==> x >= v) && (forall x :: x in low ==> x <= v)
  }

  /** Everything from w on is among the elements placed above a smaller v. */
  lemma NoneSmaller(s: seq<int>, k: nat, v: int, high: multiset<int>, low: multiset<int>,
                    w: int, high': multiset<int>, low': multiset<int>)
    requires Around(s, k, v, high, low) && Around(s, k, w, high', low')
    ensures v >= w
  {
    if v < w { FitsAbove(multiset(s), high, v, low, high', w, low'); }
  }

  lemma FitsAbove(m: multiset<int>, high: multiset<int>, v: int, low: multiset<int>, high': multiset<int>, w: int, low': multiset<int>)
    requires v < w && m == high + multiset{v} + low == high' + multiset{w} + low'
    requires (forall x :: x in low ==> x <= v) && (forall x :: x in high' ==> x >= w)
    ensures |high'| + 1 <= |high|
  {
    var top := high' + multiset{w};
    forall x ensures top[x] <= high[x] {
      assert m[x] == (high + multiset{v} + low)[x] == (top + low')[x];
    }
    assert high == top + (high - top);
  }

  /** There is only one k-th largest element. */
  lemma KthIsUnique(s: seq<int>, k: nat, v: int, w: int)
    requires IsKth(s, k, v) && IsKth(s, k, w)
    ensures v == w
  {
    var high, low :| Around(s, k, v, high, low);
    var high', low' :| Around(s, k, w, high', low');
    NoneSmaller(s, k, v, high, low, w, high', low');
    NoneSmaller(s, k, w, high', low', v, high, low);
  }

  // ---------- heaps ----------

  predicate Child(i: nat, c: nat) { c == 2 * i + 1 || c == 2 * i + 2 }

  /** From position i on, no child of the heap at b with last position end is
      larger than its parent. */
  ghost predicate HeapFrom(s: seq<int>, b: nat, i: nat, end: nat)
    requires b + end < |s|
  {
    forall p: nat, c: nat :: i <= p && Child(p, c) && c <= end ==> s[b + p] >= s[b + c]
  }

  /** A heap from position i on but for the children of root, which are still no
      larger than its parent. */
  ghost predicate Sifting(s: seq<int>, b: nat, i: nat, root: nat, end: nat)
    requires b + end < |s|
  {
    && (forall p: nat, c: nat :: i <= p && p != root && Child(p, c) && c <= end ==> s[b + p] >= s[b + c])
    && (forall p: nat, c: nat :: i <= p && Child(p, root) && Child(root, c) && c <= end ==> s[b + p] >= s[b + c])
  }

  /** The child that is no smaller than its sibling, if it is larger than root. */
  ghost predicate Chosen(s: seq<int>, b: nat, root: nat, dest: nat, end: nat)
    requires b + end < |s| && root <= end
  {
    && dest <= end && (dest == root || (Child(root, dest) && s[b + dest] > s[b + root]))
    && forall c: nat :: Child(root, c) && c <= end ==> s[b + dest] >= s[b + c]
  }

  ghost function Swapped(s: seq<int>, i: nat, j: nat): (r: seq<int>)
    requires i < |s| && j < |s|
    ensures |r| == |s|
  {
    s[i := s[j]][j := s[i]]
  }

  lemma SiftStep(s: seq<int>, b: nat, i: nat, root: nat, dest: nat, end: nat)
    requires b + end < |s| && i <= root <= end && Sifting(s, b, i, root, end) && Chosen(s, b, root, dest, end) && dest != root
    ensures Sifting(Swapped(s, b + root, b + dest), b, i, dest, end)
  {
  }

  lemma SiftDone(s: seq<int>, b: nat, i: nat, root: nat, end: nat)
    requires b + end < |s| && i <= root <= end && Sifting(s, b, i, root, end) && Chosen(s, b, root, root, end)
    ensures HeapFrom(s, b, i, end)
  {
  }

  lemma {:induction false} RootIsLargest(s: seq<int>, b: nat, end: nat, p: nat)
    requires b + end < |s| && HeapFrom(s, b, 0, end) && p <= end
    ensures s[b] >= s[b + p]
    decreases p
  {
    if p > 0 {
      var parent: nat := (p - 1) / 2;
      assert Child(parent, p);
      RootIsLargest(s, b, end, parent);
    }
  }

  // ---------- the heap loops ----------

  /** A rearrangement of the heap that leaves everything else alone. */
  ghost predicate Rearranged(s: seq<int>, t: seq<int>, b: nat, end: nat)
    requires b + end < |s|
  {
    && |s| == |t| && s[..b] == t[..b] && s[b + end + 1..] == t[b + end + 1..]
    && multiset(s[b..b + end + 1]) == multiset(t[b..b + end + 1])
  }

  lemma SwapRearranges(s: seq<int>, t: seq<int>, b: nat, end: nat, i: nat, j: nat)
    requires b + end < |s| && i <= end && j <= end && Rearranged(s, t, b, end)
    ensures Rearranged(s, Swapped(t, b + i, b + j), b, end)
  {
    var h, t' := t[b..b + end + 1], Swapped(t, b + i, b + j);
    SwapPermutes(h, i, j);
    assert t'[b..b + end + 1] == h[i := h[j]][j := h[i]];
    assert t'[..b] == t[..b] && t'[b + end + 1..] == t[b + end + 1..];
  }

  lemma StartSifting(s: seq<int>, b: nat, m: nat, end: nat)
    requires b + end < |s| && HeapFrom(s, b, m + 1, end)
    ensures Sifting(s, b, m, m, end)
  {
  }

  /** Lets the element at m sink to its place among its descendants. */
  method SiftDown(nums: array<int>, b: nat, m: nat, end: nat)
    requires b + end < nums.Length && m <= end && HeapFrom(nums[..], b, m + 1, end)
    modifies nums
    ensures HeapFrom(nums[..], b, m, end) && Rearranged(old(nums[..]), nums[..], b, end)
  {
    hide HeapFrom, Sifting, Rearranged, Chosen;
    ghost var was := nums[..];
    Unmoved(was, b, end);
    StartSifting(was, b, m, end);
    var root := m;
    var dest := root;
    var left := 2 * root + 1;
    while left <= end
      invariant m <= root <= end && left == 2 * root + 1 && dest == root
      invariant Sifting(nums[..], b, m, root, end) && Rearranged(was, nums[..], b, end)
      decreases end - root
    {
      var right := left + 1;
      if nums[b + dest] < nums[b + left] { dest := left; }
      if right <= end && nums[b + dest] < nums[b + right] { dest := right; }
      Choice(nums[..], b, root, dest, end);
      if dest == root { break; }
      SiftStep(nums[..], b, m, root, dest, end);
      SwapRearranges(was, nums[..], b, end, root, dest);
      nums[b + root], nums[b + dest] := nums[b + dest], nums[b + root];
      root := dest;
      left := 2 * root + 1;
    }
    if left > end { Choice(nums[..], b, root, root, end); }
    SiftDone(nums[..], b, m, root, end);
  }

  lemma Unmoved(s: seq<int>, b: nat, end: nat)
    requires b + end < |s|
    ensures Rearranged(s, s, b, end)
  {
  }

  lemma Choice(s: seq<int>, b: nat, root: nat, dest: nat, end: nat)
    requires b + end < |s| && root <= end && dest <= end
    requires dest == root || (Child(root, dest) && s[b + dest] > s[b + root])
    requires 2 * root + 1 <= end ==> s[b + dest] >= s[b + 2 * root + 1]
    requires 2 * root + 2 <= end ==> s[b + dest] >= s[b + 2 * root + 2]
    ensures Chosen(s, b, root, dest, end)
  {
  }

  lemma NoChildren(s: seq<int>, b: nat, m: nat, end: nat)
    requires b + end < |s| && 2 * m + 1 > end
    ensures HeapFrom(s, b, m, end)
  {
  }

  lemma RearrangedTwice(s: seq<int>, t: seq<int>, u: seq<int>, b: nat, end: nat)
    requires b + end < |s| && Rearranged(s, t, b, end) && Rearranged(t, u, b, end)
    ensures Rearranged(s, u, b, end)
  {
  }

  /** Builds the heap from position m0 down. */
  method Heapify(nums: array<int>, b: nat, m0: nat, end: nat)
    requires b + end < nums.Length && m0 <= end && 2 * (m0 + 1) + 1 > end
    modifies nums
    ensures Rearranged(old(nums[..]), nums[..], b, end)
    ensures forall p :: b <= p <= b + end ==> nums[..][p] <= nums[..][b]
  {
    hide HeapFrom, Rearranged;
    ghost var was := nums[..];
    Unmoved(was, b, end);
    NoChildren(was, b, m0 + 1, end);
    var m := m0;
    while m >= 0
      invariant -1 <= m <= m0
      invariant HeapFrom(nums[..], b, m + 1, end) && Rearranged(was, nums[..], b, end)
    {
      ghost var before := nums[..];
      SiftDown(nums, b, m, end);
      RearrangedTwice(was, before, nums[..], b, end);
      m := m - 1;
    }
    forall p | b <= p <= b + end ensures nums[..][p] <= nums[..][b] { RootIsLargest(nums[..], b, end, p - b); }
  }

  // ---------- the two selections ----------

  lemma SameElements(s: seq<int>, t: seq<int>, b: nat, end: nat, p: nat) returns (p': nat)
    requires b + end < |s| && Rearranged(s, t, b, end) && b <= p <= b + end
    ensures b <= p' <= b + end && s[p'] == t[p]
  {
    var h, g := s[b..b + end + 1], t[b..b + end + 1];
    assert g[p - b] == t[p] && g[p - b] in multiset(g);
    assert t[p] in h;
    var i :| 0 <= i < |h| && h[i] == t[p];
    p' := b + i;
  }

  lemma RearrangedMultiset(s: seq<int>, t: seq<int>, b: nat, end: nat)
    requires b + end < |s| && Rearranged(s, t, b, end)
    ensures multiset(s) == multiset(t)
  {
    assert s == s[..b] + s[b..b + end + 1] + s[b + end + 1..];
    assert t == t[..b] + t[b..b + end + 1] + t[b + end + 1..];
  }

  lemma Outside(s: seq<int>, t: seq<int>, b: nat, end: nat, p: nat)
    requires b + end < |s| && Rearranged(s, t, b, end) && p < |s| && !(b <= p <= b + end)
    ensures s[p] == t[p]
  {
    if p < b { assert s[..b][p] == t[..b][p]; } else { assert s[b + end + 1..][p - b - end - 1] == t[b + end + 1..][p - b - end - 1]; }
  }

  /** From position m on, every element is in its place in ascending order. */
  ghost predicate Settled(s: seq<int>, m: nat)
  {
    forall p, q :: 0 <= p < q < |s| && q >= m ==> s[p] <= s[q]
  }

  lemma SettleLast(s: seq<int>, t: seq<int>, end: nat)
    requires end < |s| && Settled(s, end + 1) && Rearranged(s, t, 0, end)
    requires forall p :: 0 <= p <= end ==> t[p] <= t[0]
    ensures Settled(Swapped(t, 0, end), end)
  {
    forall p, q | 0 <= p <= end < q < |s| ensures t[p] <= t[q] {
      var p' := SameElements(s, t, 0, end, p);
      Outside(s, t, 0, end, q);
    }
    forall p, q | end < p < q < |s| ensures t[p] <= t[q] {
      Outside(s, t, 0, end, p);
      Outside(s, t, 0, end, q);
    }
  }

  /** Before position m, every element is in its place in descending order. */
  ghost predicate Leading(s: seq<int>, m: nat)
  {
    forall p, q :: 0 <= p < q < |s| && p < m ==> s[p] >= s[q]
  }

  lemma LeadNext(s: seq<int>, t: seq<int>, b: nat, end: nat)
    requires b + end + 1 == |s| && Leading(s, b) && Rearranged(s, t, b, end)
    requires forall p :: b <= p <= b + end ==> t[p] <= t[b]
    ensures Leading(t, b + 1)
  {
    forall p, q | 0 <= p < b <= q < |s| ensures t[p] >= t[q] {
      var q' := SameElements(s, t, b, end, q);
      Outside(s, t, b, end, p);
    }
    forall p, q | 0 <= p < q < b ensures t[p] >= t[q] {
      Outside(s, t, b, end, p);
      Outside(s, t, b, end, q);
    }
  }

  lemma SettledKth(s: seq<int>, was: seq<int>, k: nat)
    requires 0 < k <= |s| && multiset(s) == multiset(was) && Settled(s, |s| - k)
    ensures IsKth(was, k, s[|s| - k])
  {
    var m := |s| - k;
    var low, v, high := s[..m], s[m], s[m + 1..];
    assert s == low + [v] + high;
    assert Around(was, k, v, multiset(high), multiset(low));
  }

  lemma LeadingKth(s: seq<int>, was: seq<int>, k: nat)
    requires 0 < k <= |s| && multiset(s) == multiset(was) && Leading(s, k)
    ensures IsKth(was, k, s[k - 1])
  {
    var high, v, low := s[..k - 1], s[k - 1], s[k..];
    assert s == high + [v] + low;
    assert Around(was, k, v, multiset(high), multiset(low));
  }

  /** The heap at the front of a shrinking prefix. */
  method FindKthLargest(nums: array<int>, k: nat) returns (v: int)
    requires 0 < k <= nums.Length
    modifies nums
    ensures multiset(nums[..]) == multiset(old(nums[..]))
    ensures IsKth(old(nums[..]), k, v)
  {
    hide Rearranged, IsKth, Settled;
    ghost var was := nums[..];
    NothingPlaced(was);
    var r := k;
    while r > 0
      invariant 0 <= r <= k && Settled(nums[..], nums.Length - (k - r))
      invariant multiset(nums[..]) == multiset(was)
    {
      var end := nums.Length + r - k - 1;
      ghost var before := nums[..];
      Heapify(nums, 0, end / 2, end);
      SettleLast(before, nums[..], end);
      RearrangedMultiset(before, nums[..], 0, end);
      SwapPermutes(nums[..], 0, end);
      nums[0], nums[end] := nums[end], nums[0];
      r := r - 1;
    }
    SettledKth(nums[..], was, k);
    v := nums[nums.Length - k];
  }

  lemma NothingPlaced(s: seq<int>)
    ensures Settled(s, |s|) && Leading(s, 0)
  {
  }

  /** The heap on what remains behind a growing front. */
  method FindKthLargest2(nums: array<int>, k: nat) returns (v: int)
    requires 0 < k <= nums.Length
    modifies nums
    ensures multiset(nums[..]) == multiset(old(nums[..]))
    ensures IsKth(old(nums[..]), k, v)
  {
    hide Rearranged, IsKth, Leading;
    ghost var was := nums[..];
    NothingPlaced(was);
    var r, s := k, 0;
    while r > 0
      invariant 0 <= r && s == k - r && Leading(nums[..], s)
      invariant multiset(nums[..]) == multiset(was)
    {
      var end := nums.Length - 1 - s;
      ghost var before := nums[..];
      Heapify(nums, s, (nums.Length - s) / 2, end);
      LeadNext(before, nums[..], s, end);
      RearrangedMultiset(before, nums[..], s, end);
      r, s := r - 1, s + 1;
    }
    LeadingKth(nums[..], was, k);
    v := nums[k - r - 1];
  }
}
