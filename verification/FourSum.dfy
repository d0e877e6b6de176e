/** The distinct quadruples found by hobbies/leetcode/algorithms/solution_18.cpp. */
module FourSum {
  import opened Sorting

  datatype Quad = Quad(a: int, b: int, c: int, d: int)

  /** A non-descending choice of four elements of nums that add up to the target. */
  ghost predicate IsSolution(nums: seq<int>, target: int, q: Quad)
  {
    && q.a <= q.b <= q.c <= q.d && q.a + q.b + q.c + q.d == target
    && multiset{q.a, q.b, q.c, q.d} <= multiset(nums)
  }

  ghost predicate Distinct(qs: seq<Quad>) { forall x, y :: 0 <= x < y < |qs| ==> qs[x] != qs[y] }

  // ---------- choices and positions ----------

  /** t can be read off s from left to right. */
  ghost predicate Subsequence(t: seq<int>, s: seq<int>)
  {
    t == [] || (s != [] && ((t[0] == s[0] && Subsequence(t[1..], s[1..])) || Subsequence(t, s[1..])))
  }

  lemma {:induction false} SubsequenceIsChoice(t: seq<int>, s: seq<int>)
    requires Ascending(t) && Ascending(s)
    ensures Subsequence(t, s) <==> multiset(t) <= multiset(s)
  {
    if t == [] {
    } else if s == [] {
      assert t[0] in multiset(t);
    } else {
      hide Ascending;
      TailAscends(t);
      TailAscends(s);
      SubsequenceIsChoice(t, s[1..]);
      SubsequenceIsChoice(t[1..], s[1..]);
      Uncover(t, s);
      if t[0] != s[0] && multiset(t) <= multiset(s) { HeadMissing(t, s); }
    }
  }

  lemma TailAscends(s: seq<int>)
    requires Ascending(s) && s != []
    ensures Ascending(s[1..])
  {
  }

  /** A common head makes no difference, a longer sequence offers no less. */
  lemma Uncover(t: seq<int>, s: seq<int>)
    requires t != [] && s != []
    ensures t[0] == s[0] ==> (multiset(t[1..]) <= multiset(s[1..]) <==> multiset(t) <= multiset(s))
    ensures multiset(t) <= multiset(s[1..]) ==> multiset(t) <= multiset(s)
  {
    var x, y, t', s' := t[0], s[0], multiset(t[1..]), multiset(s[1..]);
    assert t == [x] + t[1..] && s == [y] + s[1..];
    assert multiset(t) == t' + multiset{x} && multiset(s) == s' + multiset{y};
    if x == y && t' + multiset{x} <= s' + multiset{x} {
      forall v ensures t'[v] <= s'[v] { assert (t' + multiset{x})[v] <= (s' + multiset{x})[v]; }
    }
  }

  lemma HeadMissing(t: seq<int>, s: seq<int>)
    requires Ascending(t) && Ascending(s) && t != [] && s != [] && t[0] != s[0] && multiset(t) <= multiset(s)
    ensures multiset(t) <= multiset(s[1..])
  {
    assert s == [s[0]] + s[1..];
    assert t[0] in multiset(t);
    assert t[0] in s;
    assert s[0] < t[0];
    assert s[0] !in t;
  }

  ghost predicate Positions(s: seq<int>, q: Quad, i: nat, j: nat, k: nat, m: nat)
  {
    i < j < k < m < |s| && s[i] == q.a && s[j] == q.b && s[k] == q.c && s[m] == q.d
  }

  /** The first element of a subsequence and where the rest is found. */
  lemma {:induction false} FirstPosition(t: seq<int>, s: seq<int>, from: nat) returns (i: nat)
    requires t != [] && from <= |s| && Subsequence(t, s[from..])
    ensures from <= i < |s| && s[i] == t[0] && Subsequence(t[1..], s[i + 1..])
    decreases |s| - from
  {
    assert s[from..][1..] == s[from + 1..];
    if t[0] == s[from] && Subsequence(t[1..], s[from + 1..]) {
      i := from;
    } else {
      i := FirstPosition(t, s, from + 1);
    }
  }

  lemma {:induction false} AtPosition(t: seq<int>, s: seq<int>, from: nat, i: nat)
    requires t != [] && from <= i < |s| && s[i] == t[0] && Subsequence(t[1..], s[i + 1..])
    ensures Subsequence(t, s[from..])
    decreases i - from
  {
    assert s[from..][1..] == s[from + 1..];
    if from < i { AtPosition(t, s, from + 1, i); }
  }

  ghost function Values(q: Quad): seq<int> { [q.a, q.b, q.c, q.d] }

  lemma ValuesUnfold(q: Quad)
    ensures Values(q)[1..] == [q.b, q.c, q.d] && [q.b, q.c, q.d][1..] == [q.c, q.d] && [q.c, q.d][1..] == [q.d] && [q.d][1..] == []
  {
  }

  lemma NothingToFind(t: seq<int>, s: seq<int>)
    requires t == []
    ensures Subsequence(t, s)
  {
  }

  lemma ToPositions(s: seq<int>, q: Quad) returns (i: nat, j: nat, k: nat, m: nat)
    requires Subsequence(Values(q), s)
    ensures Positions(s, q, i, j, k, m)
  {
    hide Subsequence;
    ValuesUnfold(q);
    assert s[0..] == s;
    i := FirstPosition(Values(q), s, 0);
    j := FirstPosition([q.b, q.c, q.d], s, i + 1);
    k := FirstPosition([q.c, q.d], s, j + 1);
    m := FirstPosition([q.d], s, k + 1);
  }

  lemma FromPositions(s: seq<int>, q: Quad, i: nat, j: nat, k: nat, m: nat)
    requires Positions(s, q, i, j, k, m)
    ensures Subsequence(Values(q), s)
  {
    hide Subsequence;
    ValuesUnfold(q);
    NothingToFind([q.d][1..], s[m + 1..]);
    AtPosition([q.d], s, k + 1, m);
    AtPosition([q.c, q.d], s, j + 1, k);
    AtPosition([q.b, q.c, q.d], s, i + 1, j);
    AtPosition(Values(q), s, 0, i);
    assert s[0..] == s;
  }

  /** In a sorted sequence the choices are the increasing quadruples of positions. */
  lemma SolutionPositions(s: seq<int>, target: int, q: Quad)
    requires Ascending(s)
    ensures IsSolution(s, target, q) <==>
            q.a + q.b + q.c + q.d == target && exists i: nat, j: nat, k: nat, m: nat :: Positions(s, q, i, j, k, m)
  {
    if Subsequence(Values(q), s) { var i, j, k, m := ToPositions(s, q); }
    if i: nat, j: nat, k: nat, m: nat :| Positions(s, q, i, j, k, m) { FromPositions(s, q, i, j, k, m); }
    assert multiset(Values(q)) == multiset{q.a, q.b, q.c, q.d};
    hide Subsequence;
    if q.a <= q.b <= q.c <= q.d { SubsequenceIsChoice(Values(q), s); }
  }

  // ---------- two elements fixed ----------

  ghost predicate Hit(s: seq<int>, target: int, i: nat, j: nat, k: nat, m: nat)
  {
    i < j < k < m < |s| && s[i] + s[j] + s[k] + s[m] == target
  }

  ghost function QuadAt(s: seq<int>, i: nat, j: nat, k: nat, m: nat): Quad
    requires i < j < k < m < |s|
  {
    Quad(s[i], s[j], s[k], s[m])
  }

  ghost predicate FromHits(found: seq<Quad>, s: seq<int>, target: int, i: nat, j: nat)
  {
    forall q :: q in found ==> exists k: nat, m: nat :: Hit(s, target, i, j, k, m) && q == QuadAt(s, i, j, k, m)
  }

  /** Every hit is found or lies between the two pointers. */
  ghost predicate NoneMissed(found: seq<Quad>, s: seq<int>, target: int, i: nat, j: nat, k: int, m: int)
  {
    forall p: nat, r: nat :: Hit(s, target, i, j, p, r) ==> QuadAt(s, i, j, p, r) in found || (k <= p && r <= m)
  }

  /** Everything found so far has a smaller third element than the next. */
  ghost predicate Below(found: seq<Quad>, s: seq<int>, k: int, m: int)
  {
    k < m && 0 <= k < |s| ==> forall q :: q in found ==> q.c < s[k]
  }

  /** Both pointers may leave behind elements equal to those of an answer. */
  lemma SkipEqual(found: seq<Quad>, s: seq<int>, target: int, i: nat, j: nat, k: nat, m: nat, k': nat, m': nat)
    requires Ascending(s) && Hit(s, target, i, j, k, m) && QuadAt(s, i, j, k, m) in found
    requires NoneMissed(found, s, target, i, j, k, m)
    requires k <= k' <= m && (forall p :: k <= p < k' ==> s[p] == s[k])
    requires k' <= m' <= m && (forall r :: m' < r <= m ==> s[r] == s[m])
    ensures NoneMissed(found, s, target, i, j, k', m')
  {
    forall p: nat, r: nat | Hit(s, target, i, j, p, r) ensures QuadAt(s, i, j, p, r) in found || (k' <= p && r <= m') {
      if k <= p < k' {
        assert QuadAt(s, i, j, p, r) == QuadAt(s, i, j, k, m);
      } else if m' < r <= m {
        assert QuadAt(s, i, j, p, r) == QuadAt(s, i, j, k, m);
      }
    }
  }

  /** The inner two-pointer search. */
  method Pairs(nums: array<int>, i: nat, j: nat, target: int) returns (found: seq<Quad>)
    requires i < j < nums.Length && Ascending(nums[..])
    ensures FromHits(found, nums[..], target, i, j) && Distinct(found)
    ensures forall k: nat, m: nat :: Hit(nums[..], target, i, j, k, m) ==> QuadAt(nums[..], i, j, k, m) in found
  {
    found := [];
    ghost var s := nums[..];
    var exceptIJ := target - nums[i] - nums[j];
    var k, m := j + 1, nums.Length - 1;
    while k < m
      invariant j < k && k <= nums.Length && m < nums.Length
      invariant FromHits(found, s, target, i, j) && Distinct(found)
      invariant NoneMissed(found, s, target, i, j, k, m) && Below(found, s, k, m)
      decreases m - k
    {
      var sum := nums[k] + nums[m];
      if sum < exceptIJ {
        k := k + 1;
      } else if sum > exceptIJ {
        m := m - 1;
      } else {
        ghost var k0, m0, was := k, m, found;
        var answer := Quad(nums[i], nums[j], nums[k], nums[m]);
        assert Hit(s, target, i, j, k, m) && answer == QuadAt(s, i, j, k, m);
        found := found + [answer];
        while k < m && nums[k] == answer.c
          invariant k0 <= k <= m && forall p :: k0 <= p < k ==> s[p] == answer.c
          invariant k == k0 ==> k < m
        {
          k := k + 1;
        }
        while k < m && nums[m] == answer.d
          invariant k <= m <= m0 && forall r :: m < r <= m0 ==> s[r] == answer.d
        {
          m := m - 1;
        }
        SkipEqual(found, s, target, i, j, k0, m0, k, m);
      }
    }
  }

  // ---------- all quadruples ----------

  /** The solutions the loops have dealt with when they stand at i and j. */
  ghost predicate Covered(s: seq<int>, i: nat, j: nat, q: Quad)
    requires i <= |s|
  {
    q.a in s[..i] || (i < j <= |s| && q.a == s[i] && q.b in s[i + 1..j])
  }

  ghost predicate Exactly(result: seq<Quad>, s: seq<int>, target: int, i: nat, j: nat)
    requires i <= |s|
  {
    Distinct(result) && forall q :: q in result <==> IsSolution(s, target, q) && Covered(s, i, j, q)
  }

  /** No earlier element, from lo on, equals the one at i. */
  ghost predicate FirstOfItsKind(s: seq<int>, lo: nat, i: nat)
  {
    lo <= i <= |s| && (lo < i < |s| ==> s[i - 1] < s[i])
  }

  /** With first occurrences in the outer positions, the hits at i and j are all
      the solutions that begin with these two values. */
  lemma HitsAreSolutions(found: seq<Quad>, s: seq<int>, target: int, i: nat, j: nat, q: Quad)
    requires Ascending(s) && FirstOfItsKind(s, 0, i) && FirstOfItsKind(s, i + 1, j) && j < |s|
    requires FromHits(found, s, target, i, j)
    requires forall k: nat, m: nat :: Hit(s, target, i, j, k, m) ==> QuadAt(s, i, j, k, m) in found
    ensures q in found <==> IsSolution(s, target, q) && q.a == s[i] && q.b == s[j]
  {
    hide IsSolution;
    SolutionPositions(s, target, q);
    if q in found {
      var k: nat, m: nat :| Hit(s, target, i, j, k, m) && q == QuadAt(s, i, j, k, m);
      assert Positions(s, q, i, j, k, m);
    }
    if IsSolution(s, target, q) && q.a == s[i] && q.b == s[j] {
      var i': nat, j': nat, k: nat, m: nat :| Positions(s, q, i', j', k, m);
      assert i <= i' && j <= j';
      assert Hit(s, target, i, j, k, m) && q == QuadAt(s, i, j, k, m);
    }
  }

  lemma InnerStep(result: seq<Quad>, found: seq<Quad>, s: seq<int>, target: int, i: nat, j: nat, next: nat)
    requires Ascending(s) && FirstOfItsKind(s, 0, i) && FirstOfItsKind(s, i + 1, j) && j < next <= |s|
    requires forall p :: j <= p < next ==> s[p] == s[j]
    requires Exactly(result, s, target, i, j)
    requires FromHits(found, s, target, i, j) && Distinct(found)
    requires forall k: nat, m: nat :: Hit(s, target, i, j, k, m) ==> QuadAt(s, i, j, k, m) in found
    ensures Exactly(result + found, s, target, i, next)
  {
    hide IsSolution, Hit, FromHits, Distinct;
    var old', new' := s[i + 1..j], s[i + 1..next];
    assert new' == old' + s[j..next] && s[j..next][0] == s[j];
    assert s[i] !in s[..i] && s[j] !in old';
    forall q ensures q in result + found <==> IsSolution(s, target, q) && Covered(s, i, next, q) {
      HitsAreSolutions(found, s, target, i, j, q);
      assert q.b in new' <==> q.b in old' || q.b == s[j];
    }
    forall q | q in found ensures q !in result { HitsAreSolutions(found, s, target, i, j, q); }
    DistinctJoin(result, found);
  }

  lemma DistinctJoin(a: seq<Quad>, b: seq<Quad>)
    requires Distinct(a) && Distinct(b) && forall q :: q in b ==> q !in a
    ensures Distinct(a + b)
  {
    forall x, y | 0 <= x < y < |a + b| ensures (a + b)[x] != (a + b)[y] {
      if x < |a| <= y { assert (a + b)[x] in a && (a + b)[y] in b; }
    }
  }

  lemma Start(s: seq<int>, target: int)
    ensures FirstOfItsKind(s, 0, 0) && Exactly([], s, target, 0, 0)
  {
  }

  lemma EnterInner(result: seq<Quad>, s: seq<int>, target: int, i: nat)
    requires i < |s| && Exactly(result, s, target, i, 0)
    ensures FirstOfItsKind(s, i + 1, i + 1) && Exactly(result, s, target, i, i + 1)
  {
    hide IsSolution;
    assert s[i + 1..i + 1] == [];
  }

  lemma NextOfItsKind(s: seq<int>, lo: nat, i: nat, next: nat)
    requires Ascending(s) && lo <= i < next <= |s| && (forall p :: i <= p < next ==> s[p] == s[i])
    requires next < |s| ==> s[next - 1] != s[next]
    ensures FirstOfItsKind(s, lo, next)
  {
  }

  lemma Finish(result: seq<Quad>, s: seq<int>, target: int, given: seq<int>)
    requires multiset(s) == multiset(given) && Exactly(result, s, target, |s|, 0)
    ensures Distinct(result) && forall q :: q in result <==> IsSolution(given, target, q)
  {
    forall q | IsSolution(s, target, q) ensures Covered(s, |s|, 0, q) { AllCovered(s, target, q); }
  }

  lemma InnerEnd(result: seq<Quad>, s: seq<int>, target: int, i: nat, next: nat)
    requires Ascending(s) && FirstOfItsKind(s, 0, i) && i < next <= |s|
    requires forall p :: i <= p < next ==> s[p] == s[i]
    requires Exactly(result, s, target, i, |s|)
    ensures Exactly(result, s, target, next, 0)
  {
    hide IsSolution;
    assert forall a :: a in s[..next] <==> a in s[..i] || a == s[i] by {
      assert s[..next] == s[..i] + s[i..next] && s[i..next][0] == s[i];
    }
    forall q | IsSolution(s, target, q) && q.a == s[i] ensures q.b in s[i + 1..] {
      SolutionPositions(s, target, q);
      var i': nat, j': nat, k: nat, m: nat :| Positions(s, q, i', j', k, m);
      assert i <= i' && s[i + 1..][j' - i - 1] == q.b;
    }
  }

  method SearchSorted(nums: array<int>, target: int) returns (result: seq<Quad>)
    requires Ascending(nums[..])
    ensures Exactly(result, nums[..], target, nums.Length, 0)
  {
    hide *;
    ghost var s := nums[..];
    result := [];
    Start(s, target);
    var i := 0;
    while i < nums.Length
      invariant 0 <= i <= nums.Length
      invariant FirstOfItsKind(s, 0, i) && Exactly(result, s, target, i, 0)
    {
      EnterInner(result, s, target, i);
      var j := i + 1;
      while j < nums.Length
        invariant i < j <= nums.Length
        invariant FirstOfItsKind(s, i + 1, j) && Exactly(result, s, target, i, j)
      {
        var found := Pairs(nums, i, j, target);
        ghost var j0 := j;
        while j < nums.Length - 1 && nums[j] == nums[j + 1]
          invariant j0 <= j < nums.Length && forall p :: j0 <= p <= j ==> s[p] == s[j0]
        {
          j := j + 1;
        }
        InnerStep(result, found, s, target, i, j0, j + 1);
        NextOfItsKind(s, i + 1, j0, j + 1);
        result := result + found;
        j := j + 1;
      }
      ghost var i0 := i;
      while i < nums.Length - 1 && nums[i] == nums[i + 1]
        invariant i0 <= i < nums.Length && forall p :: i0 <= p <= i ==> s[p] == s[i0]
      {
        i := i + 1;
      }
      InnerEnd(result, s, target, i0, i + 1);
      NextOfItsKind(s, 0, i0, i + 1);
      i := i + 1;
    }
  }

  method FourSum(nums: array<int>, target: int) returns (result: seq<Quad>)
    modifies nums
    ensures multiset(nums[..]) == multiset(old(nums[..]))
    ensures Distinct(result) && forall q :: q in result <==> IsSolution(old(nums[..]), target, q)
  {
    ghost var given := nums[..];
    Sort(nums, (x, y) => x < y, (x: int) => true);
    hide Exactly, IsSolution, Distinct;
    result := SearchSorted(nums, target);
    Finish(result, nums[..], target, given);
  }

  lemma AllCovered(s: seq<int>, target: int, q: Quad)
    requires IsSolution(s, target, q)
    ensures Covered(s, |s|, 0, q)
  {
    assert q.a in multiset{q.a, q.b, q.c, q.d};
    assert q.a in multiset(s);
    assert s[..|s|] == s;
  }
}
