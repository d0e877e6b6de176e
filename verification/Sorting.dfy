/** What std::sort promises: a rearrangement in which no later element belongs
    before an earlier one.  Done here by insertion.

    The comparison is a parameter and has to be a strict weak order on the
    values that occur, which is what the library demands of its callers; the
    callers here prove it for their own comparisons. */
module Sorting {

  /** `before` is a strict weak order on the values satisfying ok. */
  ghost predicate StrictWeakOrder<T(!new)>(before: (T, T) -> bool, ok: T -> bool)
  {
    && (forall x, y :: ok(x) && ok(y) && before(x, y) ==> !before(y, x))
    && (forall x, y, z :: ok(x) && ok(y) && ok(z) && !before(y, x) && !before(z, y) ==> !before(z, x))
  }

  /** No later element belongs before an earlier one. */
  ghost predicate Sorted<T>(s: seq<T>, before: (T, T) -> bool)
  {
    forall i, j :: 0 <= i < j < |s| ==> !before(s[j], s[i])
  }

  /** The same for integers in their natural order. */
  ghost predicate Ascending(s: seq<int>) { forall i, j :: 0 <= i <= j < |s| ==> s[i] <= s[j] }

  method Sort<T(!new)>(a: array<T>, before: (T, T) -> bool, ghost ok: T -> bool)
    requires StrictWeakOrder(before, ok)
    requires forall i :: 0 <= i < a.Length ==> ok(a[i])
    modifies a
    ensures multiset(a[..]) == multiset(old(a[..]))
    ensures Sorted(a[..], before)
  {
    hide Sorted, StrictWeakOrder;
    if a.Length == 0 { ShortSorted(a[..], before); return; }
    ShortSorted(a[..1], before);
    var i := 1;
    while i < a.Length
      invariant 1 <= i <= a.Length
      invariant multiset(a[..]) == multiset(old(a[..]))
      invariant Sorted(a[..i], before)
      invariant forall p :: 0 <= p < a.Length ==> ok(a[..][p])
    {
      InsertLast(a, i, before, ok);
      i := i + 1;
    }
    assert a[..i] == a[..];
  }

  lemma ShortSorted<T>(s: seq<T>, before: (T, T) -> bool)
    requires |s| <= 1
    ensures Sorted(s, before)
  {
  }

  method SwapWithPrevious<T>(a: array<T>, j: nat)
    requires 0 < j < a.Length
    modifies a
    ensures a[..] == old(a[..][j := a[j - 1]][j - 1 := a[j]])
    ensures multiset(a[..]) == multiset(old(a[..]))
  {
    a[j], a[j - 1] := a[j - 1], a[j];
  }

  /** Sorted up to position i but for the element at j, which belongs no later than there. */
  ghost predicate Sinking<T>(s: seq<T>, i: nat, j: nat, before: (T, T) -> bool)
  {
    && j <= i < |s|
    && (forall p, q :: 0 <= p < q <= i && p != j && q != j ==> !before(s[q], s[p]))
    && (forall q :: j < q <= i ==> !before(s[q], s[j]))
  }

  lemma SinkStep<T(!new)>(s: seq<T>, i: nat, j: nat, before: (T, T) -> bool, ok: T -> bool)
    requires StrictWeakOrder(before, ok) && Sinking(s, i, j, before) && j > 0 && before(s[j], s[j - 1])
    requires forall p :: 0 <= p < |s| ==> ok(s[p])
    ensures Sinking(s[j := s[j - 1]][j - 1 := s[j]], i, j - 1, before)
  {
    var t := s[j := s[j - 1]][j - 1 := s[j]];
    forall p, q | 0 <= p < q <= i && p != j - 1 && q != j - 1 ensures !before(t[q], t[p]) {
      assert t[p] == if p == j then s[j - 1] else s[p];
      assert t[q] == if q == j then s[j - 1] else s[q];
    }
    forall q | j - 1 < q <= i ensures !before(t[q], t[j - 1]) {
      assert t[q] == if q == j then s[j - 1] else s[q];
    }
  }

  lemma SinkEnd<T(!new)>(s: seq<T>, i: nat, j: nat, before: (T, T) -> bool, ok: T -> bool)
    requires StrictWeakOrder(before, ok) && Sinking(s, i, j, before) && (j == 0 || !before(s[j], s[j - 1]))
    requires forall p :: 0 <= p < |s| ==> ok(s[p])
    ensures Sorted(s[..i + 1], before)
  {
    forall p | 0 <= p < j ensures !before(s[j], s[p]) {
      if p < j - 1 { assert !before(s[j - 1], s[p]); }
    }
  }

  /** Sinks the element at position i into the sorted part before it. */
  method InsertLast<T(!new)>(a: array<T>, i: nat, before: (T, T) -> bool, ghost ok: T -> bool)
    requires StrictWeakOrder(before, ok) && i < a.Length
    requires forall p :: 0 <= p < a.Length ==> ok(a[..][p])
    requires Sorted(a[..i], before)
    modifies a
    ensures multiset(a[..]) == multiset(old(a[..]))
    ensures Sorted(a[..i + 1], before)
    ensures forall p :: 0 <= p < a.Length ==> ok(a[..][p])
  {
    SinkStart(a[..], i, before);
    hide Sinking, Sorted, StrictWeakOrder;
    var j := i;
    while j > 0 && before(a[j], a[j - 1])
      invariant 0 <= j <= i
      invariant multiset(a[..]) == multiset(old(a[..]))
      invariant forall p :: 0 <= p < a.Length ==> ok(a[..][p])
      invariant Sinking(a[..], i, j, before)
    {
      SinkStep(a[..], i, j, before, ok);
      SwapWithPrevious(a, j);
      j := j - 1;
    }
    SinkEnd(a[..], i, j, before, ok);
    assert a[..i + 1] == a[..][..i + 1];
  }

  lemma SinkStart<T>(s: seq<T>, i: nat, before: (T, T) -> bool)
    requires i < |s| && Sorted(s[..i], before)
    ensures Sinking(s, i, i, before)
  {
    forall p, q | 0 <= p < q < i ensures !before(s[q], s[p]) {
      assert s[..i][p] == s[p] && s[..i][q] == s[q];
    }
  }

  lemma SplitOut<T>(p: seq<T>, x: T, q: seq<T>)
    ensures multiset(p + [x] + q) == multiset(p + q) + multiset{x}
  {
    assert multiset(p + [x] + q) == multiset(p + [x]) + multiset(q);
    assert multiset(p + q) == multiset(p) + multiset(q);
  }

  lemma CancelOne<T>(a: multiset<T>, b: multiset<T>, x: T)
    requires a + multiset{x} == b + multiset{x}
    ensures a == b
  {
    assert a == (a + multiset{x}) - multiset{x};
    assert b == (b + multiset{x}) - multiset{x};
  }

  /** The first element of s can be taken out of any rearrangement of s. */
  lemma TakeOut<T>(s: seq<T>, t: seq<T>) returns (p: seq<T>, q: seq<T>)
    requires s != [] && multiset(s) == multiset(t)
    ensures t == p + [s[0]] + q && multiset(s[1..]) == multiset(p + q)
  {
    assert s[0] in multiset(t);
    var i :| 0 <= i < |t| && t[i] == s[0];
    p, q := t[..i], t[i + 1..];
    assert t == p + [s[0]] + q;
    assert s == [] + [s[0]] + s[1..] && [] + s[1..] == s[1..];
    SplitOut(p, s[0], q);
    SplitOut([], s[0], s[1..]);
    CancelOne(multiset(s[1..]), multiset(p + q), s[0]);
  }
}
