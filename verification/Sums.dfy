/** Sums and flattenings of sequences, shared by the protocol models. */
module Sums {
  import Slices

  /** The sum of f over the elements of s. */
  ghost function Sum<A>(s: seq<A>, f: A -> nat): nat
  {
    if s == [] then 0 else f(s[0]) + Sum(s[1..], f)
  }

  /** Replacing one element shifts the sum by the difference. */
  lemma {:induction false} SumUpdate<A>(s: seq<A>, i: nat, a: A, f: A -> nat)
    requires i < |s|
    ensures Sum(s[i := a], f) + f(s[i]) == Sum(s, f) + f(a)
  {
    if i == 0 {
      assert s[i := a][1..] == s[1..];
    } else {
      assert s[i := a][1..] == s[1..][i - 1 := a];
      SumUpdate(s[1..], i - 1, a, f);
    }
  }

  /** No element contributes more than the whole sum. */
  lemma {:induction false} SumBoundsElement<A>(s: seq<A>, i: nat, f: A -> nat)
    requires i < |s|
    ensures f(s[i]) <= Sum(s, f)
  {
    if i > 0 {
      SumBoundsElement(s[1..], i - 1, f);
    }
  }

  lemma {:induction false} SumZero<A>(s: seq<A>, f: A -> nat)
    requires forall i :: 0 <= i < |s| ==> f(s[i]) == 0
    ensures Sum(s, f) == 0
  {
    if s != [] {
      forall i | 0 <= i < |s[1..]| ensures f(s[1..][i]) == 0 { assert s[1..][i] == s[i + 1]; }
      SumZero(s[1..], f);
    }
  }

  /** The concatenation of a sequence of sequences. */
  function Flatten<A>(ss: seq<seq<A>>): seq<A>
  {
    if ss == [] then [] else Flatten(ss[..|ss| - 1]) + ss[|ss| - 1]
  }

  lemma FlattenAppend<A>(ss: seq<seq<A>>, s: seq<A>)
    ensures Flatten(ss + [s]) == Flatten(ss) + s
  {
    assert (ss + [s])[..|ss|] == ss;
  }

  lemma {:induction false} FlattenPrepend<A>(s: seq<A>, ss: seq<seq<A>>)
    ensures Flatten([s] + ss) == s + Flatten(ss)
  {
    hide Flatten;
    if ss == [] {
      FlattenOne(s);
      assert [s] + ss == [s];
    } else {
      var front, last := ss[..|ss| - 1], ss[|ss| - 1];
      FlattenPrepend(s, front);
      FlattenAppend(front, last);
      FlattenAppend([s] + front, last);
      assert ss == front + [last] && [s] + ss == [s] + front + [last];
      Slices.Associate(s, Flatten(front), last);
    }
  }

  lemma FlattenOne<A>(s: seq<A>)
    ensures Flatten<A>([]) == [] && Flatten([s]) == s == s + Flatten([])
  {
    assert [s][..0] == [];
  }
}
