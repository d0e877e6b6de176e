/** The two-speed walks of hobbies/leetcode/algorithms/solution_141.cpp and
    solution_142.cpp over a singly linked list that may run into itself. */
module CycleDetection {
  import opened Arith

  class ListNode {
    var val: int
    var next: ListNode?

    constructor (x: int)
      ensures val == x && next == null
    {
      val, next := x, null;
    }
  }

  /** S is a finite set of nodes that no link leaves. */
  ghost predicate Closed(S: set<ListNode>)
    reads S
  {
    forall n :: n in S && n.next != null ==> n.next in S
  }

  ghost predicate Within(h: ListNode?, S: set<ListNode>)
    reads S
  {
    Closed(S) && (h == null || h in S)
  }

  /** The node k links after h, null once the list has ended. */
  ghost function At(h: ListNode?, k: nat, S: set<ListNode>): (n: ListNode?)
    requires Within(h, S)
    reads S
    ensures Within(n, S)
  {
    if k == 0 then h else
      var m := At(h, k - 1, S);
      if m == null then null else m.next
  }

  ghost predicate Ends(h: ListNode?, S: set<ListNode>)
    requires Within(h, S)
    reads S
  {
    exists k: nat :: At(h, k, S) == null
  }

  /** Following the links from n leads back to n. */
  ghost predicate OnCycle(n: ListNode?, S: set<ListNode>)
    requires Within(n, S)
    reads S
  {
    n != null && exists t: nat :: t > 0 && At(n, t, S) == n
  }

  /** r is the first node of the list that lies on a cycle. */
  ghost predicate FirstOnCycle(h: ListNode?, r: ListNode?, S: set<ListNode>)
    requires Within(h, S) && Within(r, S)
    reads S
  {
    OnCycle(r, S) &&
    exists m: nat :: At(h, m, S) == r && forall i: nat :: i < m ==> !OnCycle(At(h, i, S), S)
  }

  lemma {:induction false} AtAdds(h: ListNode?, a: nat, b: nat, S: set<ListNode>)
    requires Within(h, S)
    ensures At(At(h, a, S), b, S) == At(h, a + b, S)
  {
    if b > 0 { AtAdds(h, a, b - 1, S); }
  }

  lemma {:induction false} NullStays(h: ListNode?, a: nat, b: nat, S: set<ListNode>)
    requires Within(h, S) && a <= b && At(h, a, S) == null
    ensures At(h, b, S) == null
    decreases b - a
  {
    if a < b { NullStays(h, a + 1, b, S); }
  }

  /** The shape of the list: `length` distinct nodes, after which it either ends
      or goes back to the node at position `entry`. */
  ghost predicate Rho(h: ListNode?, length: nat, entry: nat, cyclic: bool, S: set<ListNode>)
    requires Within(h, S)
    reads S
  {
    && (forall i: nat :: i < length ==> At(h, i, S) != null)
    && (forall i: nat, j: nat :: i < j < length ==> At(h, i, S) != At(h, j, S))
    && (if cyclic then entry < length && At(h, length, S) == At(h, entry, S) else At(h, length, S) == null)
  }

  /** m is one of the first `length` nodes. */
  ghost predicate Position(h: ListNode?, m: ListNode?, length: nat, S: set<ListNode>)
    requires Within(h, S)
    reads S
  {
    exists i: nat :: i < length && At(h, i, S) == m
  }

  /** Every list over finitely many nodes has that shape. */
  lemma {:induction false} FindRho(h: ListNode?, length: nat, seen: set<ListNode>, S: set<ListNode>)
    returns (n: nat, entry: nat, cyclic: bool)
    requires Within(h, S) && seen <= S
    requires forall i: nat :: i < length ==> At(h, i, S) != null
    requires forall i: nat, j: nat :: i < j < length ==> At(h, i, S) != At(h, j, S)
    requires forall i: nat :: i < length ==> At(h, i, S) in seen
    requires forall m: ListNode :: m in seen ==> Position(h, m, length, S)
    ensures Rho(h, n, entry, cyclic, S)
    decreases S - seen
  {
    var m := At(h, length, S);
    if m == null {
      return length, 0, false;
    }
    if m in seen {
      assert Position(h, m, length, S);
      var i: nat :| i < length && At(h, i, S) == m;
      return length, i, true;
    }
    forall k: ListNode | k in seen + {m} ensures Position(h, k, length + 1, S) {
      if k in seen { assert Position(h, k, length, S); } else { assert At(h, length, S) == k; }
    }
    n, entry, cyclic := FindRho(h, length + 1, seen + {m}, S);
  }

  /** The position below `length` at which the node k links on first appears. */
  ghost function Canon(k: nat, length: nat, entry: nat): (c: nat)
    requires entry < length
    ensures c < length
  {
    if k < entry then k else entry + (k - entry) % (length - entry)
  }

  lemma {:induction false} AtCanon(h: ListNode?, k: nat, length: nat, entry: nat, S: set<ListNode>)
    requires Within(h, S) && Rho(h, length, entry, true, S)
    ensures At(h, k, S) == At(h, Canon(k, length, entry), S)
  {
    if k < length {
      if k >= entry { DivModUnique(k - entry, length - entry, 0, k - entry); }
    } else {
      var l := length - entry;
      AtCanon(h, k - l, length, entry, S);
      var q, r := (k - l - entry) / l, (k - l - entry) % l;
      DivModUnique(k - entry, l, q + 1, r);
      AtAdds(h, length, k - length, S);
      AtAdds(h, entry, k - length, S);
    }
  }

  /** On a list that runs into itself, two walks meet exactly on the cycle and
      a whole number of rounds apart. */
  lemma MeetingPoints(h: ListNode?, a: nat, b: nat, length: nat, entry: nat, S: set<ListNode>)
    requires Within(h, S) && Rho(h, length, entry, true, S) && a < b
    ensures At(h, a, S) == At(h, b, S) <==> a >= entry && (b - a) % (length - entry) == 0
  {
    AtCanon(h, a, length, entry, S);
    AtCanon(h, b, length, entry, S);
    var l := length - entry;
    if a >= entry {
      ModDifference(a - entry, b - entry, l);
    }
  }

  lemma ModDifference(x: nat, y: nat, l: nat)
    requires x <= y && l > 0
    ensures x % l == y % l <==> (y - x) % l == 0
  {
    var q, r, q', r' := x / l, x % l, y / l, y % l;
    Distribute(q', q, l);
    if r == r' {
      DivModUnique(y - x, l, q' - q, 0);
    }
    if (y - x) % l == 0 {
      var d := (y - x) / l;
      Distribute(q, d, l);
      DivModUnique(y, l, q + d, r);
    }
  }

  lemma CyclicNeverEnds(h: ListNode?, length: nat, entry: nat, S: set<ListNode>)
    requires Within(h, S) && Rho(h, length, entry, true, S)
    ensures !Ends(h, S)
  {
    forall k: nat ensures At(h, k, S) != null { AtCanon(h, k, length, entry, S); }
  }

  /** The node at `entry` is the first one on the cycle. */
  lemma EntryIsFirst(h: ListNode?, length: nat, entry: nat, S: set<ListNode>)
    requires Within(h, S) && Rho(h, length, entry, true, S)
    ensures FirstOnCycle(h, At(h, entry, S), S)
  {
    AtAdds(h, entry, length - entry, S);
    assert At(At(h, entry, S), length - entry, S) == At(h, entry, S);
    forall i: nat | i < entry ensures !OnCycle(At(h, i, S), S) {
      forall t: nat | t > 0 ensures At(At(h, i, S), t, S) != At(h, i, S) {
        AtAdds(h, i, t, S);
        MeetingPoints(h, i, i + t, length, entry, S);
      }
    }
  }

  ghost predicate ReachesCycle(h: ListNode?, S: set<ListNode>)
    requires Within(h, S)
    reads S
  {
    exists k: nat :: OnCycle(At(h, k, S), S)
  }

  /** There is a node on a cycle exactly when the list never ends. */
  lemma CycleIffEndless(h: ListNode?, S: set<ListNode>)
    requires Within(h, S)
    ensures Ends(h, S) <==> !ReachesCycle(h, S)
  {
    var length, entry, cyclic := FindRho(h, 0, {}, S);
    if cyclic {
      EntryIsFirst(h, length, entry, S);
      CyclicNeverEnds(h, length, entry, S);
      assert OnCycle(At(h, entry, S), S) && ReachesCycle(h, S);
    } else {
      assert At(h, length, S) == null;
      forall k: nat ensures !OnCycle(At(h, k, S), S) {
        if OnCycle(At(h, k, S), S) {
          var t: nat :| t > 0 && At(At(h, k, S), t, S) == At(h, k, S);
          RoundAgain(At(h, k, S), t, length, S);
          AtAdds(h, k, length * t, S);
          MulAtLeast(t, length);
          NullStays(h, length, k + length * t, S);
        }
      }
      assert Ends(h, S);
    }
  }

  lemma {:induction false} RoundAgain(n: ListNode?, t: nat, rounds: nat, S: set<ListNode>)
    requires Within(n, S) && At(n, t, S) == n
    ensures rounds * t >= 0 && At(n, rounds * t, S) == n
  {
    MulNonNegative(rounds, t);
    if rounds > 0 {
      RoundAgain(n, t, rounds - 1, S);
      AtAdds(n, (rounds - 1) * t, t, S);
      assert rounds * t == (rounds - 1) * t + t;
    }
  }

  /** The two speeds meet within the first `length` steps. */
  lemma MeetingInTime(h: ListNode?, length: nat, entry: nat, S: set<ListNode>) returns (k: nat)
    requires Within(h, S) && Rho(h, length, entry, true, S)
    ensures 0 < k <= length && At(h, k, S) == At(h, 2 * k, S)
  {
    var l := length - entry;
    if entry == 0 {
      k := l;
      DivModUnique(l, l, 1, 0);
    } else {
      var q, r := entry / l, entry % l;
      k := if r == 0 then entry else entry - r + l;
      if r == 0 { DivModUnique(k, l, q, 0); } else { Distribute(q, 1, l); DivModUnique(k, l, q + 1, 0); }
    }
    MeetingPoints(h, k, 2 * k, length, entry, S);
  }

  /** On a list that ends no two positions before the end hold the same node. */
  lemma NoMeetingBeforeEnd(h: ListNode?, k: nat, length: nat, S: set<ListNode>)
    requires Within(h, S) && Rho(h, length, 0, false, S) && k > 0 && At(h, 2 * k, S) != null
    ensures At(h, k, S) != At(h, 2 * k, S)
  {
    if 2 * k >= length { NullStays(h, length, 2 * k, S); }
  }

  // ---------- the code ----------

  /** The loop of both functions: `slow` takes one link and `fast` two until they
      meet or the list ends; k counts the rounds. */
  method Race(head: ListNode?, ghost S: set<ListNode>) returns (met: bool, slow: ListNode?, ghost k: nat)
    requires Within(head, S)
    ensures met <==> !Ends(head, S)
    ensures met ==> k > 0 && slow == At(head, k, S) == At(head, 2 * k, S)
  {
    ghost var length, entry, cyclic := FindRho(head, 0, {}, S);
    ghost var bound := 0;
    if cyclic { bound := MeetingInTime(head, length, entry, S); CyclicNeverEnds(head, length, entry, S); }
    var fast := head;
    slow, k := head, 0;
    while fast != null && fast.next != null
      invariant slow == At(head, k, S) && fast == At(head, 2 * k, S)
      invariant fast != null ==> slow != null
      invariant cyclic ==> k < bound <= length
      decreases length - k
    {
      if !cyclic && 2 * k >= length { NullStays(head, length, 2 * k, S); }
      assert At(head, 2 * k + 1, S) == fast.next;
      if slow.next == null { NullStays(head, k + 1, 2 * k + 1, S); }
      slow := slow.next;
      fast := fast.next.next;
      k := k + 1;
      if slow == fast {
        if !cyclic { NoMeetingBeforeEnd(head, k, length, S); }
        return true, slow, k;
      }
    }
    assert At(head, 2 * k, S) == null || At(head, 2 * k + 1, S) == null;
    return false, slow, k;
  }

  method HasCycle(head: ListNode?, ghost S: set<ListNode>) returns (found: bool)
    requires Within(head, S)
    ensures found <==> ReachesCycle(head, S)
    ensures found <==> !Ends(head, S)
  {
    var slow; ghost var k;
    found, slow, k := Race(head, S);
    CycleIffEndless(head, S);
  }

  method DetectCycle(head: ListNode?, ghost S: set<ListNode>) returns (r: ListNode?)
    requires Within(head, S)
    ensures Within(r, S)
    ensures r == null <==> !ReachesCycle(head, S)
    ensures r == null <==> Ends(head, S)
    ensures r != null ==> FirstOnCycle(head, r, S)
  {
    hide Rho, FirstOnCycle, OnCycle, ReachesCycle, Ends, At;
    var met, slow; ghost var k;
    met, slow, k := Race(head, S);
    CycleIffEndless(head, S);
    if !met { return null; }
    ghost var length, entry, cyclic := FindRho(head, 0, {}, S);
    RhoIsCyclic(head, length, entry, cyclic, S);
    MeetingPoints(head, k, 2 * k, length, entry, S);
    MeetingPoints(head, entry, entry + k, length, entry, S);
    AtStart(head, S);
    var prev := head;
    ghost var i := 0;
    while prev != slow
      invariant i <= entry && prev == At(head, i, S) && slow == At(head, k + i, S)
      decreases entry - i
    {
      NeverNull(head, i, S);
      NeverNull(head, k + i, S);
      AtNext(head, i, S);
      AtNext(head, k + i, S);
      slow := slow.next;
      prev := prev.next;
      i := i + 1;
    }
    MeetingPoints(head, i, k + i, length, entry, S);
    EntryIsFirst(head, length, entry, S);
    return prev;
  }

  lemma AtStart(h: ListNode?, S: set<ListNode>)
    requires Within(h, S)
    ensures At(h, 0, S) == h
  {
  }

  lemma AtNext(h: ListNode?, k: nat, S: set<ListNode>)
    requires Within(h, S) && At(h, k, S) != null
    ensures At(h, k + 1, S) == At(h, k, S).next
  {
  }

  lemma RhoIsCyclic(h: ListNode?, length: nat, entry: nat, cyclic: bool, S: set<ListNode>)
    requires Within(h, S) && Rho(h, length, entry, cyclic, S) && !Ends(h, S)
    ensures cyclic && entry < length
  {
  }

  lemma NeverNull(h: ListNode?, k: nat, S: set<ListNode>)
    requires Within(h, S) && !Ends(h, S)
    ensures At(h, k, S) != null
  {
  }

  /** The reported node is determined by the list. */
  lemma FirstIsUnique(h: ListNode?, r: ListNode?, q: ListNode?, S: set<ListNode>)
    requires Within(h, S) && Within(r, S) && Within(q, S)
    requires FirstOnCycle(h, r, S) && FirstOnCycle(h, q, S)
    ensures r == q
  {
    var m: nat :| At(h, m, S) == r && forall i: nat :: i < m ==> !OnCycle(At(h, i, S), S);
    var n: nat :| At(h, n, S) == q && forall i: nat :: i < n ==> !OnCycle(At(h, i, S), S);
  }
}
