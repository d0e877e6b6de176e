/** The threaded traversal of hobbies/leetcode/algorithms/solution_98.cpp. */
module Morris {
  /* The in-order traversal keeps no stack.  It stores the way back in the `right`
     link of the last node of each left subtree it enters, and removes it again. */


  class TreeNode {
    var val: int
    var left: TreeNode?
    var right: TreeNode?

    constructor (x: int)
      ensures val == x && left == null && right == null
    {
      val, left, right := x, null, null;
    }
  }

  /** The shape of a finite tree, node by node. */
  datatype Tree = Nil | Node(n: TreeNode, l: Tree, r: Tree)

  ghost function Root(t: Tree): TreeNode?
  {
    if t.Nil? then null else t.n
  }

  ghost function InOrder(t: Tree): seq<TreeNode>
  {
    match t
    case Nil => []
    case Node(n, l, r) => InOrder(l) + [n] + InOrder(r)
  }

  ghost predicate NoDup<A>(s: seq<A>)
  {
    forall i, j :: 0 <= i < j < |s| ==> s[i] != s[j]
  }

  /** The links of the nodes of t, as they stand in the heap, spell out t. */
  ghost predicate Shape(t: Tree)
    reads set m | m in InOrder(t)
  {
    match t
    case Nil => true
    case Node(n, l, r) =>
      assert n in InOrder(t);
      n.left == Root(l) && n.right == Root(r) && Shape(l) && Shape(r)
  }

  /** The definition of a binary search tree given in the file's header comment. */
  ghost predicate IsBST(t: Tree)
    reads set m | m in InOrder(t)
  {
    match t
    case Nil => true
    case Node(n, l, r) =>
      assert n in InOrder(t);
      && IsBST(l) && IsBST(r)
      && (forall m :: m in InOrder(l) ==> m.val < n.val)
      && (forall m :: m in InOrder(r) ==> n.val < m.val)
  }

  ghost predicate Increasing(s: seq<TreeNode>)
    reads set m | m in s
  {
    forall i, j :: 0 <= i < j < |s| ==> s[i].val < s[j].val
  }

  /** A tree is a search tree exactly when its in-order values strictly increase. */
  lemma {:induction false} BSTIsIncreasing(t: Tree)
    ensures IsBST(t) <==> Increasing(InOrder(t))
  {
    match t {
      case Nil =>
      case Node(n, l, r) =>
        hide Increasing;
        BSTIsIncreasing(l);
        BSTIsIncreasing(r);
        IncreasingAround(InOrder(l), n, InOrder(r));
    }
  }

  lemma IncreasingAround(a: seq<TreeNode>, n: TreeNode, b: seq<TreeNode>)
    ensures Increasing(a + [n] + b) <==> Increasing(a) && Increasing(b) && Between(a, n, b)
  {
    hide Increasing, Between;
    if Increasing(a + [n] + b) { IncreasingSplits(a, n, b); }
    if Increasing(a) && Increasing(b) && Between(a, n, b) { IncreasingJoins(a, n, b); }
  }

  ghost predicate Between(a: seq<TreeNode>, n: TreeNode, b: seq<TreeNode>)
    reads a, n, b
  {
    (forall m :: m in a ==> m.val < n.val) && (forall m :: m in b ==> n.val < m.val)
  }

  lemma IncreasingSplits(a: seq<TreeNode>, n: TreeNode, b: seq<TreeNode>)
    requires Increasing(a + [n] + b)
    ensures Increasing(a) && Increasing(b) && Between(a, n, b)
  {
    var s, k := a + [n] + b, |a|;
    assert s[k] == n;
    assert forall i :: 0 <= i < k ==> s[i] == a[i];
    forall i, j | 0 <= i < j < |b| ensures b[i].val < b[j].val {
      assert s[k + 1 + i] == b[i] && s[k + 1 + j] == b[j];
    }
    forall m | m in b ensures n.val < m.val {
      var i :| 0 <= i < |b| && b[i] == m;
      assert s[k + 1 + i] == m;
    }
  }

  lemma IncreasingJoins(a: seq<TreeNode>, n: TreeNode, b: seq<TreeNode>)
    requires Increasing(a) && Increasing(b) && Between(a, n, b)
    ensures Increasing(a + [n] + b)
  {
    var s, k := a + [n] + b, |a|;
    forall i, j | 0 <= i < j < |s| ensures s[i].val < s[j].val {
      if j < k {
        assert s[i] == a[i] && s[j] == a[j];
      } else if i > k {
        assert s[i] == b[i - k - 1] && s[j] == b[j - k - 1];
      } else {
        assert i < k ==> s[i] == a[i] && a[i] in a;
        assert j > k ==> s[j] == b[j - k - 1] && b[j - k - 1] in b;
      }
    }
  }

  // ---------- the original links, independent of the heap ----------

  ghost predicate Linked(t: Tree, left: map<TreeNode, TreeNode?>, right: map<TreeNode, TreeNode?>)
  {
    match t
    case Nil => true
    case Node(n, l, r) =>
      && n in left && n in right && left[n] == Root(l) && right[n] == Root(r)
      && Linked(l, left, right) && Linked(r, left, right)
  }

  ghost function Nodes(t: Tree): set<TreeNode> { set m | m in InOrder(t) }

  /** The heap holds the original links except for the current threads. */
  ghost predicate Threaded(nodes: set<TreeNode>, threads: map<TreeNode, TreeNode>,
                           left: map<TreeNode, TreeNode?>, right: map<TreeNode, TreeNode?>)
    reads nodes
  {
    forall m :: m in nodes ==>
      && m in left && m in right && m.left == left[m]
      && m.right == if m in threads then threads[m] else right[m]
  }

  lemma {:induction false} ShapeIsLinked(t: Tree, nodes: set<TreeNode>, left: map<TreeNode, TreeNode?>, right: map<TreeNode, TreeNode?>)
    requires Shape(t)
    requires Nodes(t) <= nodes && Threaded(nodes, map[], left, right)
    ensures Linked(t, left, right)
  {
    match t
    case Nil =>
    case Node(n, l, r) =>
      assert n in InOrder(t);
      ShapeIsLinked(l, nodes, left, right);
      ShapeIsLinked(r, nodes, left, right);
  }

  lemma {:induction false} LinkedIsShape(t: Tree, nodes: set<TreeNode>, left: map<TreeNode, TreeNode?>, right: map<TreeNode, TreeNode?>)
    requires Linked(t, left, right)
    requires Nodes(t) <= nodes && Threaded(nodes, map[], left, right)
    ensures Shape(t)
  {
    match t
    case Nil =>
    case Node(n, l, r) =>
      assert n in InOrder(t);
      LinkedIsShape(l, nodes, left, right);
      LinkedIsShape(r, nodes, left, right);
  }

  ghost function Last(t: Tree): TreeNode
    requires t.Node?
  {
    if t.r.Nil? then t.n else Last(t.r)
  }

  lemma {:induction false} LastIsLast(t: Tree)
    requires t.Node?
    ensures InOrder(t) != [] && Last(t) == InOrder(t)[|InOrder(t)| - 1]
  {
    if t.r.Node? { LastIsLast(t.r); }
  }

  lemma {:induction false} LastHasNoRight(t: Tree, left: map<TreeNode, TreeNode?>, right: map<TreeNode, TreeNode?>)
    requires t.Node? && Linked(t, left, right)
    ensures Last(t) in right && right[Last(t)] == null
  {
    if t.r.Node? { LastHasNoRight(t.r, left, right); }
  }

  // ---------- the state of the traversal ----------

  /** Pending ancestors are nodes whose left subtree, being traversed, is not empty. */
  ghost predicate Ancestors(pending: seq<Tree>)
  {
    forall i :: 0 <= i < |pending| ==> pending[i].Node? && pending[i].l.Node?
  }

  ghost predicate AllLinked(pending: seq<Tree>, left: map<TreeNode, TreeNode?>, right: map<TreeNode, TreeNode?>)
  {
    forall i :: 0 <= i < |pending| ==> Linked(pending[i], left, right)
  }

  /** What remains after the current subtree: the pending ancestors, innermost
      first, each followed by its right subtree. */
  ghost function Rest(pending: seq<Tree>): seq<TreeNode>
    requires Ancestors(pending)
  {
    if pending == [] then [] else [pending[0].n] + InOrder(pending[0].r) + Rest(pending[1..])
  }

  /** The temporary threads: the last node of each pending left subtree leads back to its ancestor. */
  ghost function Threads(pending: seq<Tree>): map<TreeNode, TreeNode>
    requires Ancestors(pending)
  {
    if pending == [] then map[] else Threads(pending[1..])[Last(pending[0].l) := pending[0].n]
  }

  /** Every pending left subtree ends exactly where the part before its ancestor ends. */
  ghost predicate Context(before: seq<TreeNode>, pending: seq<Tree>)
    requires Ancestors(pending)
    decreases pending
  {
    pending != [] ==>
      var s := InOrder(pending[0].l);
      && |s| <= |before| && before[|before| - |s|..] == s
      && Context(before + [pending[0].n] + InOrder(pending[0].r), pending[1..])
  }

  /** Threads start at the last node before the next ancestor or later. */
  lemma {:induction false} ThreadIndex(before: seq<TreeNode>, pending: seq<Tree>, k: TreeNode) returns (j: nat)
    requires Ancestors(pending)
    requires Context(before, pending) && k in Threads(pending)
    ensures |before| - 1 <= j < |before + Rest(pending)| && (before + Rest(pending))[j] == k
    decreases pending
  {
    hide InOrder, Last;
    LastIsLast(pending[0].l);
    var s := InOrder(pending[0].l);
    assert before[|before| - |s|..][|s| - 1] == s[|s| - 1];
    var before' := before + [pending[0].n] + InOrder(pending[0].r);
    assert before' + Rest(pending[1..]) == before + Rest(pending);
    if k in Threads(pending[1..]) {
      j := ThreadIndex(before', pending[1..], k);
    } else {
      j := |before| - 1;
    }
  }

  lemma {:induction false} ThreadKeyHasNoRight(pending: seq<Tree>, k: TreeNode,
                                               left: map<TreeNode, TreeNode?>, right: map<TreeNode, TreeNode?>)
    requires Ancestors(pending) && AllLinked(pending, left, right)
    requires k in Threads(pending)
    ensures k in right && right[k] == null
  {
    LastHasNoRight(pending[0].l, left, right);
    if k in Threads(pending[1..]) { ThreadKeyHasNoRight(pending[1..], k, left, right); }
  }

  /** The whole state: `u` is the subtree still to enter (or none), after which
      the innermost pending ancestor is next. */
  ghost predicate Position(t: Tree, visited: seq<TreeNode>, u: Tree, pending: seq<Tree>,
                           left: map<TreeNode, TreeNode?>, right: map<TreeNode, TreeNode?>)
  {
    && (Ancestors(pending) && AllLinked(pending, left, right))
    && Linked(u, left, right)
    && visited + InOrder(u) + Rest(pending) == InOrder(t)
    && Context(visited + InOrder(u), pending)
  }

  ghost function Current(u: Tree, pending: seq<Tree>): TreeNode?
    requires Ancestors(pending)
  {
    if u.Node? then u.n else if pending != [] then pending[0].n else null
  }

  ghost function Size(t: Tree): nat { match t case Nil => 0 case Node(_, l, r) => 1 + Size(l) + Size(r) }

  /** Every node is reached at most twice. */
  ghost function Remaining(u: Tree, pending: seq<Tree>): nat
    requires Ancestors(pending)
  {
    2 * Size(u) + PendingSteps(pending)
  }

  ghost function PendingSteps(pending: seq<Tree>): nat
    requires Ancestors(pending)
  {
    if pending == [] then 0 else 1 + 2 * Size(pending[0].r) + PendingSteps(pending[1..])
  }

  /** No thread starts before the last node of the part already dealt with. */
  lemma NoThreadAt(before: seq<TreeNode>, pending: seq<Tree>, k: nat)
    requires Ancestors(pending) && Context(before, pending) && NoDup(before + Rest(pending))
    requires k < |before| - 1
    ensures before[k] !in Threads(pending)
  {
    hide InOrder, Last, Context;
    assert (before + Rest(pending))[k] == before[k];
    if before[k] in Threads(pending) { var j := ThreadIndex(before, pending, before[k]); }
  }

  /** Inside a left subtree about to be entered no node is the start of a thread. */
  lemma EnterUnthreaded(t: Tree, visited: seq<TreeNode>, u: Tree, pending: seq<Tree>,
                        left: map<TreeNode, TreeNode?>, right: map<TreeNode, TreeNode?>, m: TreeNode)
    requires NoDup(InOrder(t)) && Position(t, visited, u, pending, left, right)
    requires u.Node? && m in InOrder(u.l)
    ensures m in InOrder(t) && m != u.n && m !in Threads(pending)
  {
    var before := visited + InOrder(u);
    var i :| 0 <= i < |InOrder(u.l)| && InOrder(u.l)[i] == m;
    assert InOrder(t) == before + Rest(pending);
    assert before[|visited| + i] == m;
    assert before[|visited| + |InOrder(u.l)|] == u.n;
    assert InOrder(t)[|visited| + i] == m && InOrder(t)[|visited| + |InOrder(u.l)|] == u.n;
    NoThreadAt(before, pending, |visited| + i);
  }

  /** Back at the innermost ancestor, the only thread inside its left subtree
      starts at that subtree's last node and leads to the ancestor. */
  lemma ReturnThread(t: Tree, visited: seq<TreeNode>, pending: seq<Tree>,
                     left: map<TreeNode, TreeNode?>, right: map<TreeNode, TreeNode?>, m: TreeNode)
    requires NoDup(InOrder(t)) && Position(t, visited, Nil, pending, left, right)
    requires pending != [] && m in InOrder(pending[0].l)
    ensures m in InOrder(t) && m != pending[0].n && m !in Threads(pending[1..])
  {
    assert visited + InOrder(Nil) == visited;
    hide InOrder, Linked;
    var a, s := pending[0], InOrder(pending[0].l);
    var i :| 0 <= i < |s| && s[i] == m;
    var k := |visited| - |s| + i;
    assert visited[|visited| - |s|..][i] == m;
    assert visited[k] == m;
    var before := visited + [a.n] + InOrder(a.r);
    assert InOrder(t) == before + Rest(pending[1..]);
    assert InOrder(t)[k] == m && InOrder(t)[|visited|] == a.n;
    NoThreadAt(before, pending[1..], k);
  }

  lemma StartPosition(t: Tree, left: map<TreeNode, TreeNode?>, right: map<TreeNode, TreeNode?>)
    requires Linked(t, left, right)
    ensures Position(t, [], t, [], left, right) && Threads([]) == map[]
  {
    assert [] + InOrder(t) + Rest([]) == InOrder(t);
  }

  lemma CurrentInTree(t: Tree, visited: seq<TreeNode>, u: Tree, pending: seq<Tree>,
                      left: map<TreeNode, TreeNode?>, right: map<TreeNode, TreeNode?>)
    requires Position(t, visited, u, pending, left, right)
    requires Current(u, pending) != null
    ensures Current(u, pending) in Nodes(t)
    ensures var a := if u.Node? then u else pending[0];
            && a.n in left && left[a.n] == Root(a.l) && a.n in right && right[a.n] == Root(a.r)
  {
    if u.Node? {
      assert InOrder(u)[|InOrder(u.l)|] == u.n && InOrder(t)[|visited| + |InOrder(u.l)|] == u.n;
    } else {
      assert InOrder(t)[|visited|] == pending[0].n;
    }
  }

  lemma EndPosition(t: Tree, visited: seq<TreeNode>, u: Tree, pending: seq<Tree>,
                    left: map<TreeNode, TreeNode?>, right: map<TreeNode, TreeNode?>)
    requires Position(t, visited, u, pending, left, right)
    requires Current(u, pending) == null
    ensures visited == InOrder(t) && pending == [] && Threads(pending) == map[]
  {
    assert visited + InOrder(Nil) + Rest([]) == visited;
  }

  /** Leaving a node without a left subtree, or a node whose left subtree is done. */
  lemma VisitPosition(t: Tree, visited: seq<TreeNode>, u: Tree, pending: seq<Tree>,
                      left: map<TreeNode, TreeNode?>, right: map<TreeNode, TreeNode?>)
    requires Position(t, visited, u, pending, left, right) && u.Node? && u.l.Nil?
    ensures Position(t, visited + [u.n], u.r, pending, left, right)
    ensures Remaining(u.r, pending) < Remaining(u, pending)
  {
    assert InOrder(u) == [u.n] + InOrder(u.r);
    assert visited + [u.n] + InOrder(u.r) == visited + InOrder(u);
  }

  lemma ReturnPosition(t: Tree, visited: seq<TreeNode>, pending: seq<Tree>,
                       left: map<TreeNode, TreeNode?>, right: map<TreeNode, TreeNode?>)
    requires Position(t, visited, Nil, pending, left, right) && pending != []
    ensures Position(t, visited + [pending[0].n], pending[0].r, pending[1..], left, right)
    ensures Remaining(pending[0].r, pending[1..]) < Remaining(Nil, pending)
    ensures Threads(pending) == Threads(pending[1..])[Last(pending[0].l) := pending[0].n]
  {
    var a := pending[0];
    assert visited + InOrder(Nil) == visited;
    assert visited + [a.n] + InOrder(a.r) == visited + InOrder(Nil) + [a.n] + InOrder(a.r);
    assert visited + InOrder(Nil) + Rest(pending) == visited + [a.n] + InOrder(a.r) + Rest(pending[1..]);
  }

  lemma EnterPosition(t: Tree, visited: seq<TreeNode>, u: Tree, pending: seq<Tree>,
                      left: map<TreeNode, TreeNode?>, right: map<TreeNode, TreeNode?>)
    requires Position(t, visited, u, pending, left, right) && u.Node? && u.l.Node?
    ensures Position(t, visited, u.l, [u] + pending, left, right)
    ensures Remaining(u.l, [u] + pending) < Remaining(u, pending)
    ensures Threads([u] + pending) == Threads(pending)[Last(u.l) := u.n]
  {
    var p := [u] + pending;
    assert p[1..] == pending;
    var before := visited + InOrder(u.l);
    assert before[|before| - |InOrder(u.l)|..] == InOrder(u.l);
    assert before + [u.n] + InOrder(u.r) == visited + InOrder(u);
    assert before + Rest(p) == visited + InOrder(u) + Rest(pending);
  }

  /** After a visit, the right link leads to the next node, by child or by thread. */
  lemma RightLeadsOn(t: Tree, visited: seq<TreeNode>, u: Tree, pending: seq<Tree>,
                     left: map<TreeNode, TreeNode?>, right: map<TreeNode, TreeNode?>, m: TreeNode)
    requires NoDup(InOrder(t)) && Position(t, visited + [m], u, pending, left, right)
    requires Threaded(Nodes(t), Threads(pending), left, right)
    requires m in right && right[m] == Root(u)
    ensures m in Nodes(t) && m.right == Current(u, pending)
  {
    assert InOrder(t)[|visited|] == m;
    if u.Node? {
      if m in Threads(pending) { ThreadKeyHasNoRight(pending, m, left, right); }
    } else if pending != [] {
      LastIsLast(pending[0].l);
      assert visited + [m] + InOrder(Nil) == visited + [m];
      var s := InOrder(pending[0].l);
      assert (visited + [m])[|visited| + 1 - |s|..][|s| - 1] == m;
    }
  }

  // ---------- the code ----------

  method IsValidBST(root: TreeNode?, ghost t: Tree) returns (valid: bool, ghost visited: seq<TreeNode>)
    requires root == Root(t) && Shape(t) && NoDup(InOrder(t))
    modifies Nodes(t)
    ensures visited == InOrder(t)
    ensures valid <==> IsBST(t)
    ensures Shape(t)
    ensures forall m :: m in InOrder(t) ==>
              m.left == old(m.left) && m.right == old(m.right) && m.val == old(m.val)
  {
    hide Linked, InOrder, Shape, IsBST, NoDup;
    if root == null {
      NullTree(t);
      return true, [];
    }
    ghost var nodes: set<TreeNode> := Nodes(t);
    ghost var left := map m: TreeNode | m in nodes :: m.left;
    ghost var right := map m: TreeNode | m in nodes :: m.right;
    ShapeIsLinked(t, nodes, left, right);
    var dfs;
    dfs, visited := Traverse(root, t, nodes, left, right);
    LinkedIsShape(t, nodes, left, right);
    BSTIsIncreasing(t);
    valid := StrictlyIncreasing(dfs);
  }

  /** Rewrites one right link: removes the thread there, or puts one there. */
  method SetRight(prev: TreeNode, to: TreeNode?, ghost nodes: set<TreeNode>, ghost threads: map<TreeNode, TreeNode>,
                  ghost threads': map<TreeNode, TreeNode>, ghost left: map<TreeNode, TreeNode?>, ghost right: map<TreeNode, TreeNode?>)
    requires Threaded(nodes, threads, left, right) && prev in nodes && prev in right && right[prev] == null
    requires if to == null then prev in threads && prev !in threads' && threads == threads'[prev := threads[prev]]
             else threads' == threads[prev := to]
    modifies prev`right
    ensures Threaded(nodes, threads', left, right) && prev.right == to
  {
    prev.right := to;
  }

  lemma LeftKept(nodes: set<TreeNode>, threads: map<TreeNode, TreeNode>,
                 left: map<TreeNode, TreeNode?>, right: map<TreeNode, TreeNode?>, m: TreeNode)
    requires Threaded(nodes, threads, left, right) && m in nodes
    ensures m in left && m.left == left[m]
  {
  }

  lemma NullTree(t: Tree)
    requires Root(t) == null
    ensures InOrder(t) == [] && IsBST(t)
  {
  }

  /** The outer loop.  `visited` records the nodes whose values are in `dfs`. */
  method Traverse(root: TreeNode, ghost t: Tree, ghost nodes: set<TreeNode>,
                  ghost left: map<TreeNode, TreeNode?>, ghost right: map<TreeNode, TreeNode?>)
    returns (dfs: seq<int>, ghost visited: seq<TreeNode>)
    requires nodes == Nodes(t) && root == Root(t) && Linked(t, left, right) && NoDup(InOrder(t))
    requires Threaded(nodes, map[], left, right)
    modifies nodes
    ensures visited == InOrder(t)
    ensures |dfs| == |visited| && forall i :: 0 <= i < |dfs| ==> dfs[i] == visited[i].val
    ensures Threaded(nodes, map[], left, right)
    ensures forall m :: m in nodes ==> m.val == old(m.val)
  {
    hide Position, Linked, Context, Rest, Threads, Threaded, InOrder, Last, Remaining, Nodes;
    ghost var u, pending: seq<Tree> := t, [];
    StartPosition(t, left, right);
    dfs, visited := [], [];
    var cur: TreeNode? := root;
    while cur != null
      invariant Ancestors(pending) && Position(t, visited, u, pending, left, right)
      invariant Threaded(nodes, Threads(pending), left, right)
      invariant cur == Current(u, pending)
      invariant |dfs| == |visited| && forall i :: 0 <= i < |dfs| ==> dfs[i] == visited[i].val
      invariant forall m :: m in nodes ==> m.val == old(m.val)
      decreases Remaining(u, pending)
    {
      CurrentInTree(t, visited, u, pending, left, right);
      LeftKept(nodes, Threads(pending), left, right, cur);
      if cur.left == null {
        VisitPosition(t, visited, u, pending, left, right);
        RightLeadsOn(t, visited, u.r, pending, left, right, cur);
        dfs := dfs + [cur.val];
        visited, u := visited + [cur], u.r;
        cur := cur.right;
      } else {
        ghost var a := if u.Node? then u else pending[0];
        var prev := FindLast(cur, a, t, visited, u, pending, left, right);
        if prev.right != null {
          ReturnPosition(t, visited, pending, left, right);
          ReturnThread(t, visited, pending, left, right, prev);
          SetRight(prev, null, nodes, Threads(pending), Threads(pending[1..]), left, right);
          RightLeadsOn(t, visited, a.r, pending[1..], left, right, cur);
          dfs := dfs + [cur.val];
          u, pending := a.r, pending[1..];
          visited := visited + [cur];
          cur := cur.right;
        } else {
          EnterPosition(t, visited, u, pending, left, right);
          SetRight(prev, cur, nodes, Threads(pending), Threads([u] + pending), left, right);
          u, pending := a.l, [u] + pending;
          cur := cur.left;
        }
      }
    }
    EndPosition(t, visited, u, pending, left, right);
  }

  /** The inner loop: down the right spine of the left subtree until its last
      node, whose right link is null on the first arrival and `cur` on the second. */
  method FindLast(cur: TreeNode, ghost a: Tree, ghost t: Tree, ghost visited: seq<TreeNode>, ghost u: Tree,
                  ghost pending: seq<Tree>, ghost left: map<TreeNode, TreeNode?>, ghost right: map<TreeNode, TreeNode?>)
    returns (prev: TreeNode)
    requires NoDup(InOrder(t)) && Position(t, visited, u, pending, left, right)
    requires Threaded(Nodes(t), Threads(pending), left, right)
    requires u.Node? || pending != []
    requires a == if u.Node? then u else pending[0]
    requires a.n == cur && a.l.Node? && cur in Nodes(t)
    ensures prev == Last(a.l) && prev in Nodes(t) && prev in InOrder(a.l)
    ensures prev.right == if u.Node? then null else cur
    ensures prev in right && right[prev] == null
  {
    prev := cur.left;
    ghost var v := a.l;
    LastIsLast(a.l);
    forall m | m in InOrder(a.l)
      ensures m in InOrder(t) && m != cur && m.right == if u.Nil? && m == Last(a.l) then cur else right[m]
    {
      if u.Node? {
        EnterUnthreaded(t, visited, u, pending, left, right, m);
      } else {
        ReturnThread(t, visited, pending, left, right, m);
      }
    }
    LastHasNoRight(a.l, left, right);
    while prev.right != null && prev.right != cur
      invariant v.Node? && Linked(v, left, right) && prev == v.n && Last(v) == Last(a.l)
      invariant forall m :: m in InOrder(v) ==> m in InOrder(a.l)
      invariant prev in InOrder(v) && (v.r.Node? ==> v.r.n in InOrder(v))
      decreases v
    {
      assert v.r.Node?;
      prev := prev.right;
      v := v.r;
    }
  }

  /** The closing loop compares neighbours from the back. */
  method StrictlyIncreasing(dfs: seq<int>) returns (b: bool)
    ensures b <==> forall i, j :: 0 <= i < j < |dfs| ==> dfs[i] < dfs[j]
  {
    var i := |dfs| - 1;
    while i >= 1
      invariant i <= |dfs| - 1
      invariant forall x, y :: 0 <= x && i <= x < y < |dfs| ==> dfs[x] < dfs[y]
    {
      if !(dfs[i - 1] < dfs[i]) { return false; }
      i := i - 1;
    }
    return true;
  }
}
