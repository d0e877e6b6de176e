/** The three bracket checkers of hobbies/leetcode/algorithms/solution_20.cpp
    against the grammar of balanced strings over ( ), [ ] and { }. */
module Brackets {

  // ---------- the grammar ----------

  datatype Kind = Round | Square | Curly

  /** Derivations of D ::= nothing | open D close D. */
  datatype Dyck = Empty | Wrap(kind: Kind, inner: Dyck, rest: Dyck)

  function Open(k: Kind): char { match k case Round => '(' case Square => '[' case Curly => '{' }

  function Close(k: Kind): char { match k case Round => ')' case Square => ']' case Curly => '}' }

  ghost function Pair(k: Kind): string { [Open(k), Close(k)] }

  ghost function Yield(d: Dyck): string
  {
    match d
    case Empty => ""
    case Wrap(k, inner, rest) => [Open(k)] + Yield(inner) + [Close(k)] + Yield(rest)
  }

  ghost predicate Balanced(s: string)
  {
    exists d :: Yield(d) == s
  }

  ghost predicate Wrapped(s: string, a: string, b: string)
  {
    s == "(" + a + ")" + b || s == "[" + a + "]" + b || s == "{" + a + "}" + b
  }

  /** The grammar by its literals: a balanced string is empty or a balanced string in
      a pair of brackets, followed by a balanced string. */
  lemma BalancedIs(s: string)
    ensures Balanced(s) <==> s == "" || exists a: string, b: string :: Balanced(a) && Balanced(b) && Wrapped(s, a, b)
  {
    hide Yield, Wrapped, Balanced;
    NothingIsBalanced();
    if Balanced(s) && s != "" { var a, b := Unwrap(s); }
    if a: string, b: string :| Balanced(a) && Balanced(b) && Wrapped(s, a, b) { WrapUp(s, a, b); }
  }

  lemma NothingIsBalanced()
    ensures Balanced("")
  {
    assert Yield(Empty) == "";
  }

  lemma Unwrap(s: string) returns (a: string, b: string)
    requires Balanced(s) && s != ""
    ensures Balanced(a) && Balanced(b) && Wrapped(s, a, b)
  {
    var d :| Yield(d) == s;
    YieldWrapped(d);
    a, b := Yield(d.inner), Yield(d.rest);
  }

  lemma WrapUp(s: string, a: string, b: string)
    requires Balanced(a) && Balanced(b) && Wrapped(s, a, b)
    ensures Balanced(s)
  {
    hide Yield;
    var da, db :| Yield(da) == a && Yield(db) == b;
    YieldWrapped(Wrap(Round, da, db));
    YieldWrapped(Wrap(Square, da, db));
    YieldWrapped(Wrap(Curly, da, db));
  }

  lemma YieldWrapped(d: Dyck)
    requires d.Wrap?
    ensures var a, b, s := Yield(d.inner), Yield(d.rest), Yield(d);
            && (d.kind.Round? ==> s == "(" + a + ")" + b)
            && (d.kind.Square? ==> s == "[" + a + "]" + b)
            && (d.kind.Curly? ==> s == "{" + a + "}" + b)
  {
  }

  // ---------- scanning with a stack ----------

  predicate IsOpen(c: char) { c == '(' || c == '[' || c == '{' }

  predicate IsClose(c: char) { c == ')' || c == ']' || c == '}' }

  /** The opening bracket a closing one answers. */
  function Partner(c: char): char
  {
    if c == ')' then '(' else if c == ']' then '[' else '{'
  }

  /** Whether s closes everything open on the stack and nothing else. */
  ghost predicate Scan(stack: seq<char>, s: string)
    decreases |s|
  {
    if s == "" then stack == []
    else if IsOpen(s[0]) then Scan(stack + [s[0]], s[1..])
    else if IsClose(s[0]) then
      stack != [] && stack[|stack| - 1] == Partner(s[0]) && Scan(stack[..|stack| - 1], s[1..])
    else false
  }

  lemma {:induction false} ScanParity(stack: seq<char>, s: string)
    requires Scan(stack, s)
    ensures (|s| + |stack|) % 2 == 0
    decreases |s|
  {
    if s != "" {
      if IsOpen(s[0]) { ScanParity(stack + [s[0]], s[1..]); } else { ScanParity(stack[..|stack| - 1], s[1..]); }
    }
  }

  /** Erasing an adjacent pair changes nothing. */
  lemma {:induction false} ErasePair(stack: seq<char>, a: string, k: Kind, b: string)
    ensures Scan(stack, a + Pair(k) + b) <==> Scan(stack, a + b)
    decreases |a|
  {
    var s := a + Pair(k) + b;
    if a == "" {
      assert s[1..] == [Close(k)] + b && s[1..][1..] == b && a + b == b;
      assert (stack + [Open(k)])[..|stack|] == stack;
    } else {
      assert s[1..] == a[1..] + Pair(k) + b && (a + b)[1..] == a[1..] + b;
      if IsOpen(a[0]) {
        ErasePair(stack + [a[0]], a[1..], k, b);
      } else if stack != [] {
        ErasePair(stack[..|stack| - 1], a[1..], k, b);
      }
    }
  }

  ghost predicate PairAt(s: string, i: nat, k: Kind)
  {
    i + 2 <= |s| && s[i..i + 2] == Pair(k)
  }

  /** With an opening bracket on top of the stack, an accepted string contains
      an adjacent pair, perhaps formed with that bracket. */
  lemma {:induction false} FindPair(stack: seq<char>, s: string) returns (i: int, k: Kind)
    requires Scan(stack, s) && stack != []
    ensures i == -1 ==> stack[|stack| - 1] == Open(k) && s != "" && s[0] == Close(k)
    ensures i != -1 ==> i >= 0 && PairAt(s, i, k)
    decreases |s|
  {
    if IsOpen(s[0]) {
      i, k := FindPair(stack + [s[0]], s[1..]);
      i := i + 1;
      if i == 0 { assert s[0..2] == [s[0], s[1..][0]]; } else { assert s[i..i + 2] == s[1..][i - 1..i + 1]; }
    } else {
      i := -1;
      k := if s[0] == ')' then Round else if s[0] == ']' then Square else Curly;
    }
  }

  lemma NonEmptyHasPair(s: string) returns (i: nat, k: Kind)
    requires Scan([], s) && s != ""
    ensures PairAt(s, i, k)
  {
    var j;
    j, k := FindPair([] + [s[0]], s[1..]);
    i := j + 1;
    if j == -1 { assert s[0..2] == [s[0], s[1..][0]]; } else { assert s[i..i + 2] == s[1..][j..j + 2]; }
  }

  // ---------- the scanner accepts exactly the grammar ----------

  lemma {:induction false} ScanYield(stack: seq<char>, d: Dyck, t: string)
    ensures Scan(stack, Yield(d) + t) <==> Scan(stack, t)
    decreases d
  {
    match d
    case Empty => assert Yield(d) + t == t;
    case Wrap(k, inner, rest) =>
      var tail := [Close(k)] + (Yield(rest) + t);
      assert Yield(d) + t == [Open(k)] + (Yield(inner) + tail);
      assert (Yield(d) + t)[1..] == Yield(inner) + tail;
      ScanYield(stack + [Open(k)], inner, tail);
      assert tail[1..] == Yield(rest) + t && (stack + [Open(k)])[..|stack|] == stack;
      ScanYield(stack, rest, t);
  }

  ghost function Spliced(s: string, i: nat, p: string): string
    requires i <= |s|
  {
    s[..i] + p + s[i..]
  }

  /** A derivation with one more adjacent pair at position i. */
  lemma {:induction false} Insert(d: Dyck, i: nat, k: Kind) returns (d': Dyck)
    requires i <= |Yield(d)|
    ensures Yield(d') == Spliced(Yield(d), i, Pair(k))
    decreases d
  {
    if i == 0 {
      d' := Wrap(k, Empty, d);
      FrontGrows(d, k);
    } else {
      YieldWrap(d);
      hide Yield, Spliced, Pair;
      var n := |Yield(d.inner)|;
      if i <= 1 + n {
        var inner := Insert(d.inner, i - 1, k);
        d' := Wrap(d.kind, inner, d.rest);
        InnerGrows(d, inner, i - 1, Pair(k));
      } else {
        var rest := Insert(d.rest, i - 2 - n, k);
        d' := Wrap(d.kind, d.inner, rest);
        RestGrows(d, rest, i - 2 - n, Pair(k));
      }
    }
  }

  lemma FrontGrows(d: Dyck, k: Kind)
    ensures Yield(Wrap(k, Empty, d)) == Spliced(Yield(d), 0, Pair(k))
  {
    assert Yield(Empty) == "";
  }

  lemma InnerGrows(d: Dyck, inner: Dyck, j: nat, p: string)
    requires d.Wrap? && j <= |Yield(d.inner)| && Yield(inner) == Spliced(Yield(d.inner), j, p)
    ensures j + 1 <= |Yield(d)| && Yield(d.(inner := inner)) == Spliced(Yield(d), j + 1, p)
  {
    YieldWrap(d);
    YieldWrap(d.(inner := inner));
    hide Spliced, Yield;
    SpliceInner([Open(d.kind)], Yield(d.inner), [Close(d.kind)], Yield(d.rest), j, p);
  }

  lemma RestGrows(d: Dyck, rest: Dyck, j: nat, p: string)
    requires d.Wrap? && j <= |Yield(d.rest)| && Yield(rest) == Spliced(Yield(d.rest), j, p)
    ensures j + 2 + |Yield(d.inner)| <= |Yield(d)|
    ensures Yield(d.(rest := rest)) == Spliced(Yield(d), j + 2 + |Yield(d.inner)|, p)
  {
    YieldWrap(d);
    YieldWrap(d.(rest := rest));
    hide Spliced, Yield;
    SpliceRest([Open(d.kind)], Yield(d.inner), [Close(d.kind)], Yield(d.rest), j, p);
  }

  lemma YieldWrap(d: Dyck)
    requires d.Wrap?
    ensures Yield(d) == [Open(d.kind)] + Yield(d.inner) + [Close(d.kind)] + Yield(d.rest)
  {
  }

  /** Splicing into a part is splicing into the whole. */
  lemma SpliceInner(a: string, y: string, c: string, r: string, j: nat, p: string)
    requires j <= |y|
    ensures a + Spliced(y, j, p) + c + r == Spliced(a + y + c + r, |a| + j, p)
  {
    var w := a + y + c + r;
    assert w[..|a| + j] == a + y[..j];
    assert w[|a| + j..] == y[j..] + c + r;
    assert a + (y[..j] + p + y[j..]) + c + r == (a + y[..j]) + p + (y[j..] + c + r);
  }

  lemma SpliceRest(a: string, y: string, c: string, r: string, j: nat, p: string)
    requires j <= |r|
    ensures var n := |a| + |y| + |c| + j;
            a + y + c + Spliced(r, j, p) == Spliced(a + y + c + r, n, p)
  {
    var w, n := a + y + c + r, |a| + |y| + |c| + j;
    assert w[..n] == a + y + c + r[..j];
    assert w[n..] == r[j..];
  }

  lemma {:induction false} ScanDerives(s: string) returns (d: Dyck)
    requires Scan([], s)
    ensures Yield(d) == s
    decreases |s|
  {
    if s == "" {
      d := Empty;
    } else {
      var i, k := NonEmptyHasPair(s);
      assert s == s[..i] + Pair(k) + s[i + 2..];
      ErasePair([], s[..i], k, s[i + 2..]);
      var s' := s[..i] + s[i + 2..];
      var d' := ScanDerives(s');
      d := Insert(d', i, k);
      assert s'[..i] == s[..i] && s'[i..] == s[i + 2..];
    }
  }

  lemma ScanIsBalanced(s: string)
    ensures Scan([], s) <==> Balanced(s)
  {
    if Scan([], s) { var d := ScanDerives(s); }
    if Balanced(s) {
      var d :| Yield(d) == s;
      ScanYield([], d, "");
      assert s + "" == s;
    }
  }

  /** The two facts behind repeated erasure, in terms of the grammar. */
  lemma ErasureLaws(s: string, i: nat, k: Kind)
    ensures PairAt(s, i, k) ==> (Balanced(s[..i] + s[i + 2..]) <==> Balanced(s))
    ensures Balanced(s) && s != "" ==> exists j: nat, l :: PairAt(s, j, l)
  {
    ScanIsBalanced(s);
    if PairAt(s, i, k) {
      assert s == s[..i] + Pair(k) + s[i + 2..];
      ErasePair([], s[..i], k, s[i + 2..]);
      ScanIsBalanced(s[..i] + s[i + 2..]);
    }
    if Balanced(s) && s != "" { var j, l := NonEmptyHasPair(s); }
  }

  // ---------- the code ----------

  method IsValid(s: string) returns (b: bool)
    ensures b <==> Balanced(s)
  {
    ScanIsBalanced(s);
    if |s| % 2 != 0 {
      if Scan([], s) { ScanParity([], s); }
      return false;
    }
    var sc: seq<char> := [];
    var i := 0;
    assert s[0..] == s;
    while i < |s|
      invariant 0 <= i <= |s| && Scan(sc, s[i..]) == Scan([], s)
    {
      var c := s[i];
      assert s[i..][0] == c && s[i..][1..] == s[i + 1..];
      match c {
        case '(' | '[' | '{' =>
          sc := sc + [c];
        case ')' | ']' | '}' =>
          if sc == [] { return false; }
          var top := sc[|sc| - 1];
          if (c == ')' && top != '(') || (c == ']' && top != '[') || (c == '}' && top != '{') { return false; }
          sc := sc[..|sc| - 1];
        case _ =>
          return false;
      }
      i := i + 1;
    }
    return sc == [];
  }

  /** The map-driven checker pushes every character that is no closing bracket. */
  method IsValid2(s: string) returns (b: bool)
    ensures b <==> Balanced(s)
  {
    ScanIsBalanced(s);
    if |s| % 2 != 0 {
      if Scan([], s) { ScanParity([], s); }
      return false;
    }
    var left: seq<char> := [];
    var pm := map[')' := '(', ']' := '[', '}' := '{'];
    ghost var junk := false;  // something other than a bracket has been pushed
    var i := 0;
    assert s[0..] == s;
    while i < |s|
      invariant 0 <= i <= |s|
      invariant !junk ==> Scan(left, s[i..]) == Scan([], s)
      invariant junk ==> !Scan([], s) && exists c :: c in left && !IsOpen(c)
    {
      assert s[i..][0] == s[i] && s[i..][1..] == s[i + 1..];
      if s[i] in pm {
        if left == [] || left[|left| - 1] != pm[s[i]] { return false; }
        if junk { JunkStays(left); }
        left := left[..|left| - 1];
      } else {
        if junk { assert forall c :: c in left ==> c in left + [s[i]]; }
        if !IsOpen(s[i]) { junk := true; assert s[i] in left + [s[i]]; }
        left := left + [s[i]];
      }
      i := i + 1;
    }
    return left == [];
  }

  lemma JunkStays(left: seq<char>)
    requires left != [] && IsOpen(left[|left| - 1]) && exists c :: c in left && !IsOpen(c)
    ensures exists c :: c in left[..|left| - 1] && !IsOpen(c)
  {
    var c :| c in left && !IsOpen(c);
    assert c in left[..|left| - 1];
  }

  /** std::string::find for a two-character needle. */
  method Find(s: string, k: Kind) returns (l: int)
    ensures l == -1 ==> forall i: nat :: !PairAt(s, i, k)
    ensures l != -1 ==> l >= 0 && PairAt(s, l, k) && forall i: nat :: i < l ==> !PairAt(s, i, k)
  {
    l := 0;
    while l + 2 <= |s|
      invariant 0 <= l && forall i: nat :: i < l ==> !PairAt(s, i, k)
    {
      if s[l] == Open(k) && s[l + 1] == Close(k) {
        assert s[l..l + 2] == Pair(k);
        return;
      }
      assert s[l..l + 2][0] == s[l] && s[l..l + 2][1] == s[l + 1];
      l := l + 1;
    }
    return -1;
  }

  /** find, and erase(l, 2) when found. */
  method EraseFirst(s: string, k: Kind) returns (t: string, found: bool)
    ensures Scan([], t) == Scan([], s)
    ensures found ==> |t| == |s| - 2
    ensures !found ==> t == s && forall i: nat :: !PairAt(s, i, k)
  {
    var l := Find(s, k);
    if l == -1 { return s, false; }
    assert s == s[..l] + Pair(k) + s[l + 2..];
    ErasePair([], s[..l], k, s[l + 2..]);
    return s[..l] + s[l + 2..], true;
  }

  method IsValid3(t: string) returns (b: bool)
    ensures b <==> Balanced(t)
  {
    ScanIsBalanced(t);
    var s := t;
    if |s| % 2 != 0 {
      if Scan([], s) { ScanParity([], s); }
      return false;
    }
    while s != ""
      invariant Scan([], s) == Scan([], t)
      decreases |s|
    {
      var l, m, c;
      s, l := EraseFirst(s, Round);
      s, m := EraseFirst(s, Square);
      s, c := EraseFirst(s, Curly);
      if !l && !m && !c {
        if Scan([], s) { var i, k := NonEmptyHasPair(s); }
        return false;
      }
    }
    return true;
  }
}
