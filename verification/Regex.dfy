/** The backtracking matcher of hobbies/leetcode/algorithms/solution_10.cpp against
    the languages that regular expressions denote. */
module Regex {
  import opened Slices

  // ---------- regular expressions and what they denote ----------

  datatype Regex =
    | Empty
    | One(c: char)                      // a single character; '.' stands for any
    | Then(first: Regex, second: Regex)
    | Many(r: Regex)

  predicate Fits(c: char, x: char) { c == x || c == '.' }

  ghost predicate In(r: Regex, s: string)
    decreases r, |s|
  {
    match r
    case Empty => s == ""
    case One(c) => |s| == 1 && Fits(c, s[0])
    case Then(a, b) => exists k: nat :: k <= |s| && In(a, s[..k]) && In(b, s[k..])
    case Many(a) => s == "" || exists k: nat :: 0 < k <= |s| && In(a, s[..k]) && In(r, s[k..])
  }

  /** How a pattern is read: a character followed by '*' is repeated, every other
      character, a leading '*' included, stands for itself or for any. */
  function ToRegex(p: string): Regex
  {
    if p == "" then Empty
    else if |p| > 1 && p[1] == '*' then Then(Many(One(p[0])), ToRegex(p[2..]))
    else Then(One(p[0]), ToRegex(p[1..]))
  }

  // ---------- one character, or as many as fit ----------

  lemma OneThen(c: char, r: Regex, s: string)
    ensures In(Then(One(c), r), s) <==> s != "" && Fits(c, s[0]) && In(r, s[1..])
  {
    if s != "" && Fits(c, s[0]) && In(r, s[1..]) {
      assert In(One(c), s[..1]);
    }
  }

  ghost predicate AllFit(c: char, s: string) { forall i :: 0 <= i < |s| ==> Fits(c, s[i]) }

  lemma {:induction false} ManyOnes(c: char, s: string)
    ensures In(Many(One(c)), s) <==> AllFit(c, s)
    decreases |s|
  {
    if s != "" {
      ManyOnes(c, s[1..]);
      if In(Many(One(c)), s) {
        var k: nat :| 0 < k <= |s| && In(One(c), s[..k]) && In(Many(One(c)), s[k..]);
        assert k == 1 && s[..1][0] == s[0];
      }
      if AllFit(c, s) {
        assert AllFit(c, s[1..]) && In(One(c), s[..1]);
      }
    }
  }

  /** After a starred character the rest may start at any place up to which
      everything fits. */
  lemma ManyThen(c: char, r: Regex, s: string)
    ensures In(Then(Many(One(c)), r), s) <==> exists k: nat :: k <= |s| && AllFit(c, s[..k]) && In(r, s[k..])
  {
    forall k: nat | k <= |s| ensures In(Many(One(c)), s[..k]) <==> AllFit(c, s[..k]) { ManyOnes(c, s[..k]); }
    if In(Then(Many(One(c)), r), s) {
      var k: nat :| k <= |s| && In(Many(One(c)), s[..k]) && In(r, s[k..]);
      assert AllFit(c, s[..k]);
    }
    if k: nat :| k <= |s| && AllFit(c, s[..k]) && In(r, s[k..]) {
      assert In(Many(One(c)), s[..k]);
    }
  }

  // ---------- the language, pattern by pattern ----------

  ghost predicate Same(r1: Regex, r2: Regex) { forall s: string :: In(r1, s) <==> In(r2, s) }

  lemma ThenSame(r: Regex, r1: Regex, r2: Regex)
    requires Same(r1, r2)
    ensures Same(Then(r, r1), Then(r, r2))
  {
  }

  lemma Cut(r1: Regex, r2: Regex, s: string) returns (a: string, b: string)
    requires In(Then(r1, r2), s)
    ensures s == a + b && In(r1, a) && In(r2, b)
  {
    var k: nat :| k <= |s| && In(r1, s[..k]) && In(r2, s[k..]);
    a, b := s[..k], s[k..];
  }

  lemma Joined(r1: Regex, r2: Regex, a: string, b: string)
    requires In(r1, a) && In(r2, b)
    ensures In(Then(r1, r2), a + b)
  {
    var s := a + b;
    assert s[..|a|] == a && s[|a|..] == b;
  }

  lemma ToTheRight(r1: Regex, r2: Regex, r3: Regex, s: string)
    requires In(Then(Then(r1, r2), r3), s)
    ensures In(Then(r1, Then(r2, r3)), s)
  {
    hide In;
    var ab, c := Cut(Then(r1, r2), r3, s);
    var a, b := Cut(r1, r2, ab);
    Joined(r2, r3, b, c);
    Joined(r1, Then(r2, r3), a, b + c);
    Associate(a, b, c);
  }

  lemma ToTheLeft(r1: Regex, r2: Regex, r3: Regex, s: string)
    requires In(Then(r1, Then(r2, r3)), s)
    ensures In(Then(Then(r1, r2), r3), s)
  {
    hide In;
    var a, bc := Cut(r1, Then(r2, r3), s);
    var b, c := Cut(r2, r3, bc);
    Joined(r1, r2, a, b);
    Joined(Then(r1, r2), r3, a + b, c);
    Associate(a, b, c);
  }

  lemma ThenAssociates(r1: Regex, r2: Regex, r3: Regex)
    ensures Same(Then(Then(r1, r2), r3), Then(r1, Then(r2, r3)))
  {
    hide In;
    forall s: string | In(Then(Then(r1, r2), r3), s) ensures In(Then(r1, Then(r2, r3)), s) { ToTheRight(r1, r2, r3, s); }
    forall s: string | In(Then(r1, Then(r2, r3)), s) ensures In(Then(Then(r1, r2), r3), s) { ToTheLeft(r1, r2, r3, s); }
  }

  lemma EmptyThen(r: Regex)
    ensures Same(Then(Empty, r), r)
  {
    forall s: string ensures In(Then(Empty, r), s) <==> In(r, s) {
      assert s[..0] == "" && s[0..] == s;
      if In(Then(Empty, r), s) {
        var k: nat :| k <= |s| && In(Empty, s[..k]) && In(r, s[k..]);
        assert k == 0;
      }
    }
  }

  /** Patterns may be taken apart anywhere but in front of a star. */
  lemma {:induction false} Concatenation(p: string, q: string)
    requires q == "" || q[0] != '*'
    ensures Same(ToRegex(p + q), Then(ToRegex(p), ToRegex(q)))
  {
    hide In, Same;
    if p == "" {
      assert p + q == q;
      EmptyThen(ToRegex(q));
      SameBack(Then(Empty, ToRegex(q)), ToRegex(q));
    } else {
      var n := if |p| > 1 && p[1] == '*' then 2 else 1;
      var first := if n == 2 then Many(One(p[0])) else One(p[0]);
      assert (p + q)[n..] == p[n..] + q && (p + q)[0] == p[0] && (|p + q| > 1 && |p| == 1 ==> (p + q)[1] == q[0]);
      assert ToRegex(p + q) == Then(first, ToRegex(p[n..] + q)) && ToRegex(p) == Then(first, ToRegex(p[n..]));
      Concatenation(p[n..], q);
      ThenSame(first, ToRegex(p[n..] + q), Then(ToRegex(p[n..]), ToRegex(q)));
      ThenAssociates(first, ToRegex(p[n..]), ToRegex(q));
      SameBack(Then(ToRegex(p), ToRegex(q)), Then(first, Then(ToRegex(p[n..]), ToRegex(q))));
      SameOn(ToRegex(p + q), Then(first, Then(ToRegex(p[n..]), ToRegex(q))), Then(ToRegex(p), ToRegex(q)));
    }
  }

  lemma SameBack(r1: Regex, r2: Regex)
    requires Same(r1, r2)
    ensures Same(r2, r1)
  {
  }

  lemma SameOn(r1: Regex, r2: Regex, r3: Regex)
    requires Same(r1, r2) && Same(r2, r3)
    ensures Same(r1, r3)
  {
  }

  /** A pattern of ordinary characters matches itself only. */
  lemma {:induction false} Literally(p: string, s: string)
    requires '.' !in p && '*' !in p
    ensures In(ToRegex(p), s) <==> s == p
  {
    hide In;
    if p == "" {
      EmptyOnly(s);
    } else {
      OneThen(p[0], ToRegex(p[1..]), s);
      if s != "" {
        Literally(p[1..], s[1..]);
        assert p == [p[0]] + p[1..] && s == [s[0]] + s[1..];
      }
    }
  }

  /** Dots match any characters, one each. */
  lemma {:induction false} Dots(p: string, s: string)
    requires forall i :: 0 <= i < |p| ==> p[i] == '.'
    ensures In(ToRegex(p), s) <==> |s| == |p|
  {
    hide In;
    if p == "" {
      EmptyOnly(s);
    } else {
      OneThen(p[0], ToRegex(p[1..]), s);
      if s != "" { Dots(p[1..], s[1..]); }
    }
  }

  /** A starred character matches any number of that character, a starred dot
      everything. */
  lemma Starred(c: char, s: string)
    ensures In(ToRegex([c, '*']), s) <==> forall i :: 0 <= i < |s| ==> s[i] == c || c == '.'
  {
    hide In;
    var p := [c, '*'];
    assert p[2..] == "";
    ManyThen(c, Empty, s);
    EmptyOnly(s[|s|..]);
    assert s[..|s|] == s;
    forall k: nat | k <= |s| ensures In(Empty, s[k..]) <==> k == |s| { EmptyOnly(s[k..]); }
  }

  // ---------- the matcher ----------

  method Match(s: string, spos: nat, p: string, ppos: nat) returns (b: bool)
    requires spos <= |s| && ppos <= |p|
    ensures b <==> In(ToRegex(p[ppos..]), s[spos..])
    decreases |p| - ppos, 0
  {
    hide In;
    var q := p[ppos..];
    if ppos == |p| {
      EmptyOnly(s[spos..]);
      return spos == |s|;
    }
    if ppos < |p| - 1 && p[ppos + 1] == '*' {
      assert q[0] == p[ppos] && q[1] == p[ppos + 1] && q[2..] == p[ppos + 2..];
      b := MatchStar(s, spos, p, ppos + 2);
      return;
    }
    assert q[0] == p[ppos] && q[1..] == p[ppos + 1..] && (|q| > 1 ==> q[1] == p[ppos + 1]);
    OneThen(p[ppos], ToRegex(q[1..]), s[spos..]);
    if spos < |s| && (p[ppos] == '.' || p[ppos] == s[spos]) {
      assert s[spos..][1..] == s[spos + 1..];
      b := Match(s, spos + 1, p, ppos + 1);
      return;
    }
    return false;
  }

  lemma EmptyOnly(s: string)
    ensures In(Empty, s) <==> s == ""
  {
  }

  /** The do-while loop: the rest of the pattern is tried before each character
      that the star may swallow. */
  method MatchStar(s: string, spos0: nat, p: string, ppos: nat) returns (b: bool)
    requires spos0 <= |s| && 2 <= ppos <= |p|
    ensures b <==> In(Then(Many(One(p[ppos - 2])), ToRegex(p[ppos..])), s[spos0..])
    decreases |p| - ppos, 1
  {
    hide In;
    var c, spos := p[ppos - 2], spos0;
    ghost var r, t := ToRegex(p[ppos..]), s[spos0..];
    ManyThen(c, r, t);
    while true
      invariant spos0 <= spos <= |s|
      invariant AllFit(c, t[..spos - spos0])
      invariant forall k: nat :: k < spos - spos0 ==> !In(r, t[k..])
      decreases |s| - spos
    {
      assert t[spos - spos0..] == s[spos..];
      b := Match(s, spos, p, ppos);
      if b { return; }
      if !(spos < |s| && (s[spos] == c || c == '.')) { break; }
      assert t[spos - spos0] == s[spos];
      spos := spos + 1;
    }
    forall k: nat | k <= |t| && AllFit(c, t[..k]) ensures !In(r, t[k..]) {
      if spos < |s| { StopsThere(c, t, spos - spos0, k); }
    }
    return false;
  }

  lemma StopsThere(c: char, t: string, j: nat, k: nat)
    requires j < |t| && k <= |t| && AllFit(c, t[..k]) && !Fits(c, t[j])
    ensures k <= j
  {
  }

  method IsMatch(s: string, p: string) returns (b: bool)
    ensures b <==> In(ToRegex(p), s)
  {
    b := Match(s, 0, p, 0);
    assert p[0..] == p && s[0..] == s;
  }
}
