/** Shortest word ladders by breadth-first search:
    hobbies/leetcode/algorithms/solution_127.cpp. */
module WordLadder {

  predicate IsLetter(c: char) { 'a' <= c <= 'z' }

  /** t is s with one letter replaced by a different lower-case letter. */
  ghost predicate StepAt(s: string, t: string, j: nat)
  {
    j < |s| && |t| == |s| && t[j] != s[j] && IsLetter(t[j]) && t == s[j := t[j]]
  }

  ghost predicate Step(s: string, t: string)
  {
    exists j: nat :: StepAt(s, t, j)
  }

  /** A transformation from first to last whose intermediate words are in dict. */
  ghost predicate Ladder(p: seq<string>, first: string, last: string, dict: set<string>)
  {
    && |p| >= 2 && p[0] == first && p[|p| - 1] == last
    && (forall i :: 0 <= i < |p| - 1 ==> Step(p[i], p[i + 1]))
    && (forall i :: 0 < i < |p| - 1 ==> p[i] in dict)
  }

  /** r is the number of words on a shortest ladder, 0 when there is none. */
  ghost predicate IsShortest(r: int, first: string, last: string, dict: set<string>)
  {
    if r == 0 then forall p :: !Ladder(p, first, last, dict)
    else (exists p :: |p| == r && Ladder(p, first, last, dict)) &&
         forall p :: Ladder(p, first, last, dict) ==> r <= |p|
  }

  /** s and t are of one length and differ at j only, where t has a letter from a to z. */
  ghost predicate DifferAt(s: string, t: string, j: nat)
  {
    && |t| == |s| && j < |s| && t[j] != s[j] && 'a' <= t[j] <= 'z'
    && forall k :: 0 <= k < |s| && k != j ==> t[k] == s[k]
  }

  lemma StepIs(s: string, t: string)
    ensures Step(s, t) <==> exists j: nat :: DifferAt(s, t, j)
  {
    if j: nat :| StepAt(s, t, j) { assert DifferAt(s, t, j); }
    if j: nat :| DifferAt(s, t, j) { assert StepAt(s, t, j); }
  }

  /** There is one answer: a number of words that some ladder has and none falls
      below, or 0 without a ladder. */
  lemma ShortestIsUnique(r1: int, r2: int, first: string, last: string, dict: set<string>)
    requires IsShortest(r1, first, last, dict) && IsShortest(r2, first, last, dict)
    ensures r1 == r2
    ensures r1 == 0 <==> forall p :: !Ladder(p, first, last, dict)
    ensures forall p :: Ladder(p, first, last, dict) ==> 2 <= r1 <= |p|
  {
  }

  // ---------- the words within reach ----------

  /** The words reached from `first` by chains of at most n words of dict. */
  ghost function Near(first: string, dict: set<string>, n: nat): set<string>
  {
    if n == 0 then {} else if n == 1 then {first} else
      Near(first, dict, n - 1) + OneStepOn(Near(first, dict, n - 1), dict)
  }

  ghost function OneStepOn(s: set<string>, dict: set<string>): set<string>
  {
    set w | w in dict && StepFrom(s, w)
  }

  ghost predicate StepFrom(s: set<string>, w: string)
  {
    exists v :: v in s && Step(v, w)
  }

  /** Every word but the last of a ladder is within reach. */
  lemma {:induction false} LadderIsNear(p: seq<string>, first: string, last: string, dict: set<string>, i: nat)
    requires Ladder(p, first, last, dict) && i < |p| - 1
    ensures p[i] in Near(first, dict, i + 1)
  {
    if i > 0 {
      LadderIsNear(p, first, last, dict, i - 1);
      assert Step(p[i - 1], p[i - 1 + 1]);
      assert StepFrom(Near(first, dict, i), p[i]);
    }
  }

  lemma NearIsClosed(first: string, dict: set<string>, n: nat, v: string, w: string)
    requires v in Near(first, dict, n) && w in dict && Step(v, w)
    ensures w in Near(first, dict, n + 1)
  {
    assert StepFrom(Near(first, dict, n), w);
  }

  /** A ladder of at most n + 1 words leaves the words within reach n for the end. */
  lemma LadderLeaves(p: seq<string>, first: string, last: string, dict: set<string>, n: nat)
    requires Ladder(p, first, last, dict) && |p| <= n + 1
    ensures StepFrom(Near(first, dict, n), last)
  {
    LadderIsNear(p, first, last, dict, |p| - 2);
    NearGrows(first, dict, |p| - 1, n);
    assert Step(p[|p| - 2], p[|p| - 2 + 1]);
  }

  /** A chain that reaches w, with every word after the first in dict. */
  ghost predicate Chain(p: seq<string>, first: string, w: string, dict: set<string>)
  {
    && |p| >= 1 && p[0] == first && p[|p| - 1] == w
    && (forall i :: 0 <= i < |p| - 1 ==> Step(p[i], p[i + 1]))
    && (forall i :: 0 < i < |p| ==> p[i] in dict)
  }

  lemma {:induction false} NearHasChain(first: string, dict: set<string>, n: nat, w: string) returns (p: seq<string>)
    requires w in Near(first, dict, n)
    ensures Chain(p, first, w, dict) && |p| <= n
  {
    if n == 1 {
      p := [first];
    } else if w in Near(first, dict, n - 1) {
      p := NearHasChain(first, dict, n - 1, w);
    } else {
      var v :| v in Near(first, dict, n - 1) && Step(v, w);
      var q := NearHasChain(first, dict, n - 1, v);
      p := q + [w];
    }
  }

  lemma {:induction false} NearGrows(first: string, dict: set<string>, m: nat, n: nat)
    requires m <= n
    ensures Near(first, dict, m) <= Near(first, dict, n)
    decreases n - m
  {
    if m < n { NearGrows(first, dict, m, n - 1); }
  }

  lemma NearUnfolds(first: string, dict: set<string>, n: nat)
    requires n >= 1
    ensures Near(first, dict, n + 1) == Near(first, dict, n) + OneStepOn(Near(first, dict, n), dict)
  {
  }

  /** Once a round adds nothing, no later round does. */
  lemma {:induction false} NearStops(first: string, dict: set<string>, k: nat, n: nat)
    requires 1 <= k <= n && Near(first, dict, k) == Near(first, dict, k + 1)
    ensures Near(first, dict, n) == Near(first, dict, k)
    decreases n - k
  {
    hide Near, OneStepOn;
    if k < n {
      NearStops(first, dict, k, n - 1);
      NearUnfolds(first, dict, k);
      NearUnfolds(first, dict, n - 1);
    }
  }

  // ---------- what the search maintains ----------

  ghost predicate NoStepTo(s: set<string>, last: string)
  {
    forall v :: v in s ==> !Step(v, last)
  }

  ghost function Elements(q: seq<string>): set<string> { set w | w in q }

  /** Before round `steps`: the queue holds the words first reached in this round,
      the word list those not reached yet, and no earlier word leads to the end. */
  ghost predicate Round(q: seq<string>, wordList: set<string>, steps: nat, first: string, last: string, dict: set<string>)
  {
    && steps >= 1
    && wordList == dict - Near(first, dict, steps)
    && Elements(q) <= Near(first, dict, steps)
    && Near(first, dict, steps) == Near(first, dict, steps - 1) + Elements(q)
    && NoStepTo(Near(first, dict, steps - 1), last)
  }

  /** Inside a round: `current` is still to be handled, `next` has been found for
      the following round, and the words in `done` have been handled. */
  ghost predicate Within(current: seq<string>, next: seq<string>, done: set<string>, wordList: set<string>,
                         steps: nat, first: string, last: string, dict: set<string>)
  {
    && steps >= 1
    && Near(first, dict, steps) == done + Elements(current)
    && wordList == dict - Near(first, dict, steps) - Elements(next)
    && (forall w :: w in next ==> w in dict && StepFrom(Near(first, dict, steps), w))
    && NoStepTo(done, last)
    && Near(first, dict, steps - 1) <= done
    && (forall v, w :: v in done && w in wordList ==> !Step(v, w))
  }

  lemma StartRound(first: string, last: string, dict: set<string>)
    ensures Round([first], dict - {first}, 1, first, last, dict)
  {
  }

  lemma BeginRound(q: seq<string>, wordList: set<string>, steps: nat, first: string, last: string, dict: set<string>)
    requires Round(q, wordList, steps, first, last, dict)
    ensures Within(q, [], Near(first, dict, steps - 1), wordList, steps, first, last, dict)
  {
    var before: nat := steps - 1;
    forall v, w | v in Near(first, dict, before) && w in wordList ensures !Step(v, w) {
      if Step(v, w) { NearIsClosed(first, dict, before, v, w); }
    }
  }

  /** The round is over: what was found is exactly what lies one step further. */
  lemma EndRound(next: seq<string>, done: set<string>, wordList: set<string>,
                 steps: nat, first: string, last: string, dict: set<string>)
    requires Within([], next, done, wordList, steps, first, last, dict)
    ensures Round(next, wordList, steps + 1, first, last, dict)
  {
    var near := Near(first, dict, steps);
    forall w | w in dict && StepFrom(near, w) && w !in near ensures w in next {
      var v :| v in near && Step(v, w);
    }
    assert Near(first, dict, steps + 1) == near + Elements(next);
  }

  /** A word handled without meeting the end moves to `done`. */
  lemma WordHandled(s: string, current: seq<string>, found: seq<string>, next: seq<string>, done: set<string>, wordList: set<string>,
                    wordList': set<string>, steps: nat, first: string, last: string, dict: set<string>)
    requires Within([s] + current, next, done, wordList, steps, first, last, dict)
    requires !Step(s, last)
    requires wordList' == wordList - Elements(found)
    requires forall w :: w in found ==> w in wordList && Step(s, w)
    requires forall w :: w in wordList' ==> !Step(s, w)
    ensures Within(current, next + found, done + {s}, wordList', steps, first, last, dict)
  {
    assert Elements([s] + current) == {s} + Elements(current);
    assert Elements(next + found) == Elements(next) + Elements(found);
    assert s in Near(first, dict, steps) by { assert s in [s] + current; }
  }

  /** The search meets the end: the ladder found is a shortest one. */
  lemma Meets(s: string, current: seq<string>, next: seq<string>, done: set<string>, wordList: set<string>,
              steps: nat, first: string, last: string, dict: set<string>)
    requires Within([s] + current, next, done, wordList, steps, first, last, dict) && Step(s, last)
    ensures IsShortest(steps + 1, first, last, dict)
  {
    assert s in Elements([s] + current) by { assert s in [s] + current; }
    var q := NearHasChain(first, dict, steps, s);
    var l := q + [last];
    assert Ladder(l, first, last, dict);
    forall p | Ladder(p, first, last, dict) ensures steps + 1 <= |p| {
      if |p| <= steps { LadderLeaves(p, first, last, dict, steps - 1); }
    }
    assert |l| == steps + 1;
  }

  /** The queue runs empty: there is no ladder. */
  lemma Exhausted(wordList: set<string>, steps: nat, first: string, last: string, dict: set<string>)
    requires Round([], wordList, steps, first, last, dict)
    ensures IsShortest(0, first, last, dict)
  {
    var near := Near(first, dict, steps);
    assert Elements([]) == {};
    assert near == Near(first, dict, steps - 1);
    NearGrows(first, dict, 1, steps);
    assert steps >= 2;
    forall p ensures !Ladder(p, first, last, dict) {
      if Ladder(p, first, last, dict) { Unreachable(p, steps, first, last, dict); }
    }
  }

  lemma Unreachable(p: seq<string>, steps: nat, first: string, last: string, dict: set<string>)
    requires Ladder(p, first, last, dict) && steps >= 2 && Near(first, dict, steps) == Near(first, dict, steps - 1)
    ensures StepFrom(Near(first, dict, steps - 1), last)
  {
    hide Near, Ladder;
    var n := if |p| > steps then |p| else steps;
    LadderLeaves(p, first, last, dict, n);
    NearStops(first, dict, steps - 1, n);
  }

  // ---------- the code ----------

  /** The inner two loops: every one-letter change of s.  `hit` when one of them is
      the end word; otherwise `found` are the words taken out of the word list. */
  method Neighbours(s0: string, endWord: string, wordList0: set<string>)
    returns (hit: bool, found: seq<string>, wordList: set<string>)
    ensures hit <==> Step(s0, endWord)
    ensures wordList == wordList0 - Elements(found)
    ensures forall w :: w in found ==> w in wordList0 && Step(s0, w)
    ensures !hit ==> forall w :: w in wordList ==> !Step(s0, w)
  {
    var s := s0;
    found, wordList := [], wordList0;
    var j := 0;
    while j < |s0|
      invariant 0 <= j <= |s0| && s == s0
      invariant wordList == wordList0 - Elements(found)
      invariant forall w :: w in found ==> w in wordList0 && Step(s0, w)
      invariant forall i: nat :: i < j ==> !StepAt(s0, endWord, i)
      invariant forall w, i: nat :: w in wordList && i < j ==> !StepAt(s0, w, i)
    {
      var c := 'a';
      while c <= 'z'
        invariant 'a' <= c <= '{' && s == s0
        invariant wordList == wordList0 - Elements(found)
        invariant forall w :: w in found ==> w in wordList0 && Step(s0, w)
        invariant forall i: nat :: i < j ==> !StepAt(s0, endWord, i)
        invariant forall w, i: nat :: w in wordList && i < j ==> !StepAt(s0, w, i)
        invariant StepAt(s0, endWord, j) ==> endWord[j] >= c
        invariant forall w :: w in wordList && StepAt(s0, w, j) ==> w[j] >= c
        decreases '{' as int - c as int
      {
        if s[j] != c {
          s, c := s[j := c], s[j];
          assert StepAt(s0, s, j) && Step(s0, s);
          if s == endWord { return true, found, wordList; }
          if s in wordList {
            assert Elements(found + [s]) == Elements(found) + {s};
            found := found + [s];
            wordList := wordList - {s};
          }
          s, c := s[j := c], s[j];
        }
        c := c + 1 as char;
      }
      j := j + 1;
    }
    return false, found, wordList;
  }

  /** The dictionary is shrunk in place by the source and returned here. */
  method LadderLength(beginWord: string, endWord: string, dict: set<string>) returns (r: nat, wordList: set<string>)
    ensures dict != {} ==> IsShortest(r, beginWord, endWord, dict)
    ensures dict == {} ==> r == 0
    ensures wordList <= dict
  {
    hide Round, Within, IsShortest, Step;
    wordList := dict;
    if dict == {} { return 0, wordList; }
    var qs := [beginWord];
    wordList := wordList - {beginWord};
    var steps := 1;
    StartRound(beginWord, endWord, dict);
    while qs != []
      invariant steps >= 1 && wordList <= dict
      invariant Round(qs, wordList, steps, beginWord, endWord, dict)
      decreases wordList, |qs|
    {
      var count := |qs|;
      ghost var current, next: seq<string>, done := qs, [], Near(beginWord, dict, steps - 1);
      ghost var before := wordList;
      BeginRound(qs, wordList, steps, beginWord, endWord, dict);
      var i := 0;
      while i < count
        invariant 0 <= i <= count && |current| == count - i && qs == current + next
        invariant wordList <= before && wordList <= dict && (wordList == before ==> next == [])
        invariant Within(current, next, done, wordList, steps, beginWord, endWord, dict)
      {
        var s := qs[0];
        assert current == [s] + current[1..];
        var hit, found, wordList' := Neighbours(s, endWord, wordList);
        if hit {
          Meets(s, current[1..], next, done, wordList, steps, beginWord, endWord, dict);
          return steps + 1, wordList';
        }
        WordHandled(s, current[1..], found, next, done, wordList, wordList', steps, beginWord, endWord, dict);
        assert wordList' == before ==> found == [] by { if found != [] { assert found[0] in found; } }
        assert qs[1..] == current[1..] + next;
        assert current[1..] + next + found == current[1..] + (next + found);
        qs := qs[1..] + found;
        current, next, done, wordList := current[1..], next + found, done + {s}, wordList';
        i := i + 1;
      }
      assert current == [] && qs == next;
      EndRound(next, done, wordList, steps, beginWord, endWord, dict);
      steps := steps + 1;
    }
    Exhausted(wordList, steps, beginWord, endWord, dict);
    return 0, wordList;
  }

  /** The early return on an empty dictionary is right exactly when the end word
      is not one step away. */
  lemma EmptyDictionary(first: string, last: string)
    ensures IsShortest(0, first, last, {}) <==> !Step(first, last)
  {
    if Step(first, last) {
      assert Ladder([first, last], first, last, {});
    } else {
      forall p ensures !Ladder(p, first, last, {}) {
        if Ladder(p, first, last, {}) {
          NoMiddle(p, first, last, {});
        }
      }
    }
  }

  lemma NoMiddle(p: seq<string>, first: string, last: string, dict: set<string>)
    requires Ladder(p, first, last, dict) && dict == {}
    ensures Step(first, last)
  {
    var w := p[1];
    assert Step(p[0], p[0 + 1]);
  }
}
