/** Segmenting a string into dictionary words, by intervals and by prefixes:
    hobbies/leetcode/algorithms/solution_139.cpp.

    The first version records every stretch of the string that can be broken up,
    shortest first; the second keeps one flag per prefix. */
module WordBreak {
  import opened Slices
  import opened Sums

  /** s is a sequence of dictionary words. */
  ghost predicate Breaks(s: string, dict: set<string>)
  {
    exists ws: seq<string> :: Segments(ws, dict) && Flatten(ws) == s
  }

  ghost predicate Segments(ws: seq<string>, dict: set<string>)
  {
    forall i :: 0 <= i < |ws| ==> ws[i] in dict
  }

  // ---------- ways to take a segmentation apart ----------

  lemma EmptyBreaks(dict: set<string>)
    ensures Breaks("", dict)
  {
    var ws: seq<string> := [];
    assert Segments(ws, dict) && Flatten(ws) == "";
  }

  lemma WordBreaks(s: string, w: string, dict: set<string>)
    requires Breaks(s, dict) && w in dict
    ensures Breaks(s + w, dict)
  {
    var ws :| Segments(ws, dict) && Flatten(ws) == s;
    FlattenAppend(ws, w);
    assert Segments(ws + [w], dict) && Flatten(ws + [w]) == s + w;
  }

  lemma {:induction false} FlattenJoin(a: seq<string>, b: seq<string>)
    ensures Flatten(a + b) == Flatten(a) + Flatten(b)
    decreases |b|
  {
    if b == [] {
      assert a + b == a;
    } else {
      hide Flatten;
      var front, w := b[..|b| - 1], b[|b| - 1];
      assert b == front + [w] && a + b == (a + front) + [w];
      FlattenJoin(a, front);
      FlattenAppend(front, w);
      FlattenAppend(a + front, w);
      Associate(Flatten(a), Flatten(front), w);
    }
  }

  lemma BreaksJoin(s: string, t: string, dict: set<string>)
    requires Breaks(s, dict) && Breaks(t, dict)
    ensures Breaks(s + t, dict)
  {
    var a :| Segments(a, dict) && Flatten(a) == s;
    var b :| Segments(b, dict) && Flatten(b) == t;
    FlattenJoin(a, b);
    assert Segments(a + b, dict);
  }

  /** The last non-empty word of a segmentation. */
  lemma {:induction false} LastWord(s: string, ws: seq<string>, dict: set<string>) returns (i: nat)
    requires s != "" && Segments(ws, dict) && Flatten(ws) == s
    ensures i < |s| && s[i..] in dict && Breaks(s[..i], dict)
    decreases |ws|
  {
    var front, w := ws[..|ws| - 1], ws[|ws| - 1];
    if w == "" {
      assert Flatten(front) == s;
      i := LastWord(s, front, dict);
    } else {
      i := |Flatten(front)|;
      assert s == Flatten(front) + w;
      assert s[..i] == Flatten(front) && s[i..] == w;
      assert Segments(front, dict);
    }
  }

  /** A prefix breaks exactly when some word ends it and what is before breaks. */
  lemma PrefixStep(s: string, dict: set<string>)
    requires s != ""
    ensures Breaks(s, dict) <==> exists i: nat :: i < |s| && Breaks(s[..i], dict) && s[i..] in dict
  {
    if Breaks(s, dict) {
      var ws :| Segments(ws, dict) && Flatten(ws) == s;
      var i := LastWord(s, ws, dict);
    }
    if i: nat :| i < |s| && Breaks(s[..i], dict) && s[i..] in dict {
      WordBreaks(s[..i], s[i..], dict);
      assert s[..i] + s[i..] == s;
    }
  }

  lemma WordItself(w: string, dict: set<string>)
    requires w in dict
    ensures Breaks(w, dict)
  {
    EmptyBreaks(dict);
    WordBreaks("", w, dict);
    assert "" + w == w;
  }

  /** A stretch breaks exactly when it is a word or two shorter stretches that break. */
  lemma IntervalStep(t: string, dict: set<string>)
    requires t != ""
    ensures Breaks(t, dict) <==> t in dict || exists k: nat :: 0 < k < |t| && Breaks(t[..k], dict) && Breaks(t[k..], dict)
  {
    PrefixStep(t, dict);
    if Breaks(t, dict) && t !in dict {
      var i: nat :| i < |t| && Breaks(t[..i], dict) && t[i..] in dict;
      assert t[0..] == t;
      WordItself(t[i..], dict);
    }
    if t in dict { WordItself(t, dict); }
    if k: nat :| 0 < k < |t| && Breaks(t[..k], dict) && Breaks(t[k..], dict) {
      BreaksJoin(t[..k], t[k..], dict);
      assert t[..k] + t[k..] == t;
    }
  }

  // ---------- interval dynamic programming ----------

  /** t is two recorded stretches. */
  ghost predicate Splits(records: set<string>, t: string)
  {
    exists k: nat :: 0 < k < |t| && t[..k] in records && t[k..] in records
  }

  method Helper(records: set<string>, s: string) returns (b: bool)
    ensures b <==> Splits(records, s)
  {
    var len := 1;
    while len < |s|
      invariant 1 <= len && forall k: nat :: 0 < k < len && k < |s| ==> !(s[..k] in records && s[k..] in records)
    {
      if s[..len] in records && s[len..] in records { return true; }
      len := len + 1;
    }
    return false;
  }

  /** The records hold stretches that break: all shorter than len, and those of
      length len that start before j. */
  ghost predicate Recorded(records: set<string>, s: string, dict: set<string>, len: nat, j: nat)
  {
    && (forall w :: w in records ==> w != "" && Breaks(w, dict))
    && (forall p: nat, q: nat :: Stretch(s, p, q, len, j) && Breaks(s[p..q], dict) ==> s[p..q] in records)
  }

  ghost predicate Stretch(s: string, p: nat, q: nat, len: nat, j: nat)
  {
    p < q <= |s| && (q - p < len || (q - p == len && p < j))
  }

  lemma RecordStep(records: set<string>, s: string, dict: set<string>, len: nat, j: nat, helped: bool)
    requires len >= 1 && j + len <= |s| && Recorded(records, s, dict, len, j)
    requires helped <==> Splits(records, s[j..j + len])
    ensures Recorded(if helped || s[j..j + len] in dict then records + {s[j..j + len]} else records, s, dict, len, j + 1)
    ensures Breaks(s[j..j + len], dict) <==> helped || s[j..j + len] in dict
  {
    var t := s[j..j + len];
    IntervalStep(t, dict);
    hide Breaks;
    if k: nat :| 0 < k < |t| && Breaks(t[..k], dict) && Breaks(t[k..], dict) {
      SliceOfSlice(s, j, len, k);
      assert Stretch(s, j, j + k, len, j) && Stretch(s, j + k, j + len, len, j);
    }
  }

  lemma SliceOfSlice(s: string, j: nat, len: nat, k: nat)
    requires j + len <= |s| && k <= len
    ensures s[j..j + len][..k] == s[j..j + k] && s[j..j + len][k..] == s[j + k..j + len]
  {
  }

  lemma NextLength(records: set<string>, s: string, dict: set<string>, len: nat, j: nat)
    requires Recorded(records, s, dict, len, j) && j + len == |s| + 1
    ensures Recorded(records, s, dict, len + 1, 0)
  {
    forall p: nat, q: nat | Stretch(s, p, q, len + 1, 0) ensures Stretch(s, p, q, len, j) {}
  }

  lemma NoStretchYet(s: string, dict: set<string>)
    ensures Recorded({}, s, dict, 1, 0)
  {
  }

  lemma NoSplit(records: set<string>, t: string)
    requires |t| == 1
    ensures !Splits(records, t)
  {
  }

  /** The first version: every stretch, shortest first. */
  method WordBreak(s: string, wordDict: set<string>) returns (b: bool)
    ensures b <==> s != "" && Breaks(s, wordDict)
  {
    hide Breaks, Recorded;
    var size := |s|;
    if size == 0 { return false; }
    var records: set<string> := {};
    NoStretchYet(s, wordDict);
    for i := 0 to size
      invariant Recorded(records, s, wordDict, 1, i)
    {
      var tmp := s[i..i + 1];
      NoSplit(records, tmp);
      RecordStep(records, s, wordDict, 1, i, false);
      if tmp in wordDict {
        records := records + {tmp};
      }
    }
    NextLength(records, s, wordDict, 1, size);
    var len := 2;
    while len <= size
      invariant 2 <= len <= size + 1 && Recorded(records, s, wordDict, len, 0)
    {
      var j := 0;
      while j <= size - len
        invariant 0 <= j <= size - len + 1 && Recorded(records, s, wordDict, len, j)
      {
        var tmp := s[j..j + len];
        var helped := Helper(records, tmp);
        RecordStep(records, s, wordDict, len, j, helped);
        if helped || tmp in wordDict {
          records := records + {tmp};
        }
        j := j + 1;
      }
      NextLength(records, s, wordDict, len, j);
      len := len + 1;
    }
    WholeString(records, s, wordDict);
    b := s in records;
  }

  lemma WholeString(records: set<string>, s: string, dict: set<string>)
    requires s != "" && Recorded(records, s, dict, |s| + 1, 0)
    ensures s in records <==> Breaks(s, dict)
  {
    assert Stretch(s, 0, |s|, |s| + 1, 0) && s[0..|s|] == s;
  }

  // ---------- prefix dynamic programming ----------

  ghost predicate PrefixTable(records: seq<bool>, s: string, dict: set<string>, n: nat)
    requires n <= |s| < |records|
  {
    forall i :: 0 <= i <= n ==> (records[i] <==> Breaks(s[..i], dict))
  }

  lemma PrefixEntry(s: string, dict: set<string>, len: nat)
    requires 0 < len <= |s|
    ensures Breaks(s[..len], dict) <==> exists i: nat :: i < len && Breaks(s[..i], dict) && s[i..len] in dict
  {
    var t := s[..len];
    PrefixStep(t, dict);
    assert forall i: nat :: i < len ==> t[..i] == s[..i] && t[i..] == s[i..len];
    hide Breaks;
    if i: nat :| i < len && Breaks(t[..i], dict) && t[i..] in dict { assert Breaks(s[..i], dict); }
    if i: nat :| i < len && Breaks(s[..i], dict) && s[i..len] in dict { assert Breaks(t[..i], dict); }
  }

  /** The second version: prefixes only; the empty string counts as broken up. */
  method WordBreak2(s: string, wordDict: set<string>) returns (b: bool)
    ensures b <==> Breaks(s, wordDict)
  {
    hide Breaks;
    var records := new bool[|s| + 1](_ => false);
    records[0] := true;
    EmptyBreaks(wordDict);
    assert s[..0] == "";
    var len := 1;
    while len <= |s|
      invariant 1 <= len <= |s| + 1
      invariant PrefixTable(records[..], s, wordDict, len - 1)
      invariant forall i :: len <= i <= |s| ==> !records[i]
    {
      PrefixEntry(s, wordDict, len);
      var i := len - 1;
      while i >= 0
        invariant -1 <= i < len
        invariant PrefixTable(records[..], s, wordDict, len - 1)
        invariant forall k :: len <= k <= |s| ==> !records[k]
        invariant forall k: nat :: i < k < len ==> !(Breaks(s[..k], wordDict) && s[k..len] in wordDict)
      {
        if records[i] && !records[len] {
          var word := s[i..len];
          if word in wordDict {
            assert Breaks(s[..i], wordDict);
            records[len] := true;
            break;
          }
        }
        i := i - 1;
      }
      assert records[len] <==> Breaks(s[..len], wordDict);
      len := len + 1;
    }
    assert s[..|s|] == s;
    b := records[|s|];
  }

  /** The two versions differ on the empty string and nowhere else. */
  lemma OnlyEmptyDiffers(s: string, dict: set<string>)
    ensures ((s != "" && Breaks(s, dict)) <==> Breaks(s, dict)) <==> s != ""
  {
    EmptyBreaks(dict);
  }
}
