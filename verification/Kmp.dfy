/** Substring search with a failure table: hobbies/leetcode/algorithms/solution_28.cpp. */
module Kmp {

  /** The last j characters of h[..i] are the first j of p. */
  ghost predicate Match(h: string, i: nat, p: string, j: nat)
  {
    i <= |h| && j <= |p| && j <= i && forall k :: 0 <= k < j ==> p[k] == h[i - j + k]
  }

  /** b is the length of a proper border of p[..i]: a prefix that is also a suffix. */
  ghost predicate Border(p: string, i: nat, b: nat)
  {
    b < i && Match(p, i, p, b)
  }

  ghost predicate LongestBorder(p: string, i: nat, b: int)
  {
    if i == 0 then b == -1
    else b >= 0 && Border(p, i, b) && forall c: nat :: Border(p, i, c) ==> c <= b
  }

  /** The failure table, filled in up to and including position n. */
  ghost predicate Table(p: string, table: seq<int>, n: int)
  {
    n < |table| && forall i :: 0 <= i <= n ==> LongestBorder(p, i, table[i])
  }

  ghost predicate Occurs(h: string, p: string, at: int)
  {
    0 <= at && at + |p| <= |h| && h[at..at + |p|] == p
  }

  /** What strStr is asked for. */
  ghost predicate FirstOccurrence(h: string, p: string, r: int)
  {
    if r == -1 then forall q :: !Occurs(h, p, q)
    else Occurs(h, p, r) && forall q :: Occurs(h, p, q) ==> r <= q
  }

  // ---------- facts about borders ----------

  /** One more matching character. */
  lemma MatchExtends(h: string, i: nat, p: string, j: nat)
    requires i < |h| && j < |p|
    ensures Match(h, i + 1, p, j + 1) <==> Match(h, i, p, j) && p[j] == h[i]
  {
    if Match(h, i + 1, p, j + 1) {
      assert p[j] == h[i + 1 - (j + 1) + j];
      forall k | 0 <= k < j ensures p[k] == h[i - j + k] { assert p[k] == h[i + 1 - (j + 1) + k]; }
    }
  }

  /** Among the matches at i, those shorter than j are exactly the borders of p[..j]. */
  lemma ShorterMatches(h: string, i: nat, p: string, j: nat, b: nat)
    requires Match(h, i, p, j) && b < j
    ensures Match(h, i, p, b) <==> Border(p, j, b)
  {
    if Match(h, i, p, b) {
      forall k | 0 <= k < b ensures p[k] == p[j - b + k] { assert p[j - b + k] == h[i - j + (j - b + k)]; }
    }
    if Border(p, j, b) {
      forall k | 0 <= k < b ensures p[k] == h[i - b + k] { assert p[j - b + k] == h[i - j + (j - b + k)]; }
    }
  }

  /** After falling back from j, the matches skipped are no matches at all. */
  lemma FallBack(h: string, i: nat, p: string, j: nat, table: seq<int>, n: int)
    requires Match(h, i, p, j) && j < |p| && j <= n && Table(p, table, n)
    ensures -1 <= table[j] < j
    ensures table[j] >= 0 ==> Match(h, i, p, table[j])
    ensures forall b: nat :: table[j] < b < j ==> !Match(h, i, p, b)
  {
    assert LongestBorder(p, j, table[j]);
    forall b: nat | b < j ensures Match(h, i, p, b) <==> Border(p, j, b) {
      ShorterMatches(h, i, p, j, b);
    }
  }

  // ---------- the table ----------

  /** Every match at i longer than j is cut off by the next character. */
  ghost predicate NoneLonger(h: string, i: nat, p: string, j: int, limit: int)
  {
    i < |h| && limit <= |p| && forall b: nat :: j < b < limit && Match(h, i, p, b) ==> p[b] != h[i]
  }

  lemma LongestLeavesNoneLonger(p: string, i: nat, j: int)
    requires i < |p| && LongestBorder(p, i, j)
    ensures -1 <= j < |p| && (j >= 0 ==> j < i && Match(p, i, p, j))
    ensures NoneLonger(p, i, p, j, i)
  {
    forall b: nat | b < i && Match(p, i, p, b) ensures b <= j { assert Border(p, i, b); }
  }

  lemma NewBorder(p: string, i: nat, j: int, next: nat)
    requires next == i + 1 < |p| && -1 <= j < next
    requires j >= 0 ==> j < i && Match(p, i, p, j) && p[j] == p[i]
    requires NoneLonger(p, i, p, j, i)
    ensures LongestBorder(p, next, j + 1)
  {
    if j >= 0 { MatchExtends(p, i, p, j); }
    forall c: nat | Border(p, next, c) ensures c <= j + 1 {
      if c > 0 { MatchExtends(p, i, p, c - 1); }
    }
  }

  method BuildTable(needle: string) returns (table: array<int>)
    requires needle != ""
    ensures fresh(table) && table.Length == |needle|
    ensures Table(needle, table[..], |needle| - 1)
  {
    hide Match;
    var m := |needle|;
    table := new int[m](_ => -1);
    var i, j := 0, -1;
    while i < m - 1
      invariant 0 <= i <= m - 1 && j == table[i]
      invariant Table(needle, table[..], i)
    {
      assert LongestBorder(needle, i, table[..][i]);
      LongestLeavesNoneLonger(needle, i, j);
      while j >= 0 && needle[i] != needle[j]
        invariant -1 <= j && (j >= 0 ==> j < i && Match(needle, i, needle, j))
        invariant NoneLonger(needle, i, needle, j, i)
        invariant Table(needle, table[..], i)
        decreases j
      {
        FallBack(needle, i, needle, j, table[..], i);
        j := table[j];
      }
      NewBorder(needle, i, j, i + 1);
      i, j := i + 1, j + 1;
      table[i] := j;
    }
  }

  // ---------- the search ----------

  lemma MatchIsOccurrence(h: string, p: string, at: nat)
    requires at + |p| <= |h|
    ensures Occurs(h, p, at) <==> Match(h, at + |p|, p, |p|)
  {
    if Match(h, at + |p|, p, |p|) {
      forall k | 0 <= k < |p| ensures h[at..at + |p|][k] == p[k] {
        assert p[k] == h[at + |p| - |p| + k];
      }
    }
    if Occurs(h, p, at) {
      forall k | 0 <= k < |p| ensures p[k] == h[at + |p| - |p| + k] { assert h[at..at + |p|][k] == p[k]; }
    }
  }

  /** No occurrence ends at or before i. */
  ghost predicate NotYet(h: string, p: string, i: nat)
  {
    forall e: nat :: e <= i ==> !Match(h, e, p, |p|)
  }

  lemma FoundFirst(h: string, p: string, i: nat)
    requires p != "" && 0 < i <= |h| && Match(h, i, p, |p|) && NotYet(h, p, i - 1)
    ensures FirstOccurrence(h, p, i - |p|)
  {
    MatchIsOccurrence(h, p, i - |p|);
    forall q | Occurs(h, p, q) ensures i - |p| <= q { MatchIsOccurrence(h, p, q); }
  }

  lemma NotFound(h: string, p: string)
    requires NotYet(h, p, |h|)
    ensures FirstOccurrence(h, p, -1)
  {
    forall q ensures !Occurs(h, p, q) { if Occurs(h, p, q) { MatchIsOccurrence(h, p, q); } }
  }

  lemma NextMatch(h: string, i: nat, p: string, j: int, next: nat)
    requires p != "" && next == i + 1 <= |h| && -1 <= j < |p| && (j >= 0 ==> Match(h, i, p, j) && p[j] == h[i])
    requires NoneLonger(h, i, p, j, |p|)
    ensures Match(h, next, p, j + 1)
    ensures forall b: nat :: b > j + 1 ==> !Match(h, next, p, b)
  {
    if j >= 0 { MatchExtends(h, i, p, j); }
    forall b: nat | b > j + 1 ensures !Match(h, next, p, b) {
      if b <= |p| { MatchExtends(h, i, p, b - 1); }
    }
  }

  /** `falls` counts the executions of the fallback statement in the search. */
  method StrStr(haystack: string, needle: string) returns (r: int, ghost falls: nat)
    requires needle != ""
    ensures FirstOccurrence(haystack, needle, r)
    ensures falls <= |haystack|
  {
    hide Match;
    var m := |needle|;
    var table := BuildTable(needle);
    var i, j := 0, 0;
    falls := 0;
    EmptyMatch(haystack, needle);
    while i < |haystack|
      invariant 0 <= i <= |haystack| && 0 <= j < m
      invariant Match(haystack, i, needle, j)
      invariant forall b: nat :: b > j ==> !Match(haystack, i, needle, b)
      invariant NotYet(haystack, needle, i)
      invariant Table(needle, table[..], m - 1)
      invariant falls + j <= i
    {
      while j >= 0 && haystack[i] != needle[j]
        invariant -1 <= j < m && (j >= 0 ==> Match(haystack, i, needle, j))
        invariant NoneLonger(haystack, i, needle, j, m)
        invariant Table(needle, table[..], m - 1)
        invariant falls + j <= i
        decreases j
      {
        FallBack(haystack, i, needle, j, table[..], m - 1);
        j := table[j];
        falls := falls + 1;
      }
      NextMatch(haystack, i, needle, j, i + 1);
      i, j := i + 1, j + 1;
      if j == m {
        FoundFirst(haystack, needle, i);
        return i - j, falls;
      }
    }
    NotFound(haystack, needle);
    return -1, falls;
  }

  lemma EmptyMatch(h: string, p: string)
    requires p != ""
    ensures Match(h, 0, p, 0) && NotYet(h, p, 0)
    ensures forall b: nat :: b > 0 ==> !Match(h, 0, p, b)
  {
  }
}
