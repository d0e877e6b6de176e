/** Longest palindromic substrings, hobbies/leetcode/algorithms/solution_5.cpp:
    expansion round every centre, and the linear-time table of Manacher. */
module Palindrome {

  /** s[lo..hi] reads the same both ways. */
  ghost predicate Pal(s: string, lo: nat, hi: nat)
  {
    lo <= hi <= |s| && forall k :: lo <= k < hi ==> s[k] == s[lo + hi - 1 - k]
  }

  ghost predicate Longest(s: string, lo: nat, hi: nat)
  {
    Pal(s, lo, hi) && forall l: nat, h: nat :: Pal(s, l, h) ==> h - l <= hi - lo
  }

  /** Of the longest palindromic substrings, the one whose centre comes first. */
  ghost predicate FirstLongest(s: string, lo: nat, hi: nat)
  {
    Longest(s, lo, hi) && forall l: nat, h: nat :: Longest(s, l, h) ==> lo + hi <= l + h
  }

  lemma FirstLongestIsUnique(s: string, lo: nat, hi: nat, l: nat, h: nat)
    requires FirstLongest(s, lo, hi) && FirstLongest(s, l, h)
    ensures lo == l && hi == h
  {
  }

  /** The two ends of a palindrome are equal and what lies between is one again. */
  lemma PalEnds(s: string, lo: nat, hi: nat)
    requires lo + 1 < hi
    ensures Pal(s, lo, hi) <==> hi <= |s| && s[lo] == s[hi - 1] && Pal(s, lo + 1, hi - 1)
  {
    if hi <= |s| && s[lo] == s[hi - 1] && Pal(s, lo + 1, hi - 1) {
      forall k | lo <= k < hi ensures s[k] == s[lo + hi - 1 - k] {
        if lo < k < hi - 1 { assert s[k] == s[(lo + 1) + (hi - 1) - 1 - k]; }
      }
    }
    if Pal(s, lo, hi) {
      assert s[lo] == s[lo + hi - 1 - lo];
      forall k | lo + 1 <= k < hi - 1 ensures s[k] == s[(lo + 1) + (hi - 1) - 1 - k] {}
    }
  }

  // ---------- expansion round every centre ----------

  /** Of the palindromes with centres before bound, s[lo..hi] is the first longest. */
  ghost predicate Leads(s: string, lo: int, hi: int, bound: int)
  {
    && 0 <= lo <= hi && Pal(s, lo, hi) && lo + hi < bound
    && forall l: nat, h: nat :: Pal(s, l, h) && l + h < bound ==>
         h - l <= hi - lo && (h - l == hi - lo ==> lo + hi <= l + h)
  }

  /** The inner loop, run from both kinds of centre. */
  method Expand(s: string, low0: int, high0: nat, maxLen0: nat, start0: nat) returns (maxLen: nat, start: nat)
    requires -1 <= low0 < high0 && Pal(s, low0 + 1, high0)
    requires maxLen0 >= 1 && maxLen0 >= high0 - low0 - 1 && Leads(s, start0, start0 + maxLen0, low0 + high0 + 1)
    ensures maxLen >= 1 && Leads(s, start, start + maxLen, low0 + high0 + 2)
  {
    maxLen, start := maxLen0, start0;
    var low, high := low0, high0;
    assert Pal(s, start, start + maxLen);
    hide Leads;
    while low >= 0 && high < |s| && s[low] == s[high]
      invariant start >= 0 && -1 <= low < high && low + high == low0 + high0
      invariant Pal(s, low + 1, high) && Pal(s, start, start + maxLen)
      invariant maxLen >= maxLen0 && maxLen >= high - low - 1
      invariant if maxLen == maxLen0 then start == start0 else start == low + 1 && start + maxLen == high
      decreases low
    {
      PalEnds(s, low, high + 1);
      hide Pal;
      if high - low + 1 > maxLen {
        maxLen := high - low + 1;
        start := low;
      }
      low := low - 1;
      high := high + 1;
    }
    ExpandLeads(s, start0, maxLen0, start, maxLen, low, high);
  }

  lemma ExpandLeads(s: string, start0: nat, maxLen0: nat, start: nat, maxLen: nat, low: int, high: nat)
    requires Leads(s, start0, start0 + maxLen0, low + high + 1) && Pal(s, start, start + maxLen)
    requires -1 <= low < high && !(low >= 0 && high < |s| && s[low] == s[high])
    requires maxLen >= maxLen0 && maxLen >= high - low - 1
    requires if maxLen == maxLen0 then start == start0 else start == low + 1 && start + maxLen == high
    ensures Leads(s, start, start + maxLen, low + high + 2)
  {
    forall l: nat, h: nat | Pal(s, l, h) && l + h == low + high + 1 ensures h - l <= maxLen {
      CannotExtend(s, low, high, l, h);
    }
    hide Pal;
  }

  /** Where the loop stops, no longer palindrome has the same centre. */
  lemma CannotExtend(s: string, low: int, high: int, l: nat, h: nat)
    requires -1 <= low < high && !(low >= 0 && high < |s| && s[low] == s[high])
    requires Pal(s, l, h) && l + h == low + high + 1
    ensures h - l <= high - low - 1
  {
  }

  method LongestByCentres(s: string) returns (r: string)
    ensures exists lo: nat, hi: nat :: FirstLongest(s, lo, hi) && r == s[lo..hi]
  {
    if s == "" {
      assert FirstLongest(s, 0, 0) && "" == s[0..0];
      return "";
    }
    var maxLen, start := 1, 0;
    var i := 1;
    while i < |s|
      invariant 1 <= i <= |s| && maxLen >= 1 && start >= 0 && Leads(s, start, start + maxLen, 2 * i)
    {
      maxLen, start := Expand(s, i - 1, i, maxLen, start);
      maxLen, start := Expand(s, i - 1, i + 1, maxLen, start);
      i := i + 1;
    }
    assert FirstLongest(s, start, start + maxLen);
    return s[start..start + maxLen];
  }

  // ---------- the extended string ----------

  /** s with '#' before, between and after its characters. */
  ghost predicate Extends(t: string, s: string)
  {
    && |t| == 2 * |s| + 1
    && (forall i :: 0 <= i <= |s| ==> t[2 * i] == '#')
    && (forall i :: 0 <= i < |s| ==> t[2 * i + 1] == s[i])
  }

  /** t is symmetric round i as far as r characters to each side. */
  ghost predicate Radius(t: string, i: int, r: int)
  {
    0 <= r <= i && i + r < |t| && forall p :: i - r <= p <= i + r ==> t[p] == t[2 * i - p]
  }

  ghost predicate MaxRadius(t: string, i: int, r: int)
  {
    Radius(t, i, r) && !Radius(t, i, r + 1)
  }

  /** A palindrome s[lo..hi] is a symmetric stretch of t round lo + hi. */
  lemma PalToRadius(t: string, s: string, lo: nat, hi: nat)
    requires Extends(t, s) && Pal(s, lo, hi)
    ensures Radius(t, lo + hi, hi - lo)
  {
    forall p | 2 * lo <= p <= 2 * hi ensures t[p] == t[2 * (lo + hi) - p] {
      var k := p / 2;
      if p % 2 == 0 {
        assert t[2 * k] == '#' && t[2 * (lo + hi - k)] == '#';
      } else {
        assert t[2 * k + 1] == s[k] && t[2 * (lo + hi - 1 - k) + 1] == s[lo + hi - 1 - k];
      }
    }
  }

  /** The other way round, when the stretch begins with a '#' of the frame. */
  lemma RadiusToPal(t: string, s: string, lo: nat, hi: nat)
    requires Extends(t, s) && lo <= hi && Radius(t, lo + hi, hi - lo)
    ensures Pal(s, lo, hi)
  {
    forall k | lo <= k < hi ensures s[k] == s[lo + hi - 1 - k] {
      assert t[2 * k + 1] == s[k] && t[2 * (lo + hi - 1 - k) + 1] == s[lo + hi - 1 - k];
    }
  }

  /** A maximal stretch begins at a '#' of the frame. */
  lemma MaxRadiusIsEven(t: string, s: string, i: nat, r: nat)
    requires Extends(t, s) && MaxRadius(t, i, r)
    ensures (i - r) % 2 == 0
  {
    if (i - r) % 2 == 1 {
      assert t[2 * ((i - r) / 2)] == '#' && t[2 * ((i + r + 1) / 2)] == '#';
      RadiusStep(t, i, r);
    }
  }

  lemma RadiusStep(t: string, i: int, r: int)
    requires Radius(t, i, r)
    ensures Radius(t, i, r + 1) <==> i - r - 1 >= 0 && i + r + 1 < |t| && t[i - r - 1] == t[i + r + 1]
  {
  }

  lemma RadiusSmaller(t: string, i: int, r: int, q: int)
    requires Radius(t, i, r) && 0 <= q <= r
    ensures Radius(t, i, q)
  {
  }

  lemma RadiusMirrored(t: string, c: int, big: int, i: int, q: int)
    requires Radius(t, c, big) && Radius(t, 2 * c - i, q) && c - big <= i - q && i + q <= c + big
    ensures Radius(t, i, q)
  {
    forall p | i - q <= p <= i + q ensures t[p] == t[2 * i - p] {
      var o := 2 * i - p;
      assert t[p] == t[2 * c - p] && t[o] == t[2 * c - o];
      assert t[2 * c - p] == t[2 * (2 * c - i) - (2 * c - p)];
    }
  }

  /** Inside a symmetric stretch round c, symmetry round i is symmetry round the mirror image of i. */
  lemma Mirror(t: string, c: int, big: int, i: int, q: int)
    requires Radius(t, c, big) && c <= i <= c + big && 0 <= q <= c + big - i
    ensures Radius(t, 2 * c - i, q) <==> Radius(t, i, q)
  {
    if Radius(t, 2 * c - i, q) { RadiusMirrored(t, c, big, i, q); }
    if Radius(t, i, q) { RadiusMirrored(t, c, big, 2 * c - i, q); }
  }

  lemma MaxRadiusIsMax(t: string, i: int, r: int, q: int)
    requires MaxRadius(t, i, r) && Radius(t, i, q)
    ensures q <= r
  {
    if q > r { RadiusSmaller(t, i, q, r + 1); }
  }

  // ---------- Manacher's table ----------

  /** Everything the loop knows before it handles position i. */
  ghost predicate Table(t: string, rec: seq<int>, i: int, c: int, r: int)
  {
    && 1 <= i <= |t| == |rec| && 0 <= c < i && r == rec[c] + c
    && (forall k :: 0 <= k < i ==> MaxRadius(t, k, rec[k]))
    && (forall k :: 0 <= k < i ==> rec[k] + k <= r)
  }

  /** The start value taken from the mirror image is a radius; if it falls short
      of the boundary, it is already the maximal one. */
  lemma StartValue(t: string, rec: seq<int>, i: int, c: int, r: int)
    requires Table(t, rec, i, c, r) && i < r
    ensures 0 <= 2 * c - i < i
    ensures rec[2 * c - i] >= 0
    ensures Radius(t, i, if rec[2 * c - i] < r - i then rec[2 * c - i] else r - i)
    ensures rec[2 * c - i] < r - i ==> MaxRadius(t, i, rec[2 * c - i])
  {
    var m := 2 * c - i;
    hide MaxRadius;
    assert MaxRadius(t, c, rec[c]);
    MaxRadiusBounds(t, c, rec[c]);
    assert MaxRadius(t, m, rec[m]);
    hide Table, Radius;
    MirroredMax(t, c, rec[c], i, rec[m]);
  }

  lemma MaxRadiusBounds(t: string, i: int, r: int)
    requires MaxRadius(t, i, r)
    ensures 0 <= r <= i
  {
  }

  lemma MirroredMax(t: string, c: int, big: int, i: int, v: int)
    requires MaxRadius(t, c, big) && c <= i < c + big && MaxRadius(t, 2 * c - i, v)
    ensures v >= 0 && Radius(t, i, if v < c + big - i then v else c + big - i)
    ensures v < c + big - i ==> MaxRadius(t, i, v)
  {
    assert v >= 0;
    hide Radius;
    if v < c + big - i {
      Mirror(t, c, big, i, v);
      Mirror(t, c, big, i, v + 1);
    } else {
      RadiusSmaller(t, 2 * c - i, v, c + big - i);
      Mirror(t, c, big, i, c + big - i);
    }
  }

  method MakeExtended(s: string) returns (t: string)
    ensures Extends(t, s)
  {
    var extended := new char[2 * |s| + 1](_ => '#');
    var i := 0;
    while i < |s|
      invariant 0 <= i <= |s|
      invariant forall k :: 0 <= k < i ==> extended[2 * k + 1] == s[k]
      invariant forall k :: 0 <= k <= |s| ==> extended[2 * k] == '#'
    {
      extended[2 * i + 1] := s[i];
      i := i + 1;
    }
    t := extended[..];
  }

  /** The table of maximal radii, the first position of the largest, and the
      number of successful comparisons of the innermost loop. */
  method Manacher(t: string) returns (records: array<int>, maxPos: nat, ghost steps: nat)
    requires |t| > 0
    ensures fresh(records) && records.Length == |t|
    ensures forall k :: 0 <= k < |t| ==> MaxRadius(t, k, records[..][k])
    ensures FirstMaximum(records[..], maxPos)
    ensures steps < |t|
  {
    hide Radius;
    records := new int[|t|](_ => 0);
    var c, r := 0, 0;
    maxPos, steps := 0, 0;
    var i := 1;
    TableStart(t, records[..]);
    while i < |t|
      invariant Table(t, records[..], i, c, r) && steps <= r
      invariant FirstMaximum(records[..i], maxPos)
    {
      var value := 0;
      if r > i {
        StartValue(t, records[..], i, c, r);
        value := if records[2 * c - i] < r - i then records[2 * c - i] else r - i;
      }
      ghost var gained;
      value, gained := Extend(t, i, value, r);
      TableStep(t, records[..], i, c, r, value);
      assert records[..i + 1][..i] == records[..i];
      records[i] := value;
      assert records[..i + 1] == records[..i] + [value];
      steps := steps + gained;
      if value + i > r {
        r := value + i;
        c := i;
      }
      if records[i] > records[maxPos] {
        maxPos := i;
      }
      i := i + 1;
    }
    assert records[..i] == records[..];
    TableBound(t, records[..], i, c, r);
  }

  /** The innermost loop: compare outwards from the radius already known. */
  method Extend(t: string, i: int, first: int, r: int) returns (value: int, ghost gained: nat)
    requires 0 < i < |t| && Radius(t, i, first)
    requires first + i < r ==> MaxRadius(t, i, first)
    ensures MaxRadius(t, i, value)
    ensures gained <= if value + i > r then value + i - r else 0
  {
    value, gained := first, 0;
    var j := value + 1;
    while i - j >= 0 && i + j < |t| && t[i - j] == t[i + j]
      invariant j == value + 1 && Radius(t, i, value)
      invariant gained == value - first && (gained > 0 ==> first + i >= r)
      decreases |t| - j
    {
      RadiusStep(t, i, value);
      value := value + 1;
      gained := gained + 1;
      j := j + 1;
    }
    RadiusStep(t, i, value);
  }

  /** m is the first position of the largest element. */
  ghost predicate FirstMaximum(rec: seq<int>, m: nat)
  {
    m < |rec| && (forall k :: 0 <= k < |rec| ==> rec[k] <= rec[m]) && (forall k :: 0 <= k < m ==> rec[k] < rec[m])
  }

  lemma TableStart(t: string, rec: seq<int>)
    requires |t| == |rec| > 0 && rec[0] == 0
    ensures Table(t, rec, 1, 0, 0) && Radius(t, 0, 0) && FirstMaximum(rec[..1], 0)
  {
  }

  lemma TableStep(t: string, rec: seq<int>, i: int, c: int, r: int, value: int)
    requires Table(t, rec, i, c, r) && i < |t| && MaxRadius(t, i, value)
    ensures if value + i > r then Table(t, rec[i := value], i + 1, i, value + i)
            else Table(t, rec[i := value], i + 1, c, r)
  {
    hide MaxRadius;
  }

  lemma TableBound(t: string, rec: seq<int>, i: int, c: int, r: int)
    requires Table(t, rec, i, c, r)
    ensures r < |t|
  {
    assert MaxRadius(t, c, rec[c]);
  }

  // ---------- reading off the answer ----------

  function WithoutHash(s: string): string
  {
    if s == "" then "" else
      WithoutHash(s[..|s| - 1]) + (if s[|s| - 1] == '#' then "" else s[|s| - 1..])
  }

  /** Dropping every '#' of a framed stretch drops the frame, and any '#' of s. */
  lemma {:induction false} FrameDropped(t: string, s: string, lo: nat, hi: nat)
    requires Extends(t, s) && lo <= hi <= |s|
    ensures WithoutHash(t[2 * lo..2 * hi]) == WithoutHash(s[lo..hi])
    decreases hi
  {
    if lo < hi {
      FrameDropped(t, s, lo, hi - 1);
      hide WithoutHash;
      var w, c := t[2 * lo..2 * (hi - 1)], s[hi - 1];
      assert t[2 * (hi - 1)] == '#' && t[2 * (hi - 1) + 1] == c;
      assert t[2 * lo..2 * hi] == w + ['#'] + [c];
      assert s[lo..hi] == s[lo..hi - 1] + [c];
      WithoutHashAppend(w + ['#'], c);
      WithoutHashAppend(w, '#');
      WithoutHashAppend(s[lo..hi - 1], c);
    }
  }

  lemma WithoutHashAppend(w: string, c: char)
    ensures WithoutHash(w + [c]) == WithoutHash(w) + (if c == '#' then "" else [c])
  {
    assert (w + [c])[..|w|] == w && (w + [c])[|w|..] == [c];
  }

  /** The answer loses exactly the '#' characters of the substring found. */
  lemma {:induction false} HashIsLost(w: string)
    ensures |WithoutHash(w)| <= |w|
    ensures '#' !in w <==> |WithoutHash(w)| == |w|
    ensures '#' !in w <==> WithoutHash(w) == w
  {
    if w != "" {
      HashIsLost(w[..|w| - 1]);
      assert w == w[..|w| - 1] + [w[|w| - 1]];
    }
  }

  /** copy_if of the characters other than '#'. */
  method CopyWithoutHash(w: string) returns (r: string)
    ensures r == WithoutHash(w)
  {
    r := "";
    var i := 0;
    while i < |w|
      invariant 0 <= i <= |w| && r == WithoutHash(w[..i])
    {
      assert w[..i + 1] == w[..i] + [w[i]];
      WithoutHashAppend(w[..i], w[i]);
      if w[i] != '#' { r := r + [w[i]]; }
      i := i + 1;
    }
    assert w[..i] == w;
  }

  /** The centre and radius found are the first longest palindromic substring. */
  lemma Answer(t: string, s: string, rec: seq<int>, maxPos: nat) returns (lo: nat, hi: nat)
    requires Extends(t, s) && |rec| == |t| && maxPos < |t|
    requires FirstMaximum(rec, maxPos) && forall k :: 0 <= k < |t| ==> MaxRadius(t, k, rec[k])
    ensures maxPos - rec[maxPos] == 2 * lo && maxPos + rec[maxPos] == 2 * hi
    ensures FirstLongest(s, lo, hi)
  {
    var r := rec[maxPos];
    assert MaxRadius(t, maxPos, r);
    MaxRadiusIsEven(t, s, maxPos, r);
    lo, hi := (maxPos - r) / 2, (maxPos + r) / 2;
    RadiusToPal(t, s, lo, hi);
    forall l: nat, h: nat | Pal(s, l, h)
      ensures h - l <= hi - lo && (h - l == hi - lo ==> lo + hi <= l + h)
    {
      PalToRadius(t, s, l, h);
      assert MaxRadius(t, l + h, rec[l + h]);
      MaxRadiusIsMax(t, l + h, rec[l + h], h - l);
    }
  }

  /** The result for every string, '#' included: the first longest palindromic
      substring, stripped of '#'.  `steps` counts the successful comparisons. */
  method LongestByTable(s: string) returns (r: string, ghost lo: nat, ghost hi: nat, ghost steps: nat)
    ensures FirstLongest(s, lo, hi) && r == WithoutHash(s[lo..hi])
    ensures exists l: nat, h: nat :: FirstLongest(s, l, h) && r == WithoutHash(s[l..h])
    ensures '#' !in s[lo..hi] <==> r == s[lo..hi]
    ensures '#' !in s[lo..hi] <==> |r| == hi - lo
    ensures steps <= 2 * |s|
  {
    var t := MakeExtended(s);
    var records, maxPos;
    records, maxPos, steps := Manacher(t);
    lo, hi := Answer(t, s, records[..], maxPos);
    r := CopyWithoutHash(t[maxPos - records[maxPos]..maxPos + records[maxPos]]);
    FrameDropped(t, s, lo, hi);
    HashIsLost(s[lo..hi]);
  }

  /** The two functions choose the same substring; their answers are equal exactly
      when it has no '#', and differ in length otherwise. */
  lemma Agreement(s: string, lo: nat, hi: nat, l: nat, h: nat)
    requires FirstLongest(s, lo, hi) && FirstLongest(s, l, h)
    ensures WithoutHash(s[lo..hi]) == s[l..h] <==> '#' !in s[l..h]
    ensures |WithoutHash(s[lo..hi])| == |s[l..h]| <==> '#' !in s[l..h]
  {
    FirstLongestIsUnique(s, lo, hi, l, h);
    HashIsLost(s[lo..hi]);
  }

  lemma SingleHashFails(lo: nat, hi: nat)
    requires FirstLongest("#", lo, hi)
    ensures WithoutHash("#"[lo..hi]) == "" && Longest("#", 0, 1)
  {
    assert Pal("#", 0, 1);
    assert hi - lo == 1;
    HashIsLost("#"[lo..hi]);
  }
}
