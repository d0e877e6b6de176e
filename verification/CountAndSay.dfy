/** The count-and-say sequence of solution_38.cpp. */
module CountAndSay {
  /* A term reads off the maximal runs of equal characters of the term before: how
     many, then which.  The terms never need a digit above three, so reading them
     back is run-length decoding of pairs. */

  import opened Decimal

  // ---------- runs ----------

  datatype Run = Run(count: nat, c: char)

  /** One more character at the end of a list of runs. */
  ghost function Extend(rs: seq<Run>, c: char): (r: seq<Run>)
    ensures r != []
  {
    if rs != [] && rs[|rs| - 1].c == c then rs[..|rs| - 1] + [Run(rs[|rs| - 1].count + 1, c)] else rs + [Run(1, c)]
  }

  /** The maximal runs of equal characters. */
  ghost function Runs(s: string): (rs: seq<Run>)
  {
    if s == "" then [] else Extend(Runs(s[..|s| - 1]), s[|s| - 1])
  }

  /** "count, then character" for every run: the next term. */
  ghost function Reading(rs: seq<Run>): string
  {
    if rs == [] then "" else Reading(rs[..|rs| - 1]) + ToString(rs[|rs| - 1].count) + [rs[|rs| - 1].c]
  }

  ghost function Term(n: int): (s: string)
  {
    if n <= 1 then "1" else Reading(Runs(Term(n - 1)))
  }

  ghost function Repeat(c: char, n: nat): (s: string)
    ensures |s| == n && forall i :: 0 <= i < n ==> s[i] == c
  {
    seq(n, _ => c)
  }

  ghost function Expanded(rs: seq<Run>): string
  {
    if rs == [] then "" else Expanded(rs[..|rs| - 1]) + Repeat(rs[|rs| - 1].c, rs[|rs| - 1].count)
  }

  /** Neighbouring runs differ and every run counts something. */
  ghost predicate Maximal(rs: seq<Run>)
  {
    && (forall i :: 0 <= i < |rs| ==> rs[i].count > 0)
    && (forall i :: 0 <= i < |rs| - 1 ==> rs[i].c != rs[i + 1].c)
  }

  lemma ExpandedAppend(rs: seq<Run>, r: Run)
    ensures Expanded(rs + [r]) == Expanded(rs) + Repeat(r.c, r.count)
  {
    assert (rs + [r])[..|rs|] == rs;
  }

  lemma ExpandedExtend(rs: seq<Run>, c: char)
    ensures Expanded(Extend(rs, c)) == Expanded(rs) + [c]
  {
    hide Expanded;
    if rs != [] && rs[|rs| - 1].c == c {
      var front, n := rs[..|rs| - 1], rs[|rs| - 1].count;
      assert rs == front + [Run(n, c)];
      ExpandedAppend(front, Run(n, c));
      ExpandedAppend(front, Run(n + 1, c));
      assert Repeat(c, n + 1) == Repeat(c, n) + [c];
      var e, r := Expanded(front), Repeat(c, n);
      assert e + (r + [c]) == e + r + [c];
    } else {
      ExpandedAppend(rs, Run(1, c));
      assert Repeat(c, 1) == [c];
    }
  }

  lemma MaximalExtend(rs: seq<Run>, c: char)
    requires Maximal(rs)
    ensures Maximal(Extend(rs, c))
  {
  }

  lemma RunsUnfold(s: string, c: char)
    ensures Runs(s + [c]) == Extend(Runs(s), c)
  {
    assert (s + [c])[..|s|] == s;
  }

  /** The runs spell out the string and are as long as possible. */
  lemma {:induction false} RunsPartition(s: string)
    ensures Expanded(Runs(s)) == s && Maximal(Runs(s))
    decreases |s|
  {
    if s != "" {
      hide Extend, Maximal;
      var t, c := s[..|s| - 1], s[|s| - 1];
      assert s == t + [c];
      RunsPartition(t);
      ExpandedExtend(Runs(t), c);
      MaximalExtend(Runs(t), c);
    }
  }

  // ---------- the loops ----------

  /** One term from the one before: the inner loop. */
  method Say(s: string) returns (next: string)
    requires s != ""
    ensures next == Reading(Runs(s))
  {
    hide Runs, Reading, ToString;
    var oss, count, prev := "", 1, 0;
    ghost var done: seq<Run> := [];
    FirstRun(s);
    for i := 1 to |s|
      invariant prev < i && Runs(s[..i]) == done + [Run(count, s[prev])] && oss == Reading(done)
    {
      RunsUnfold(s[..i], s[i]);
      assert s[..i] + [s[i]] == s[..i + 1];
      if s[i] != s[prev] {
        ReadMore(done, Run(count, s[prev]));
        oss := oss + ToString(count) + [s[prev]];
        done := done + [Run(count, s[prev])];
        count := 1;
        prev := i;
      } else {
        count := count + 1;
      }
    }
    ReadMore(done, Run(count, s[prev]));
    assert s[..|s|] == s;
    next := oss + ToString(count) + [s[prev]];
  }

  lemma FirstRun(s: string)
    requires s != ""
    ensures Runs(s[..1]) == [] + [Run(1, s[0])] && Reading([]) == ""
  {
    RunsUnfold("", s[0]);
    assert "" + [s[0]] == s[..1];
  }

  lemma ReadMore(rs: seq<Run>, r: Run)
    ensures Reading(rs + [r]) == Reading(rs) + ToString(r.count) + [r.c]
  {
    assert (rs + [r])[..|rs|] == rs;
  }

  /** The n-th term: from it, n - 1 decodings lead back to the "1" at the start. */
  method CountAndSay(n: int) returns (s: string)
    ensures s == Term(n) && WellShaped(s) && s[|s| - 1] == '1'
    ensures n <= 1 ==> s == "1"
    ensures n > 1 ==> DecodeTimes(s, n - 1) == "1"
  {
    hide WellShaped, Runs, Reading, Decode;
    TermIsWellShaped(n);
    TermLeadsBack(n);
    LastStays(n);
    if n <= 1 { return "1"; }
    s := "1";
    var i := 2;
    while i <= n
      invariant 2 <= i <= n + 1 && s == Term(i - 1)
    {
      TermIsNotEmpty(i - 1);
      s := Say(s);
      i := i + 1;
    }
  }

  lemma TermIsNotEmpty(n: int)
    ensures Term(n) != ""
  {
    TermIsWellShaped(n);
  }

  // ---------- what the terms look like ----------

  ghost predicate NoFour(s: string)
  {
    forall i :: 0 <= i < |s| - 3 ==> !(s[i] == s[i + 1] && s[i + 1] == s[i + 2] && s[i + 2] == s[i + 3])
  }

  predicate IsOneToThree(c: char) { c == '1' || c == '2' || c == '3' }

  ghost predicate WellShaped(s: string)
  {
    s != "" && NoFour(s) && forall i :: 0 <= i < |s| ==> IsOneToThree(s[i])
  }

  ghost predicate SmallRuns(rs: seq<Run>)
  {
    forall i :: 0 <= i < |rs| ==> 1 <= rs[i].count <= 3 && IsOneToThree(rs[i].c)
  }

  /** n equal characters at the end of s. */
  ghost predicate EndsWith(s: string, r: Run)
  {
    0 < r.count <= |s| && forall p :: |s| - r.count <= p < |s| ==> s[p] == r.c
  }

  lemma ExtendEnds(s: string, rs: seq<Run>, c: char)
    requires rs == [] || EndsWith(s, rs[|rs| - 1])
    ensures EndsWith(s + [c], Extend(rs, c)[|Extend(rs, c)| - 1])
  {
  }

  /** The last run is a suffix of equal characters. */
  lemma {:induction false} LastRun(s: string)
    requires s != ""
    ensures Runs(s) != [] && EndsWith(s, Runs(s)[|Runs(s)| - 1])
    decreases |s|
  {
    hide EndsWith;
    var t, c := s[..|s| - 1], s[|s| - 1];
    assert s == t + [c];
    if t != "" { LastRun(t); }
    ExtendEnds(t, Runs(t), c);
  }

  lemma FourAtEnd(s: string, r: Run)
    requires NoFour(s) && EndsWith(s, r)
    ensures r.count <= 3 && r.c == s[|s| - 1]
  {
    var i := |s| - 4;
    assert i >= 0 ==> !(s[i] == s[i + 1] && s[i + 1] == s[i + 2] && s[i + 2] == s[i + 3]);
  }

  lemma {:induction false} RunsAreSmall(s: string)
    requires NoFour(s) && forall i :: 0 <= i < |s| ==> IsOneToThree(s[i])
    ensures SmallRuns(Runs(s))
    decreases |s|
  {
    if s != "" {
      hide NoFour, EndsWith, Extend, SmallRuns;
      var t, c := s[..|s| - 1], s[|s| - 1];
      NoFourPrefix(s);
      RunsAreSmall(t);
      LastRun(s);
      FourAtEnd(s, Runs(s)[|Runs(s)| - 1]);
      SmallExtend(Runs(t), c);
    } else {
      assert Runs(s) == [];
    }
  }

  lemma SmallExtend(rs: seq<Run>, c: char)
    requires SmallRuns(rs) && IsOneToThree(c)
    requires Extend(rs, c)[|Extend(rs, c)| - 1].count <= 3
    ensures SmallRuns(Extend(rs, c))
  {
  }

  lemma NoFourPrefix(s: string)
    requires s != "" && NoFour(s)
    ensures NoFour(s[..|s| - 1])
  {
  }

  /** With counts of one digit, a reading is made of pairs. */
  lemma {:induction false} ReadingPairs(rs: seq<Run>, i: nat)
    requires SmallRuns(rs) && i < |rs|
    ensures |Reading(rs)| == 2 * |rs|
    ensures Reading(rs)[2 * i] == (rs[i].count as char) + '0' && Reading(rs)[2 * i + 1] == rs[i].c
    decreases |rs|
  {
    var front := rs[..|rs| - 1];
    if front != [] { ReadingPairs(front, if i < |front| then i else 0); }
  }

  /** Reading aloud keeps to the digits one to three and to runs of at most three. */
  lemma ReadingIsWellShaped(rs: seq<Run>)
    requires rs != [] && SmallRuns(rs) && Maximal(rs)
    ensures WellShaped(Reading(rs))
  {
    var t := Reading(rs);
    hide Reading;
    ReadingPairs(rs, 0);
    forall i | 0 <= i < |t| ensures IsOneToThree(t[i]) { ReadingPairs(rs, i / 2); }
    forall i | 0 <= i < |t| - 3
      ensures !(t[i] == t[i + 1] && t[i + 1] == t[i + 2] && t[i + 2] == t[i + 3])
    {
      var j := i / 2;
      ReadingPairs(rs, j);
      ReadingPairs(rs, j + 1);
      assert rs[j].c != rs[j + 1].c;
    }
  }

  lemma {:induction false} TermIsWellShaped(n: int)
    ensures WellShaped(Term(n))
    decreases n
  {
    if n > 1 {
      var s := Term(n - 1);
      TermIsWellShaped(n - 1);
      RunsAreSmall(s);
      RunsPartition(s);
      ReadingIsWellShaped(Runs(s));
    }
  }

  // ---------- back to the term before ----------

  /** Run-length decoding of digit-character pairs. */
  ghost function Decode(t: string): string
  {
    if |t| < 2 || !IsOneToThree(t[|t| - 2]) then ""
    else Decode(t[..|t| - 2]) + Repeat(t[|t| - 1], (t[|t| - 2] - '0') as nat)
  }

  lemma {:induction false} DecodeReading(rs: seq<Run>)
    requires SmallRuns(rs)
    ensures Decode(Reading(rs)) == Expanded(rs)
  {
    if rs != [] {
      var front, r := rs[..|rs| - 1], rs[|rs| - 1];
      DecodeReading(front);
      var d := (r.count as char) + '0';
      assert ToString(r.count) == [d];
      hide Decode, ToString;
      var f := Reading(front);
      assert Reading(rs) == f + [d] + [r.c] == f + [d, r.c];
      DecodePair(f, d, r.c);
    }
  }

  lemma DecodePair(t: string, d: char, c: char)
    requires IsOneToThree(d)
    ensures Decode(t + [d, c]) == Decode(t) + Repeat(c, (d - '0') as nat)
  {
    var u := t + [d, c];
    assert u[..|u| - 2] == t && u[|u| - 2] == d && u[|u| - 1] == c;
  }

  /** Each term decodes to the one before. */
  lemma TermDecodes(n: int)
    requires n >= 1
    ensures Decode(Term(n + 1)) == Term(n)
  {
    TermIsWellShaped(n);
    RunsAreSmall(Term(n));
    RunsPartition(Term(n));
    DecodeReading(Runs(Term(n)));
  }

  /** n decodings in a row. */
  ghost function DecodeTimes(s: string, n: nat): string
    decreases n
  {
    if n == 0 then s else DecodeTimes(Decode(s), n - 1)
  }

  lemma {:induction false} TermLeadsBack(n: int)
    ensures DecodeTimes(Term(n), if n <= 1 then 0 else n - 1) == "1"
    decreases n
  {
    if n > 1 {
      hide Decode;
      TermDecodes(n - 1);
      TermLeadsBack(n - 1);
    } else {
      assert Term(n) == "1";
    }
  }

  /** The last run is read with its own character, so every term ends like the first. */
  lemma {:induction false} LastStays(n: int)
    ensures Term(n) != "" && Term(n)[|Term(n)| - 1] == '1'
    decreases n
  {
    if n > 1 {
      LastStays(n - 1);
      LastRun(Term(n - 1));
    }
  }
}
