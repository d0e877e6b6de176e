/** The range notation of ouou/util/functions.py. */
module RangeString {
  /* Lists of integers are written as "1-3 5 7-9".  Writing sorts the list and
     combines consecutive numbers; reading splits at white space and commas,
     splits every token at its dashes and expands it.  Python's exceptions are
     the None of an option type. */

  import opened Decimal
  import opened Slices
  import opened Sorting
  import opened Sums

  // ---------- writing ----------

  /** What format prints for an integer. */
  function Show(n: int): string { if n < 0 then "-" + ToString(-n) else ToString(n) }

  /** groupby over enumerate: an element joins the last group as long as its
      position less its value stays the same. */
  function Groups(s: seq<int>): (gs: seq<seq<int>>)
    ensures Filled(gs) && (s != [] ==> gs != [])
  {
    if s == [] then [] else
      var n := |s| - 1;
      var gs := Groups(s[..n]);
      if n > 0 && n - s[n] == n - 1 - s[n - 1] then gs[..|gs| - 1] + [gs[|gs| - 1] + [s[n]]] else gs + [[s[n]]]
  }

  predicate Filled(gs: seq<seq<int>>) { forall i :: 0 <= i < |gs| ==> gs[i] != [] }

  ghost predicate Consecutive(g: seq<int>)
  {
    g != [] && forall k :: 0 <= k < |g| ==> g[k] == g[0] + k
  }

  /** The groups are runs of consecutive numbers that make up the list. */
  lemma {:induction false} GroupsPartition(s: seq<int>)
    ensures Flatten(Groups(s)) == s
    ensures forall i :: 0 <= i < |Groups(s)| ==> Consecutive(Groups(s)[i])
    ensures s != [] ==> LastOf(Groups(s)) == s[|s| - 1]
  {
    hide Groups, Flatten, Consecutive;
    GroupsUnfold(s);
    if s != [] {
      var n := |s| - 1;
      var before := Groups(s[..n]);
      GroupsPartition(s[..n]);
      assert s == s[..n] + [s[n]];
      if Continues(s) {
        var front, last := before[..|before| - 1], before[|before| - 1];
        assert before == front + [last];
        FlattenExtend(front, last, s[n]);
        RunExtends(last, s[n]);
      } else {
        FlattenAppend(before, [s[n]]);
        RunBegins(s[n]);
      }
    }
  }

  /** The last number follows on the one before it. */
  ghost predicate Continues(s: seq<int>) { |s| > 1 && s[|s| - 1] == s[|s| - 2] + 1 }

  lemma GroupsUnfold(s: seq<int>)
    ensures s == [] ==> Groups(s) == [] && Flatten<int>([]) == []
    ensures s != [] ==>
              var before := Groups(s[..|s| - 1]);
              && (Continues(s) ==> before != [])
              && Groups(s) == if Continues(s) then before[..|before| - 1] + [before[|before| - 1] + [s[|s| - 1]]]
                              else before + [[s[|s| - 1]]]
  {
  }

  lemma RunExtends(g: seq<int>, x: int)
    requires Consecutive(g) && x == g[|g| - 1] + 1
    ensures Consecutive(g + [x])
  {
  }

  lemma RunBegins(x: int)
    ensures Consecutive([x])
  {
  }

  ghost function LastOf(gs: seq<seq<int>>): int
    requires Filled(gs) && gs != []
  {
    gs[|gs| - 1][|gs[|gs| - 1]| - 1]
  }

  lemma FlattenExtend(front: seq<seq<int>>, last: seq<int>, x: int)
    ensures Flatten(front + [last + [x]]) == Flatten(front + [last]) + [x]
  {
    hide Flatten;
    FlattenAppend(front, last + [x]);
    FlattenAppend(front, last);
    Associate(Flatten(front), last, [x]);
  }

  /** The groups are as long as possible: none is continued by the next. */
  lemma {:induction false} GroupsAreMaximal(s: seq<int>, i: nat)
    requires i + 1 < |Groups(s)|
    ensures Groups(s)[i] != [] && Groups(s)[i + 1] != []
    ensures Groups(s)[i + 1][0] != Groups(s)[i][|Groups(s)[i]| - 1] + 1
    decreases |s|
  {
    var n, gs := |s| - 1, Groups(s);
    var before := Groups(s[..n]);
    GroupsPartition(s[..n]);
    if i + 1 < |before| { GroupsAreMaximal(s[..n], i); }
  }

  function Single(g: seq<int>): string
    requires g != []
  {
    if |g| > 1 then Show(g[0]) + "-" + Show(g[|g| - 1]) else Show(g[0])
  }

  /** The groups separated by blanks. */
  function Joined(gs: seq<seq<int>>): string
    requires Filled(gs)
  {
    if gs == [] then "" else
      var front, single := Joined(gs[..|gs| - 1]), Single(gs[|gs| - 1]);
      if front == "" then single else front + " " + single
  }

  method ToRangeStr(list: array<int>) returns (result: string)
    modifies list
    ensures multiset(list[..]) == multiset(old(list[..])) && Ascending(list[..])
    ensures result == Joined(Groups(list[..]))
    // one word for each group, single blanks between them
    ensures var words, groups := Words(result), Groups(list[..]);
            |words| == |groups| && forall i :: 0 <= i < |groups| ==> Notates(words[i], groups[i])
    ensures IsLine(result)
  {
    Sort(list, (x, y) => x < y, (x: int) => true);
    hide Joined, Groups, Words, IsLine, Notates, Tokens;
    result := Render(Groups(list[..]));
    JoinedWords(Groups(list[..]));
    TokensNotate(Groups(list[..]));
  }

  /** w is n in decimal: a numeral, with a minus sign in front below zero. */
  ghost predicate IsDecimal(w: string, n: int)
  {
    if n >= 0 then IsNumeral(w) && Val(w) == n
    else w != "" && w[0] == '-' && IsNumeral(w[1..]) && Val(w[1..]) == -n
  }

  /** The word of one number is its decimal, that of more the first and the last
      with a dash between them. */
  ghost predicate Notates(w: string, g: seq<int>)
    requires g != []
  {
    if |g| == 1 then IsDecimal(w, g[0])
    else exists a: string, b: string :: IsDecimal(a, g[0]) && IsDecimal(b, g[|g| - 1]) && w == a + "-" + b
  }

  lemma ShowIsDecimal(n: int)
    ensures IsDecimal(Show(n), n)
  {
    hide ToString;
    if n < 0 { assert Show(n)[1..] == ToString(-n); }
  }

  lemma SingleNotates(g: seq<int>)
    requires g != []
    ensures Notates(Single(g), g)
  {
    hide Show, IsDecimal;
    ShowIsDecimal(g[0]);
    ShowIsDecimal(g[|g| - 1]);
  }

  lemma {:induction false} TokensNotate(gs: seq<seq<int>>)
    requires Filled(gs)
    ensures |Tokens(gs)| == |gs| && forall i :: 0 <= i < |gs| ==> Notates(Tokens(gs)[i], gs[i])
  {
    hide Single, Notates;
    if gs != [] {
      TokensNotate(gs[..|gs| - 1]);
      SingleNotates(gs[|gs| - 1]);
    }
  }

  /** The loop over the groups. */
  method Render(gs: seq<seq<int>>) returns (result: string)
    requires Filled(gs)
    ensures result == Joined(gs)
  {
    hide Single;
    result := "";
    assert gs[..0] == [];
    for i := 0 to |gs|
      invariant result == Joined(gs[..i])
    {
      assert gs[..i + 1][..i] == gs[..i];
      var single := Single(gs[i]);
      if result == "" {
        result := single;
      } else {
        result := result + " " + single;
      }
    }
    assert gs[..|gs|] == gs;
  }

  // ---------- reading ----------

  /** Tab to carriage return, the four separators before the blank, the blank. */
  predicate IsSpace(c: char) { '\t' <= c <= '\r' || '\U{1c}' <= c <= ' ' }

  /** strip(' ,\n\t') */
  predicate IsEdge(c: char) { c == ' ' || c == ',' || c == '\n' || c == '\t' }

  function Strip(s: string): string
  {
    if s != "" && IsEdge(s[0]) then Strip(s[1..])
    else if s != "" && IsEdge(s[|s| - 1]) then Strip(s[..|s| - 1])
    else s
  }

  function CommasToBlanks(s: string): (r: string)
    ensures |r| == |s|
  {
    seq(|s|, i requires 0 <= i < |s| => if s[i] == ',' then ' ' else s[i])
  }

  /** split() without an argument: the stretches between white space. */
  function Words(s: string): seq<string>
  {
    if s == "" then [] else
      var n := |s| - 1;
      var front := Words(s[..n]);
      if IsSpace(s[n]) then front
      else if n > 0 && !IsSpace(s[n - 1]) && front != [] then front[..|front| - 1] + [front[|front| - 1] + [s[n]]]
      else front + [[s[n]]]
  }

  /** split('-') */
  function Pieces(f: string): (ps: seq<string>)
    ensures ps != []
  {
    if f == "" then [""]
    else
      var rest := Pieces(f[1..]);
      if f[0] == '-' then [""] + rest else [[f[0]] + rest[0]] + rest[1..]
  }

  /** int() on a string without white space and dashes: digits after an optional
      plus, single underscores between them; everything else is an exception. */
  function Parse(f: string): Option<int>
  {
    var g := if f != "" && f[0] == '+' then f[1..] else f;
    if Groupable(g) then Some(Val(WithoutUnderscores(g))) else None
  }

  predicate Groupable(g: string)
  {
    && g != "" && IsDigit(g[0]) && IsDigit(g[|g| - 1])
    && (forall i :: 0 <= i < |g| ==> IsDigit(g[i]) || g[i] == '_')
    && (forall i :: 0 < i < |g| ==> IsDigit(g[i - 1]) || IsDigit(g[i]))
  }

  function WithoutUnderscores(g: string): string
  {
    if g == "" then "" else
      WithoutUnderscores(g[..|g| - 1]) + if g[|g| - 1] == '_' then "" else [g[|g| - 1]]
  }

  lemma {:induction false} DigitsStay(g: string)
    requires Digits(g)
    ensures WithoutUnderscores(g) == g
  {
    if g != "" {
      DigitsStay(g[..|g| - 1]);
      assert g == g[..|g| - 1] + [g[|g| - 1]];
    }
  }

  function ParseAll(ps: seq<string>): (r: Option<seq<int>>)
    ensures r.Some? ==> |r.value| == |ps|
  {
    if ps == [] then Some([]) else
      var x, rest := Parse(ps[0]), ParseAll(ps[1..]);
      if x.Some? && rest.Some? then Some([x.value] + rest.value) else None
  }

  /** list(range(a, b)) */
  function Range(a: int, b: int): seq<int> { seq(if a < b then b - a else 0, i => a + i) }

  function Expand(f: string): Option<seq<int>>
  {
    var r := ParseAll(Pieces(f));
    if r.None? then None else Some(Range(r.value[0], r.value[|r.value| - 1] + 1))
  }

  function ExpandAll(ws: seq<string>): Option<seq<int>>
  {
    if ws == [] then Some([]) else
      var front, last := ExpandAll(ws[..|ws| - 1]), Expand(ws[|ws| - 1]);
      if front.Some? && last.Some? then Some(front.value + last.value) else None
  }

  /** What range_str_to_list returns for s. */
  ghost function Read(s: string): Option<seq<int>>
  {
    ExpandAll(Words(CommasToBlanks(Strip(s))))
  }

  method RangeStrToList(s: string) returns (ret: Option<seq<int>>)
    ensures ret == Read(s)
  {
    hide Words, CommasToBlanks, Strip, Expand;
    var ws := Words(CommasToBlanks(Strip(s)));
    var list: seq<int> := [];
    assert ws[..0] == [];
    for i := 0 to |ws|
      invariant ExpandAll(ws[..i]) == Some(list)
    {
      assert ws[..i + 1][..i] == ws[..i];
      var e := Expand(ws[i]);
      if e.None? {
        FailsOnce(ws, i + 1);
        return None;
      }
      list := list + e.value;
    }
    assert ws[..|ws|] == ws;
    ret := Some(list);
  }

  lemma {:induction false} FailsOnce(ws: seq<string>, n: nat)
    requires n <= |ws| && ExpandAll(ws[..n]).None?
    ensures ExpandAll(ws).None?
    decreases |ws|
  {
    if n == |ws| {
      assert ws[..n] == ws;
    } else {
      var front := ws[..|ws| - 1];
      assert front[..n] == ws[..n];
      FailsOnce(front, n);
    }
  }

  // ---------- what is read, token by token ----------

  predicate IsSeparator(c: char): (b: bool)
    ensures b <==> c as int in {9, 10, 11, 12, 13, 28, 29, 30, 31, 32, 44}
  {
    IsSpace(c) || c == ','
  }

  /** Not empty and without separators. */
  predicate IsPart(w: string) { w != "" && forall i :: 0 <= i < |w| ==> !IsSeparator(w[i]) }

  lemma BlankedAppend(s: string, t: string)
    ensures CommasToBlanks(s + t) == CommasToBlanks(s) + CommasToBlanks(t)
  {
  }

  lemma BlankedSeparator(c: char)
    requires IsSeparator(c)
    ensures CommasToBlanks([c]) == [CommasToBlanks([c])[0]] && IsSpace(CommasToBlanks([c])[0])
  {
  }

  lemma BlankedPart(w: string)
    requires IsPart(w)
    ensures CommasToBlanks(w) == w && IsWord(w)
  {
  }

  /** White space in front is as good as none. */
  lemma {:induction false} SpaceInFront(c: char, s: string)
    requires IsSpace(c)
    ensures Words([c] + s) == Words(s)
    decreases |s|
  {
    hide Words;
    if s == "" {
      assert [c] + s == "" + [c];
      SpaceEnds("", c);
    } else {
      var t, d := s[..|s| - 1], s[|s| - 1];
      SpaceInFront(c, t);
      assert [c] + s == [c] + t + [d] && s == t + [d];
      NextCharacter(t, d);
      NextCharacter([c] + t, d);
      NoWords();
    }
  }

  lemma NextCharacter(t: string, d: char)
    ensures var ws := Words(t);
            Words(t + [d]) ==
            if IsSpace(d) then ws
            else if t != "" && !IsSpace(t[|t| - 1]) && ws != [] then ws[..|ws| - 1] + [ws[|ws| - 1] + [d]]
            else ws + [[d]]
  {
    assert (t + [d])[..|t|] == t;
  }

  /** Stripping the ends changes nothing that is read. */
  lemma {:induction false} StripIsIdle(s: string)
    ensures Words(CommasToBlanks(Strip(s))) == Words(CommasToBlanks(s))
    decreases |s|
  {
    hide Words, CommasToBlanks, IsSpace;
    if s != "" && IsEdge(s[0]) {
      var rest := s[1..];
      assert s == [s[0]] + rest;
      BlankedAppend([s[0]], rest);
      EdgeIsSeparator(s[0]);
      BlankedSeparator(s[0]);
      SpaceInFront(CommasToBlanks([s[0]])[0], CommasToBlanks(rest));
      StripIsIdle(rest);
    } else if s != "" && IsEdge(s[|s| - 1]) {
      var front, c := s[..|s| - 1], s[|s| - 1];
      assert s == front + [c];
      BlankedAppend(front, [c]);
      EdgeIsSeparator(c);
      BlankedSeparator(c);
      SpaceEnds(CommasToBlanks(front), CommasToBlanks([c])[0]);
      StripIsIdle(front);
    }
  }

  lemma EdgeIsSeparator(c: char)
    requires IsEdge(c)
    ensures IsSeparator(c)
  {
  }

  lemma ReadUnstripped(s: string)
    ensures Read(s) == ExpandAll(Words(CommasToBlanks(s)))
  {
    hide Words, CommasToBlanks, Strip;
    StripIsIdle(s);
  }

  /** Of nothing, nothing is read. */
  lemma ReadNothing()
    ensures Read("") == Some([])
  {
  }

  /** A separator at the end, white space or a comma, adds nothing. */
  lemma ReadSeparator(s: string, c: char)
    requires IsSeparator(c)
    ensures Read(s + [c]) == Read(s)
  {
    hide Words, CommasToBlanks, Read, ExpandAll, IsSpace;
    ReadUnstripped(s);
    ReadUnstripped(s + [c]);
    BlankedAppend(s, [c]);
    BlankedSeparator(c);
    SpaceEnds(CommasToBlanks(s), CommasToBlanks([c])[0]);
  }

  /** A token behind a separator adds what it stands for, or makes reading fail. */
  lemma ReadToken(s: string, w: string)
    requires IsPart(w) && (s == "" || IsSeparator(s[|s| - 1]))
    ensures Read(s + w) ==
            if Read(s).Some? && Expand(w).Some? then Some(Read(s).value + Expand(w).value) else None
  {
    hide Words, CommasToBlanks, Read, Expand, IsSpace;
    ReadUnstripped(s);
    ReadUnstripped(s + w);
    BlankedAppend(s, w);
    BlankedPart(w);
    var t := CommasToBlanks(s);
    if s != "" {
      var front, c := s[..|s| - 1], s[|s| - 1];
      assert s == front + [c];
      BlankedAppend(front, [c]);
      BlankedSeparator(c);
    }
    WordsOnto(t, w);
    assert (Words(t) + [w])[..|Words(t)|] == Words(t);
  }

  /** A natural number in decimal is read as itself, and a plus in front of it or an
      underscore inside it changes nothing. */
  lemma ParseIs(a: string, b: string)
    requires Digits(a) && a != "" && Digits(b) && b != ""
    ensures Parse(a) == Parse("+" + a) == Some(Val(a))
    ensures Parse(a + "_" + b) == Some(Val(a + b))
  {
    hide Val, WithoutUnderscores;
    DigitsStay(a);
    assert ("+" + a)[1..] == a;
    Ungrouped(a, b);
  }

  lemma Ungrouped(a: string, b: string)
    requires Digits(a) && a != "" && Digits(b) && b != ""
    ensures Parse(a + "_" + b) == Some(Val(a + b))
  {
    hide Val, WithoutUnderscores;
    WithoutOne(a, b);
  }

  lemma {:induction false} WithoutOne(a: string, b: string)
    requires Digits(a) && Digits(b)
    ensures WithoutUnderscores(a + "_" + b) == a + b
    decreases |b|
  {
    var g := a + "_" + b;
    if b == "" {
      assert g[..|g| - 1] == a && a + b == a;
      DigitsStay(a);
    } else {
      var b' := b[..|b| - 1];
      WithoutOne(a, b');
      assert g[..|g| - 1] == a + "_" + b';
      assert a + b == a + b' + [b[|b| - 1]];
    }
  }

  /** Anything else is refused: nothing at all, a character that is no digit, plus or
      underscore, a plus inside, an underscore at an end or beside another one. */
  lemma ParseRefuses(f: string)
    ensures Parse("").None?
    ensures (exists i :: 0 <= i < |f| && !IsDigit(f[i]) && f[i] != '_' && (i > 0 || f[i] != '+')) ==> Parse(f).None?
    ensures Parse("_" + f).None? && Parse(f + "_").None? && Parse("+_" + f).None?
    ensures (exists i :: 0 < i < |f| && f[i - 1] == f[i] == '_') ==> Parse(f).None?
  {
    hide WithoutUnderscores, Val;
    RefusedCharacter(f);
    RefusedEnds(f);
    RefusedPair(f);
  }

  lemma RefusedCharacter(f: string)
    ensures (exists i :: 0 <= i < |f| && !IsDigit(f[i]) && f[i] != '_' && (i > 0 || f[i] != '+')) ==> Parse(f).None?
  {
    hide WithoutUnderscores, Val;
    var g := if f != "" && f[0] == '+' then f[1..] else f;
    if i :| 0 <= i < |f| && !IsDigit(f[i]) && f[i] != '_' && (i > 0 || f[i] != '+') {
      assert g[i - (|f| - |g|)] == f[i];
    }
  }

  lemma RefusedEnds(f: string)
    ensures Parse("_" + f).None? && Parse(f + "_").None? && Parse("+_" + f).None?
  {
    hide WithoutUnderscores, Val;
    assert ("+_" + f)[1..] == "_" + f;
    var g := f + "_";
    assert g[0] == '+' ==> |g| > 1 && g[1..][|g| - 2] == '_';
  }

  lemma RefusedPair(f: string)
    ensures (exists i :: 0 < i < |f| && f[i - 1] == f[i] == '_') ==> Parse(f).None?
  {
    hide WithoutUnderscores, Val;
    var g := if f != "" && f[0] == '+' then f[1..] else f;
    if i :| 0 < i < |f| && f[i - 1] == f[i] == '_' {
      var k := i - (|f| - |g|);
      if k > 0 { assert g[k - 1] == g[k] == '_'; }
    }
  }

  /** A single number stands for itself, a dash between two for all numbers from the
      one to the other. */
  lemma ExpandIs(a: string, b: string)
    requires Digits(a) && a != "" && Digits(b) && b != ""
    ensures Expand(a) == Some([Val(a)])
    ensures var r := Expand(a + "-" + b);
            && r.Some? && |r.value| == (if Val(a) <= Val(b) then Val(b) - Val(a) + 1 else 0)
            && forall k :: 0 <= k < |r.value| ==> r.value[k] == Val(a) + k
  {
    hide Pieces, Parse, ParseAll;
    ParseIs(a, b);
    ParseIs(b, a);
    OnePiece(a);
    ParseOne(a);
    assert Range(Val(a), Val(a) + 1) == [Val(a)];
    TwoPieces(a, b);
    ParseTwo(a, b);
  }

  /** Two numbers, however they are separated, and a range. */
  lemma ReadTwo(a: string, b: string, c: char)
    requires Digits(a) && a != "" && Digits(b) && b != "" && IsSeparator(c)
    ensures Read(a + [c] + b) == Some([Val(a), Val(b)])
    ensures Read(a + "-" + b) == Expand(a + "-" + b)
  {
    hide Read, Expand, Val;
    ReadNothing();
    ExpandIs(a, b);
    ExpandIs(b, a);
    assert "" + a == a && "" + (a + "-" + b) == a + "-" + b;
    ReadToken("", a);
    ReadSeparator(a, c);
    ReadToken(a + [c], b);
    ReadToken("", a + "-" + b);
    assert [] + Expand(a).value == Expand(a).value;
    assert [] + Expand(a + "-" + b).value == Expand(a + "-" + b).value;
    assert [Val(a)] + [Val(b)] == [Val(a), Val(b)];
  }

  /** A token of several dashes: every piece must be a number, and the first and the
      last are the ends. */
  lemma {:induction false} PiecesAre(f: string)
    ensures Unsplit(Pieces(f)) == f && forall i :: 0 <= i < |Pieces(f)| ==> '-' !in Pieces(f)[i]
  {
    if f != "" {
      PiecesAre(f[1..]);
      var rest := Pieces(f[1..]);
      if f[0] == '-' {
        assert ([""] + rest)[1..] == rest;
        assert "" + "-" + Unsplit(rest) == f;
      } else {
        UnsplitGrows(f[0], rest);
      }
    }
  }

  /** '-'.join */
  ghost function Unsplit(ps: seq<string>): string
    requires ps != []
  {
    if |ps| == 1 then ps[0] else ps[0] + "-" + Unsplit(ps[1..])
  }

  lemma UnsplitGrows(c: char, ps: seq<string>)
    requires ps != []
    ensures Unsplit([[c] + ps[0]] + ps[1..]) == [c] + Unsplit(ps)
  {
    var qs := [[c] + ps[0]] + ps[1..];
    if |ps| > 1 {
      assert qs[1..] == ps[1..];
      assert ([c] + ps[0]) + "-" + Unsplit(ps[1..]) == [c] + (ps[0] + "-" + Unsplit(ps[1..]));
    }
  }

  /** What a token stands for, or when it is refused. */
  lemma ExpandPieces(f: string)
    ensures Expand(f).None? <==> exists i :: 0 <= i < |Pieces(f)| && Parse(Pieces(f)[i]).None?
    ensures Expand(f).Some? ==>
              var ps := Pieces(f);
              var x, y := Parse(ps[0]), Parse(ps[|ps| - 1]);
              && x.Some? && y.Some?
              && |Expand(f).value| == (if x.value <= y.value then y.value - x.value + 1 else 0)
              && forall k :: 0 <= k < |Expand(f).value| ==> Expand(f).value[k] == x.value + k
  {
    hide Parse, Pieces;
    ParseAllIs(Pieces(f));
  }

  lemma {:induction false} ParseAllIs(ps: seq<string>)
    ensures ParseAll(ps).None? <==> exists i :: 0 <= i < |ps| && Parse(ps[i]).None?
    ensures ParseAll(ps).Some? ==> forall i :: 0 <= i < |ps| ==> Parse(ps[i]) == Some(ParseAll(ps).value[i])
  {
    hide Parse;
    if ps != [] {
      var rest := ps[1..];
      ParseAllIs(rest);
      if ParseAll(rest).None? {
        var i :| 0 <= i < |rest| && Parse(rest[i]).None?;
        assert Parse(ps[i + 1]).None?;
      }
    }
  }

  // ---------- the round trip ----------

  lemma {:induction false} PiecesOfDigits(f: string, rest: string)
    requires Digits(f)
    ensures Pieces(f + rest) == [f + Pieces(rest)[0]] + Pieces(rest)[1..]
  {
    if f == "" {
      assert f + rest == rest && "" + Pieces(rest)[0] == Pieces(rest)[0];
    } else {
      PiecesOfDigits(f[1..], rest);
      assert (f + rest)[1..] == f[1..] + rest;
      assert [f[0]] + (f[1..] + Pieces(rest)[0]) == f + Pieces(rest)[0];
    }
  }

  lemma ShownIsParsed(n: nat)
    ensures Digits(Show(n)) && Parse(Show(n)) == Some(n)
  {
    DigitsStay(Show(n));
  }

  /** A group of naturals is read back from its token. */
  lemma TokenBack(g: seq<int>)
    requires Consecutive(g) && g[0] >= 0
    ensures Expand(Single(g)) == Some(g)
  {
    hide ToString, Show, Pieces, Parse, ParseAll;
    var a, b := Show(g[0]), Show(g[|g| - 1]);
    ShownIsParsed(g[0]);
    ShownIsParsed(g[|g| - 1]);
    if |g| > 1 {
      TwoPieces(a, b);
      ParseTwo(a, b);
    } else {
      OnePiece(a);
      ParseOne(a);
    }
    assert Range(g[0], g[|g| - 1] + 1) == g;
  }

  lemma OnePiece(a: string)
    requires Digits(a)
    ensures Pieces(a) == [a]
  {
    PiecesOfDigits(a, "");
    assert a + "" == a;
  }

  lemma TwoPieces(a: string, b: string)
    requires Digits(a) && Digits(b)
    ensures Pieces(a + "-" + b) == [a, b]
  {
    OnePiece(b);
    PiecesOfDigits(a, "-" + b);
    assert ("-" + b)[1..] == b && a + "" == a;
    assert a + ("-" + b) == a + "-" + b;
  }

  lemma ParseOne(a: string)
    requires Parse(a).Some?
    ensures ParseAll([a]) == Some([Parse(a).value])
  {
    assert [a][1..] == [];
    assert [Parse(a).value] + [] == [Parse(a).value];
  }

  lemma ParseTwo(a: string, b: string)
    requires Parse(a).Some? && Parse(b).Some?
    ensures ParseAll([a, b]) == Some([Parse(a).value, Parse(b).value])
  {
    ParseOne(b);
    hide Parse;
    assert [a, b][0] == a && [a, b][1..] == [b];
    assert [Parse(a).value] + [Parse(b).value] == [Parse(a).value, Parse(b).value];
  }

  // ---------- the tokens of a written list ----------

  /** The characters of a token: digits and dashes. */
  predicate IsToken(w: string) { w != "" && forall i :: 0 <= i < |w| ==> IsDigit(w[i]) || w[i] == '-' }

  lemma SingleIsToken(g: seq<int>)
    requires g != []
    ensures IsToken(Single(g))
  {
    hide IsToken, Show;
    ShowIsToken(g[0]);
    ShowIsToken(g[|g| - 1]);
    if |g| > 1 { DashedTokens(Show(g[0]), Show(g[|g| - 1])); }
  }

  lemma ShowIsToken(n: int)
    ensures IsToken(Show(n))
  {
  }

  lemma TokenIsWord(w: string)
    requires IsToken(w)
    ensures IsWord(w)
  {
  }

  lemma DashedTokens(a: string, b: string)
    requires IsToken(a) && IsToken(b)
    ensures IsToken(a + "-" + b)
  {
  }

  lemma WordBegins(t: string, c: char)
    requires (t == "" || IsSpace(t[|t| - 1])) && !IsSpace(c)
    ensures Words(t + [c]) == Words(t) + [[c]]
  {
    assert (t + [c])[..|t|] == t;
  }

  lemma WordGrows(t: string, ws: seq<string>, w: string, c: char)
    requires t != "" && !IsSpace(t[|t| - 1]) && !IsSpace(c) && Words(t) == ws + [w]
    ensures Words(t + [c]) == ws + [w + [c]]
  {
    assert (t + [c])[..|t|] == t;
    assert (ws + [w])[..|ws|] == ws;
  }

  /** Not empty and without white space. */
  predicate IsWord(w: string) { w != "" && forall i :: 0 <= i < |w| ==> !IsSpace(w[i]) }

  /** Behind white space a word is a word of its own. */
  lemma {:induction false} WordsOnto(y: string, w: string)
    requires IsWord(w) && (y == "" || IsSpace(y[|y| - 1]))
    ensures Words(y + w) == Words(y) + [w]
    decreases |w|
  {
    hide Words;
    var n := |w| - 1;
    var w', c := w[..n], w[n];
    assert w == w' + [c];
    if n == 0 {
      WordBegins(y, c);
      assert w == [c];
    } else {
      WordsOnto(y, w');
      WordGrows(y + w', Words(y), w', c);
      assert y + w == y + w' + [c];
    }
  }

  ghost function Tokens(gs: seq<seq<int>>): seq<string>
    requires Filled(gs)
  {
    if gs == [] then [] else Tokens(gs[..|gs| - 1]) + [Single(gs[|gs| - 1])]
  }

  /** Tokens and single blanks, beginning and ending with a token. */
  predicate IsLine(s: string)
  {
    && (forall i :: 0 <= i < |s| ==> IsDigit(s[i]) || s[i] == '-' || s[i] == ' ')
    && (s != "" ==> s[0] != ' ' && s[|s| - 1] != ' ')
    && (forall i :: 0 <= i < |s| - 1 ==> !(s[i] == s[i + 1] == ' '))
  }

  lemma {:induction false} JoinedWords(gs: seq<seq<int>>)
    requires Filled(gs)
    ensures Words(Joined(gs)) == Tokens(gs) && IsLine(Joined(gs)) && (gs != [] ==> Joined(gs) != "")
  {
    hide Single, Words, IsLine, IsToken;
    if gs == [] {
      NoWords();
    } else {
      var front, w := gs[..|gs| - 1], Single(gs[|gs| - 1]);
      JoinedWords(front);
      SingleIsToken(gs[|gs| - 1]);
      TokenIsWord(w);
      var j := Joined(front);
      if front == [] {
        NoWords();
        WordsOnto("", w);
        assert "" + w == w;
        LineBegins(w);
      } else {
        SpaceEnds(j, ' ');
        WordsOnto(j + " ", w);
        LineExtends(j, w);
      }
    }
  }

  lemma LineBegins(w: string)
    requires IsToken(w)
    ensures IsLine(w) && w != ""
  {
  }

  lemma LineExtends(j: string, w: string)
    requires IsLine(j) && j != "" && IsToken(w)
    ensures IsLine(j + " " + w)
  {
  }

  lemma NoWords()
    ensures Words("") == [] && IsLine("")
  {
  }

  lemma SpaceEnds(j: string, c: char)
    requires IsSpace(c)
    ensures Words(j + [c]) == Words(j)
  {
    assert (j + [c])[..|j|] == j;
  }

  lemma LineIsClean(s: string)
    requires IsLine(s)
    ensures CommasToBlanks(Strip(s)) == s
  {
  }

  lemma {:induction false} TokensExpand(gs: seq<seq<int>>)
    requires Filled(gs) && forall i :: 0 <= i < |gs| ==> Consecutive(gs[i]) && gs[i][0] >= 0
    ensures ExpandAll(Tokens(gs)) == Some(Flatten(gs))
  {
    if gs != [] {
      hide Single, Expand;
      var front, g := gs[..|gs| - 1], gs[|gs| - 1];
      TokensExpand(front);
      TokenBack(g);
      assert Tokens(gs)[..|gs| - 1] == Tokens(front) by { TokensLength(front); }
      TokensLength(gs);
    }
  }

  lemma {:induction false} TokensLength(gs: seq<seq<int>>)
    requires Filled(gs)
    ensures |Tokens(gs)| == |gs|
    ensures gs != [] ==> Tokens(gs)[0] == Single(gs[0])
  {
    if gs != [] {
      TokensLength(gs[..|gs| - 1]);
    }
  }

  /** A negative first number leaves an empty piece before its sign, which int()
      refuses. */
  lemma NegativeFails(g: seq<int>)
    requires g != [] && g[0] < 0
    ensures Expand(Single(g)) == None
  {
    var f := Single(g);
    assert f[0] == '-';
    assert Pieces(f)[0] == "";
  }

  /** Reading back what was written for s. */
  ghost function Reread(s: seq<int>): Option<seq<int>>
  {
    Read(Joined(Groups(s)))
  }

  lemma RereadIsTokens(s: seq<int>)
    ensures Reread(s) == ExpandAll(Tokens(Groups(s)))
  {
    hide Words, CommasToBlanks, Strip, Joined, Groups, ExpandAll, Tokens, IsLine;
    JoinedWords(Groups(s));
    LineIsClean(Joined(Groups(s)));
  }

  /** What is written for a sorted list is read back as that list, repeats
      included, exactly when no number is negative; otherwise reading fails. */
  lemma RoundTrip(s: seq<int>)
    requires Ascending(s)
    ensures (s == [] || s[0] >= 0) <==> Reread(s) == Some(s)
    ensures s != [] && s[0] < 0 ==> Reread(s) == None
  {
    hide Groups, Reread, ExpandAll, Expand, Single, Tokens, Flatten;
    var gs := Groups(s);
    RereadIsTokens(s);
    GroupsPartition(s);
    if s == [] || s[0] >= 0 {
      forall i | 0 <= i < |gs| ensures gs[i][0] >= 0 { var p := FlattenElement(gs, i); }
      TokensExpand(gs);
    } else {
      TokensLength(gs);
      FirstOfFirst(gs);
      NegativeFails(gs[0]);
      FirstFails(Tokens(gs));
    }
  }

  lemma {:induction false} FlattenElement(gs: seq<seq<int>>, i: nat) returns (p: nat)
    requires Filled(gs) && i < |gs|
    ensures p < |Flatten(gs)| && Flatten(gs)[p] == gs[i][0]
    decreases |gs|
  {
    var n := |gs| - 1;
    if i == n { p := |Flatten(gs[..n])|; } else { p := FlattenElement(gs[..n], i); }
  }

  lemma {:induction false} FirstOfFirst(gs: seq<seq<int>>)
    requires Filled(gs) && gs != []
    ensures Flatten(gs) != [] && Flatten(gs)[0] == gs[0][0]
  {
    if |gs| > 1 { FirstOfFirst(gs[..|gs| - 1]); }
  }

  lemma FirstFails(ws: seq<string>)
    requires ws != [] && Expand(ws[0]).None?
    ensures ExpandAll(ws).None?
  {
    hide Expand;
    assert ws[..1][..0] == [] && ws[..1][0] == ws[0];
    FailsOnce(ws, 1);
  }
}
