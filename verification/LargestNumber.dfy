/** Arranging numbers so that their concatenation is greatest:
    hobbies/leetcode/algorithms/solution_179.cpp. */
module LargestNumber {
  import opened Arith
  import opened Decimal
  import opened Sorting

  // ---------- decimal strings ----------

  ghost function Pow10(n: nat): (p: nat)
    ensures p >= 1
  {
    if n == 0 then 1 else 10 * Pow10(n - 1)
  }

  lemma {:induction false} ValAppend(a: string, b: string)
    requires Digits(a) && Digits(b)
    ensures Digits(a + b) && Val(a + b) == Val(a) * Pow10(|b|) + Val(b)
  {
    if b == "" {
      assert a + b == a;
    } else {
      var b', c := b[..|b| - 1], (b[|b| - 1] - '0') as nat;
      assert (a + b)[..|a + b| - 1] == a + b';
      ValAppend(a, b');
      assert Val(b) == 10 * Val(b') + c && Val(a + b) == 10 * Val(a + b') + c;
      assert Pow10(|b|) == 10 * Pow10(|b'|);
      hide *;
      Tens(Val(a), Pow10(|b'|));
    }
  }

  lemma Tens(v: int, p: int)
    ensures v * (10 * p) == 10 * (v * p)
  {
  }

  lemma {:induction false} ValBound(s: string)
    requires Digits(s)
    ensures Val(s) < Pow10(|s|)
  {
    if s != "" { ValBound(s[..|s| - 1]); }
  }

  /** The order of std::string: the first difference decides, a prefix comes first. */
  predicate Greater(a: string, b: string)
  {
    if a == "" then false
    else if b == "" then true
    else if a[0] != b[0] then a[0] > b[0]
    else Greater(a[1..], b[1..])
  }

  lemma ValSingle(d: string)
    requires Digits(d) && |d| == 1
    ensures Val(d) == (d[0] - '0') as nat
  {
    assert d[..0] == "" && Val("") == 0;
  }

  /** The first digit counts for all that follow. */
  lemma ValLead(a: string)
    requires Digits(a) && a != ""
    ensures Val(a) == (a[0] - '0') as nat * Pow10(|a| - 1) + Val(a[1..])
  {
    ValSingle(a[..1]);
    hide *;
    assert a == a[..1] + a[1..];
    ValAppend(a[..1], a[1..]);
    assert a[..1][0] == a[0] && |a[1..]| == |a| - 1;
  }

  /** On digit strings of equal length the string order is the numeric order. */
  lemma {:induction false} GreaterIsNumeric(a: string, b: string)
    requires Digits(a) && Digits(b) && |a| == |b|
    ensures Greater(a, b) <==> Val(a) > Val(b)
  {
    if a != "" {
      ValLead(a);
      ValLead(b);
      GreaterIsNumeric(a[1..], b[1..]);
      ValBound(a[1..]);
      ValBound(b[1..]);
      var x, y := (a[0] - '0') as nat, (b[0] - '0') as nat;
      if x > y {
        LeadDecides(x, y, Pow10(|a| - 1), Val(a[1..]), Val(b[1..]));
      } else if x < y {
        LeadDecides(y, x, Pow10(|a| - 1), Val(b[1..]), Val(a[1..]));
      }
    }
  }

  lemma LeadDecides(x: nat, y: nat, p: nat, u: nat, v: nat)
    requires x > y && v < p
    ensures x * p + u > y * p + v
  {
    Distribute(x, y, p);
    MulAtLeast(x - y, p);
  }

  // ---------- the comparator ----------

  /** The lambda handed to std::sort. */
  predicate Before(x: string, y: string) { Greater(x + y, y + x) }

  /** The digits of a string weighed against its length: x comes before y exactly
      when Val(x) / (10^|x| - 1) is the larger quotient. */
  lemma BeforeIsRatio(x: string, y: string)
    requires Digits(x) && Digits(y)
    ensures Before(x, y) <==> Val(x) * (Pow10(|y|) - 1) > Val(y) * (Pow10(|x|) - 1)
  {
    hide *;
    BeforeIs(x, y);
    ValAppend(x, y);
    ValAppend(y, x);
    GreaterIsNumeric(x + y, y + x);
    Compare(Val(x), Pow10(|x|), Val(y), Pow10(|y|));
  }

  lemma BeforeIs(x: string, y: string)
    ensures Before(x, y) <==> Greater(x + y, y + x)
  {
  }

  lemma Compare(vx: nat, px: nat, vy: nat, py: nat)
    ensures vx * py + vy > vy * px + vx <==> vx * (py - 1) > vy * (px - 1)
  {
    LessOne(vx, py);
    LessOne(vy, px);
  }

  lemma LessOne(v: int, p: int)
    ensures v * (p - 1) == v * p - v
  {
  }

  ghost predicate Word(s: string) { s != "" && Digits(s) }

  lemma RatioTransitive(vx: nat, px: nat, vy: nat, py: nat, vz: nat, pz: nat)
    requires py > 0
    requires vx * py >= vy * px && vy * pz >= vz * py
    ensures vx * pz >= vz * px
  {
    Scale(vx * py, vy * px, pz);
    Scale(vy * pz, vz * py, px);
    assert (vx * pz) * py >= (vz * px) * py by {
      assert (vx * py) * pz == (vx * pz) * py;
      assert (vy * px) * pz == (vy * pz) * px;
      assert (vz * py) * px == (vz * px) * py;
    }
    if vx * pz < vz * px {
      Distribute(vz * px, vx * pz, py);
      MulAtLeast(vz * px - vx * pz, py);
    }
  }

  lemma Scale(a: nat, b: nat, c: nat)
    requires a >= b
    ensures a * c >= b * c
  {
  }

  lemma BeforeIsStrictWeakOrder()
    ensures StrictWeakOrder(Before, Word)
  {
    forall x, y | Word(x) && Word(y) && Before(x, y) ensures !Before(y, x) {
      BeforeIsRatio(x, y);
      BeforeIsRatio(y, x);
    }
    forall x, y, z | Word(x) && Word(y) && Word(z) && !Before(y, x) && !Before(z, y) ensures !Before(z, x) {
      NotBeforeTransitive(x, y, z);
    }
  }

  lemma NotBeforeTransitive(x: string, y: string, z: string)
    requires Word(x) && Word(y) && Word(z) && !Before(y, x) && !Before(z, y)
    ensures !Before(z, x)
  {
    BeforeIsRatio(y, x);
    BeforeIsRatio(z, y);
    BeforeIsRatio(z, x);
    RatioTransitive(Val(x), Pow10(|x|) - 1, Val(y), Pow10(|y|) - 1, Val(z), Pow10(|z|) - 1);
  }

  // ---------- concatenations ----------

  function Concat(ss: seq<string>): string
  {
    if ss == [] then "" else ss[0] + Concat(ss[1..])
  }

  ghost predicate Words(ss: seq<string>) { forall i :: 0 <= i < |ss| ==> Word(ss[i]) }

  lemma {:induction false} ConcatAdds(a: seq<string>, b: seq<string>)
    ensures Concat(a + b) == Concat(a) + Concat(b)
  {
    if a == [] {
      assert a + b == b;
    } else {
      assert (a + b)[1..] == a[1..] + b;
      ConcatAdds(a[1..], b);
    }
  }

  lemma {:induction false} ConcatDigits(ss: seq<string>)
    requires Words(ss)
    ensures Digits(Concat(ss))
  {
    if ss != [] { ConcatDigits(ss[1..]); }
  }

  /** s denotes at least as large a number as t and has as many digits. */
  ghost predicate Dominates(s: string, t: string)
  {
    Digits(s) && Digits(t) && |s| == |t| && Val(s) >= Val(t)
  }

  /** Domination survives a common front and a common back. */
  lemma DominatesInside(front: string, s: string, t: string, back: string)
    requires Digits(front) && Digits(back) && Dominates(s, t)
    ensures Dominates(front + s + back, front + t + back)
  {
    ValAppend(front, s);
    ValAppend(front, t);
    ValAppend(front + s, back);
    ValAppend(front + t, back);
    Scale(Val(front + s), Val(front + t), Pow10(|back|));
  }

  lemma DominatesTransitive(s: string, t: string, u: string)
    requires Dominates(s, t) && Dominates(t, u)
    ensures Dominates(s, u)
  {
  }

  lemma DominatesItself(ss: seq<string>)
    requires Words(ss)
    ensures Dominates(Concat(ss), Concat(ss))
  {
    ConcatDigits(ss);
  }

  lemma FrontPair(x: string, y: string, rest: seq<string>)
    requires Word(x) && Word(y) && Words(rest) && !Before(y, x)
    ensures Dominates(Concat([x, y] + rest), Concat([y, x] + rest))
  {
    ConcatDigits(rest);
    ConcatPair(x, y);
    ConcatPair(y, x);
    ConcatAdds([x, y], rest);
    ConcatAdds([y, x], rest);
    ValAppend(x, y);
    ValAppend(y, x);
    GreaterIsNumeric(y + x, x + y);
    DominatesInside("", x + y, y + x, Concat(rest));
    assert "" + (x + y) == x + y && "" + (y + x) == y + x;
  }

  lemma UnderHead(y: string, a: seq<string>, b: seq<string>)
    requires Word(y) && Dominates(Concat(a), Concat(b))
    ensures Dominates(Concat([y] + a), Concat([y] + b))
  {
    ConcatAdds([y], a);
    ConcatAdds([y], b);
    assert Concat([y]) == y by { assert [y][1..] == []; }
    DominatesInside(y, Concat(a), Concat(b), "");
    assert y + Concat(a) + "" == y + Concat(a) && y + Concat(b) + "" == y + Concat(b);
  }

  /** Moving a word to the front past words that do not belong before it. */
  lemma {:induction false} MoveToFront(p: seq<string>, x: string, q: seq<string>)
    requires Words(p) && Word(x) && Words(q)
    requires forall i :: 0 <= i < |p| ==> !Before(p[i], x)
    ensures Dominates(Concat([x] + p + q), Concat(p + [x] + q))
  {
    hide Concat, Dominates, Before, Word;
    if p == [] {
      assert [x] + p + q == p + [x] + q;
      DominatesItself(p + [x] + q);
    } else {
      var y, p' := p[0], p[1..];
      MoveToFront(p', x, q);
      FrontPair(x, y, p' + q);
      UnderHead(y, [x] + p' + q, p' + [x] + q);
      assert p + [x] + q == [y] + (p' + [x] + q);
      assert [x] + p + q == [x, y] + (p' + q);
      assert [y] + ([x] + p' + q) == [y, x] + (p' + q);
      DominatesTransitive(Concat([x] + p + q), Concat([y, x] + (p' + q)), Concat(p + [x] + q));
    }
  }

  lemma ConcatPair(x: string, y: string)
    ensures Concat([x, y]) == x + y
  {
    assert [x, y][1..] == [y] && [y][1..] == [];
    assert Concat([y]) == y + Concat([]) == y;
  }

  lemma HeadIsFirst(s: seq<string>, w: string)
    requires s != [] && Words(s) && Sorted(s, Before) && w in multiset(s)
    ensures Word(w) && !Before(w, s[0])
  {
    var m :| 0 <= m < |s| && s[m] == w;
    if m == 0 { NeverBeforeItself(w); }
  }

  lemma HeadIsFirstOfAll(s: seq<string>, t: seq<string>, p: seq<string>, q: seq<string>)
    requires s != [] && Words(s) && Sorted(s, Before) && multiset(s) == multiset(t) && t == p + [s[0]] + q
    ensures Words(p) && Words(q) && forall j :: 0 <= j < |p| ==> !Before(p[j], s[0])
  {
    hide Before, Word, Sorted;
    forall j | 0 <= j < |p| ensures Word(p[j]) && !Before(p[j], s[0]) {
      assert p[j] == t[j] && t[j] in multiset(t);
      HeadIsFirst(s, p[j]);
    }
    forall j | 0 <= j < |q| ensures Word(q[j]) {
      assert q[j] == t[|p| + 1 + j] && t[|p| + 1 + j] in multiset(t);
      HeadIsFirst(s, q[j]);
    }
  }

  /** The sorted arrangement dominates every arrangement of the same words. */
  lemma {:induction false} SortedDominates(s: seq<string>, t: seq<string>)
    requires Words(s) && Sorted(s, Before) && multiset(s) == multiset(t)
    ensures Dominates(Concat(s), Concat(t))
  {
    if s == [] {
      assert |multiset(s)| == |multiset(t)|;
    } else {
      var p, q := TakeOut(s, t);
      HeadIsFirstOfAll(s, t, p, q);
      hide Concat, Dominates, Before, Word;
      MoveToFront(p, s[0], q);
      SortedDominates(s[1..], p + q);
      UnderHead(s[0], s[1..], p + q);
      assert s == [s[0]] + s[1..] && [s[0]] + p + q == [s[0]] + (p + q);
      DominatesTransitive(Concat(s), Concat([s[0]] + (p + q)), Concat(t));
    }
  }

  lemma NeverBeforeItself(x: string)
    requires Word(x)
    ensures !Before(x, x)
  {
    BeforeIsRatio(x, x);
  }

  // ---------- the code ----------

  ghost function Numerals(nums: seq<nat>): seq<string>
  {
    seq(|nums|, i requires 0 <= i < |nums| => ToString(nums[i]))
  }

  /** When the greatest word is "0", so are all of them. */
  lemma ZeroFirst(s: seq<string>)
    requires s != [] && Words(s) && Sorted(s, Before) && s[0] == "0"
    ensures Digits(Concat(s)) && Val(Concat(s)) == 0
    decreases |s|
  {
    assert Val("0") == Val("0"[..0]) * 10;
    forall i | 0 <= i < |s| ensures Val(s[i]) == 0 {
      if i > 0 {
        BeforeIsRatio(s[i], "0");
        assert Pow10(1) == 10 * Pow10(0);
      }
    }
    ZeroConcat(s);
  }

  lemma {:induction false} ZeroConcat(s: seq<string>)
    requires Words(s) && forall i :: 0 <= i < |s| ==> Val(s[i]) == 0
    ensures Digits(Concat(s)) && Val(Concat(s)) == 0
  {
    if s != [] {
      ZeroConcat(s[1..]);
      ValAppend(s[0], Concat(s[1..]));
    }
  }

  /** r is a numeral, some arrangement of the numbers spells out its value, and
      no arrangement spells out a larger one. */
  ghost predicate IsLargest(nums: seq<nat>, r: string)
  {
    && IsNumeral(r)
    && (exists p :: multiset(p) == multiset(Numerals(nums)) && Digits(Concat(p)) && Val(Concat(p)) == Val(r))
    && (forall p :: multiset(p) == multiset(Numerals(nums)) ==> Digits(Concat(p)) && Val(Concat(p)) <= Val(r))
  }

  lemma NumeralsAreWords(s: seq<string>, nums: seq<nat>)
    requires multiset(s) == multiset(Numerals(nums))
    ensures Words(s) && forall k :: 0 <= k < |s| ==> IsNumeral(s[k])
  {
    forall k | 0 <= k < |s| ensures IsNumeral(s[k]) { assert s[k] in multiset(Numerals(nums)); }
  }

  lemma SortedIsLargest(s: seq<string>, nums: seq<nat>)
    requires s != [] && multiset(s) == multiset(Numerals(nums)) && Sorted(s, Before)
    ensures IsLargest(nums, if s[0] == "0" then "0" else Concat(s))
  {
    hide Sorted, Before, Concat, Val, Numerals;
    NumeralsAreWords(s, nums);
    ConcatDigits(s);
    forall p | multiset(p) == multiset(Numerals(nums)) ensures Dominates(Concat(s), Concat(p)) {
      SortedDominates(s, p);
    }
    if s[0] == "0" {
      ZeroFirst(s);
      ZeroIsNumeral();
    } else {
      FrontOfConcat(s);
    }
  }

  lemma ZeroIsNumeral()
    ensures IsNumeral("0") && Val("0") == 0
  {
    assert Val("0") == Val("0"[..0]) * 10;
  }

  lemma FrontOfConcat(s: seq<string>)
    requires s != [] && s[0] != ""
    ensures Concat(s) != "" && Concat(s)[0] == s[0][0]
  {
  }

  method Largest(nums: seq<nat>) returns (r: string)
    requires nums != []
    ensures IsLargest(nums, r)
  {
    hide IsLargest, Sorted, Before, StrictWeakOrder, ToString;
    var numstrs := new string[|nums|];
    var i := 0;
    while i < |nums|
      invariant 0 <= i <= |nums|
      invariant forall k :: 0 <= k < i ==> numstrs[k] == ToString(nums[k])
    {
      numstrs[i] := ToString(nums[i]);
      i := i + 1;
    }
    assert numstrs[..] == Numerals(nums);
    BeforeIsStrictWeakOrder();
    Sort(numstrs, Before, Word);
    SortedIsLargest(numstrs[..], nums);
    if numstrs[0] == "0" { return "0"; }
    r := Accumulate(numstrs);
  }

  /** std::accumulate over the sorted strings. */
  method Accumulate(numstrs: array<string>) returns (r: string)
    ensures r == Concat(numstrs[..])
  {
    r := "";
    var i := 0;
    while i < numstrs.Length
      invariant 0 <= i <= numstrs.Length
      invariant r + Concat(numstrs[i..]) == Concat(numstrs[..])
    {
      assert numstrs[i..] == [numstrs[i]] + numstrs[i + 1..];
      ConcatAdds([numstrs[i]], numstrs[i + 1..]);
      assert [numstrs[i]][1..] == [];
      r := r + numstrs[i];
      i := i + 1;
    }
    assert numstrs[i..] == [];
  }
}
