/** The calculators of hobbies/leetcode/algorithms/solution_224.cpp. */
module Calculator {
  /* Recursive descent over a shared position, a single pass with two stacks, and
     when the two agree. */

  import opened Decimal
  import opened Slices

  // ---------- the language ----------

  /** An expression as written: operands joined by + and -, with any number of
      spaces at every gap. */
  datatype Expr = Expr(lead: nat, first: Operand, rest: Tail)

  /** A number or a parenthesis, after any number of signs. */
  datatype Operand = Operand(signs: seq<Sign>, p: Primary)

  datatype Sign = Sign(minus: bool, gap: nat)

  datatype Primary = Num(digits: string) | Paren(inner: Expr)

  datatype Tail = End(spaces: nat) | More(before: nat, plus: bool, after: nat, operand: Operand, rest: Tail)

  ghost function Spaces(n: nat): (s: string)
    ensures |s| == n
  {
    if n == 0 then "" else [' '] + Spaces(n - 1)
  }

  /** Every number has at least one digit and nothing but digits. */
  ghost predicate Wf(e: Expr) { WfPrim(e.first.p) && WfTail(e.rest) }

  ghost predicate WfPrim(p: Primary)
  {
    match p
    case Num(d) => d != "" && Digits(d)
    case Paren(e) => Wf(e)
  }

  ghost predicate WfTail(t: Tail) { t.More? ==> WfPrim(t.operand.p) && WfTail(t.rest) }

  ghost function Print(e: Expr): string
  {
    Spaces(e.lead) + PrintSigns(e.first.signs) + PrintPrim(e.first.p) + PrintTail(e.rest)
  }

  ghost function SignChar(minus: bool): char { if minus then '-' else '+' }

  ghost function PrintSigns(signs: seq<Sign>): string
  {
    if signs == [] then "" else [SignChar(signs[0].minus)] + Spaces(signs[0].gap) + PrintSigns(signs[1..])
  }

  ghost function PrintPrim(p: Primary): string
  {
    match p
    case Num(d) => d
    case Paren(e) => ['('] + Print(e) + [')']
  }

  ghost function PrintTail(t: Tail): string
  {
    match t
    case End(n) => Spaces(n)
    case More(b, plus, a, o, rest) =>
      Spaces(b) + [SignChar(!plus)] + Spaces(a) + PrintSigns(o.signs) + PrintPrim(o.p) + PrintTail(rest)
  }

  // ---------- the two readings of signs ----------

  /** `Descent` reads signs as arithmetic does: every minus negates.  `OnePass`
      goes by the last sign written, the operator included. */
  datatype Reading = Descent | OnePass

  ghost function One(minus: bool): int { if minus then -1 else 1 }

  /** The sign of an operand that follows an operator of sign op. */
  ghost function SignOf(r: Reading, op: int, signs: seq<Sign>): int
    decreases |signs|
  {
    if signs == [] then op else
      var f := One(signs[0].minus);
      SignOf(r, if r.Descent? then op * f else f, signs[1..])
  }

  ghost function Value(r: Reading, e: Expr): int
  {
    SignOf(r, 1, e.first.signs) * PrimValue(r, e.first.p) + TailValue(r, e.rest)
  }

  ghost function PrimValue(r: Reading, p: Primary): int
  {
    match p
    case Num(d) => Val(d)
    case Paren(e) => Value(r, e)
  }

  ghost function TailValue(r: Reading, t: Tail): int
  {
    match t
    case End(_) => 0
    case More(_, plus, _, o, rest) => SignOf(r, One(!plus), o.signs) * PrimValue(r, o.p) + TailValue(r, rest)
  }

  // ---------- recursive descent, as functions ----------

  /** What a call leaves behind: a value and the new position, or a failed assert. */
  datatype Outcome = Ok(value: int, pos: nat) | Abort

  /** The end of the run of digits that stol consumes from pos. */
  function DigitsEnd(s: string, pos: nat): (q: nat)
    requires pos <= |s|
    ensures pos <= q <= |s|
    decreases |s| - pos
  {
    if pos < |s| && IsDigit(s[pos]) then DigitsEnd(s, pos + 1) else pos
  }

  /** `prim` after its entry assert. */
  function PrimF(s: string, pos: nat): (r: Outcome)
    requires pos <= |s|
    ensures r.Ok? ==> pos <= r.pos <= |s| && (pos < |s| ==> pos < r.pos)
    decreases |s| - pos, 0
  {
    if pos == |s| then Ok(0, pos)
    else if IsDigit(s[pos]) then
      var q := DigitsEnd(s, pos + 1);
      Ok(Val(s[pos..q]), q)
    else if s[pos] == '-' then
      if pos + 1 == |s| then Abort else
        var r := PrimF(s, pos + 1);
        if r.Abort? then Abort else Ok(-r.value, r.pos)
    else if s[pos] == '(' then
      var r := ExprF(s, pos + 1);
      if r.Abort? || r.pos == |s| || s[r.pos] != ')' then Abort else Ok(r.value, r.pos + 1)
    else PrimF(s, pos + 1)
  }

  function ExprF(s: string, pos: nat): (r: Outcome)
    requires pos <= |s|
    ensures r.Ok? ==> pos <= r.pos <= |s|
    decreases |s| - pos, 1
  {
    if pos == |s| then Ok(0, pos) else
      var r := PrimF(s, pos);
      if r.Abort? then Abort else LoopF(s, r.pos, r.value)
  }

  /** The loop of `expr`, entered with the partial result. */
  function LoopF(s: string, pos: nat, result: int): (r: Outcome)
    requires pos <= |s|
    ensures r.Ok? ==> pos <= r.pos <= |s|
    decreases |s| - pos, 0
  {
    if pos == |s| then Ok(result, pos)
    else if s[pos] == '+' || s[pos] == '-' then
      if pos + 1 == |s| then Abort else
        var r := PrimF(s, pos + 1);
        if r.Abort? then Abort
        else LoopF(s, r.pos, if s[pos] == '+' then result + r.value else result - r.value)
    else if s[pos] == ' ' then LoopF(s, pos + 1, result)
    else Ok(result, pos)
  }

  // ---------- recursive descent, as written ----------

  /** `prim`: the position is passed by reference in the source and returned here. */
  method Prim(s: string, pos0: nat) returns (r: Outcome)
    requires pos0 <= |s|
    ensures r == if pos0 == |s| then Abort else PrimF(s, pos0)
    decreases |s| - pos0, 0
  {
    if pos0 == |s| { return Abort; }
    var pos := pos0;
    while pos < |s|
      invariant pos0 <= pos <= |s| && PrimF(s, pos) == PrimF(s, pos0)
    {
      if IsDigit(s[pos]) {
        var q := pos + 1;
        while q < |s| && IsDigit(s[q])
          invariant pos < q <= |s| && DigitsEnd(s, q) == DigitsEnd(s, pos + 1)
        {
          q := q + 1;
        }
        return Ok(Val(s[pos..q]), q);
      } else if s[pos] == '-' {
        r := Prim(s, pos + 1);
        if r.Ok? { r := Ok(-r.value, r.pos); }
        return;
      } else if s[pos] == '(' {
        r := ParseExpr(s, pos + 1);
        if r.Ok? {
          r := if r.pos == |s| || s[r.pos] != ')' then Abort else Ok(r.value, r.pos + 1);
        }
        return;
      }
      pos := pos + 1;
    }
    return Ok(0, pos);
  }

  /** `expr`. */
  method ParseExpr(s: string, pos0: nat) returns (r: Outcome)
    requires pos0 <= |s|
    ensures r == ExprF(s, pos0)
    decreases |s| - pos0, 1
  {
    if pos0 >= |s| { return Ok(0, pos0); }
    r := Prim(s, pos0);
    if r.Abort? { return; }
    var pos, result := r.pos, r.value;
    while pos < |s| && (s[pos] == '+' || s[pos] == '-' || s[pos] == ' ')
      invariant pos0 < pos <= |s| && LoopF(s, pos, result) == ExprF(s, pos0)
      decreases |s| - pos
    {
      if s[pos] == ' ' {
        pos := pos + 1;
      } else {
        r := Prim(s, pos + 1);
        if r.Abort? { return; }
        result := if s[pos] == '+' then result + r.value else result - r.value;
        pos := r.pos;
      }
    }
    return Ok(result, pos);
  }

  method Calculate(s: string) returns (r: Outcome)
    ensures r == ExprF(s, 0)
  {
    r := ParseExpr(s, 0);
  }

  // ---------- recursive descent returns the value of what was printed ----------

  lemma AtChar(s: string, pos: nat, c: char)
    requires At(s, pos, [c])
    ensures pos < |s| && s[pos] == c
  {
    assert s[pos..pos + 1][0] == c;
  }

  lemma {:induction false} SkipSpaces(s: string, pos: nat, n: nat, result: int)
    requires At(s, pos, Spaces(n))
    ensures PrimF(s, pos) == PrimF(s, pos + n)
    ensures LoopF(s, pos, result) == LoopF(s, pos + n, result)
    decreases n
  {
    if n > 0 {
      AtSplit(s, pos, [' '], Spaces(n - 1));
      AtChar(s, pos, ' ');
      SkipSpaces(s, pos + 1, n - 1, result);
    }
  }

  lemma {:induction false} RunOfDigits(s: string, pos: nat, end: nat)
    requires pos <= end <= |s| && (forall i :: pos <= i < end ==> IsDigit(s[i]))
    requires end == |s| || !IsDigit(s[end])
    ensures DigitsEnd(s, pos) == end
    decreases end - pos
  {
    if pos < end { RunOfDigits(s, pos + 1, end); }
  }

  /** Where an expression may end: the end of the string or a closing parenthesis. */
  ghost predicate Closes(s: string, q: nat) { q == |s| || (q < |s| && s[q] == ')') }

  ghost predicate NoDigitAt(s: string, q: nat) { q == |s| || (q < |s| && !IsDigit(s[q])) }

  lemma {:induction false} PrimReads(s: string, pos: nat, p: Primary)
    requires WfPrim(p) && At(s, pos, PrintPrim(p)) && NoDigitAt(s, pos + |PrintPrim(p)|)
    ensures PrimF(s, pos) == Ok(PrimValue(Descent, p), pos + |PrintPrim(p)|)
    decreases p
  {
    var end := pos + |PrintPrim(p)|;
    match p {
      case Num(d) => NumberReads(s, pos, d);
      case Paren(e) =>
        hide PrimF, ExprF, At, NoDigitAt;
        AtSplit(s, pos, ['('] + Print(e), [')']);
        AtSplit(s, pos, ['('], Print(e));
        AtChar(s, pos, '(');
        AtChar(s, end - 1, ')');
        ClosesAt(s, end - 1);
        ExprReads(s, pos + 1, e);
        ParenReads(s, pos, Value(Descent, e), end - 1);
    }
  }

  lemma ClosesAt(s: string, q: nat)
    requires q < |s| && s[q] == ')'
    ensures Closes(s, q)
  {
  }

  lemma ParenReads(s: string, pos: nat, v: int, close: nat)
    requires pos < close < |s| && s[pos] == '(' && s[close] == ')' && ExprF(s, pos + 1) == Ok(v, close)
    ensures PrimF(s, pos) == Ok(v, close + 1)
  {
    hide ExprF;
  }

  lemma NumberReads(s: string, pos: nat, d: string)
    requires d != "" && Digits(d) && At(s, pos, d) && NoDigitAt(s, pos + |d|)
    ensures PrimF(s, pos) == Ok(Val(d), pos + |d|)
  {
    hide ExprF, Val;
    var end := pos + |d|;
    forall i | pos <= i < end ensures IsDigit(s[i]) { assert s[i] == s[pos..end][i - pos] == d[i - pos]; }
    RunOfDigits(s, pos + 1, end);
  }

  /** Signs are read by `prim` itself: a plus is skipped, a minus negates. */
  lemma {:induction false} SignsRead(s: string, pos: nat, signs: seq<Sign>, v: int, next: nat)
    requires At(s, pos, PrintSigns(signs)) && pos + |PrintSigns(signs)| < |s|
    requires PrimF(s, pos + |PrintSigns(signs)|) == Ok(v, next)
    ensures PrimF(s, pos) == Ok(SignOf(Descent, 1, signs) * v, next)
    decreases |signs|
  {
    hide *;
    if signs == [] {
      NoSigns();
    } else {
      SignsUnfold(signs);
      var g, w := signs[0], SignOf(Descent, 1, signs[1..]);
      var sign := [SignChar(g.minus)] + Spaces(g.gap);
      AtSplit(s, pos, sign, PrintSigns(signs[1..]));
      SignsRead(s, pos + |sign|, signs[1..], v, next);
      SignRead(s, pos, g, w * v, next);
      Regroup(One(g.minus), w, v);
    }
  }

  lemma NoSigns()
    ensures PrintSigns([]) == "" && SignOf(Descent, 1, []) == 1
  {
  }

  lemma SignRead(s: string, pos: nat, g: Sign, v: int, next: nat)
    requires At(s, pos, [SignChar(g.minus)] + Spaces(g.gap)) && pos + 1 + g.gap < |s|
    requires PrimF(s, pos + 1 + g.gap) == Ok(v, next)
    ensures PrimF(s, pos) == Ok(One(g.minus) * v, next)
  {
    hide PrimF, At, Spaces;
    var c := SignChar(g.minus);
    AtSplit(s, pos, [c], Spaces(g.gap));
    AtChar(s, pos, c);
    SkipSpaces(s, pos + 1, g.gap, 0);
    PrimAtSign(s, pos, v, next);
  }

  /** The first sign, in print and as a factor. */
  lemma SignsUnfold(signs: seq<Sign>)
    requires signs != []
    ensures PrintSigns(signs) == [SignChar(signs[0].minus)] + Spaces(signs[0].gap) + PrintSigns(signs[1..])
    ensures SignOf(Descent, 1, signs) == One(signs[0].minus) * SignOf(Descent, 1, signs[1..])
  {
    SignFactor(One(signs[0].minus), signs[1..]);
  }

  lemma PrimAtSign(s: string, pos: nat, v: int, next: nat)
    requires pos + 1 < |s| && (s[pos] == '+' || s[pos] == '-') && PrimF(s, pos + 1) == Ok(v, next)
    ensures PrimF(s, pos) == Ok(if s[pos] == '-' then -v else v, next)
  {
  }

  /** In the descent's reading a sign in front is a factor. */
  lemma {:induction false} SignFactor(op: int, signs: seq<Sign>)
    ensures SignOf(Descent, op, signs) == op * SignOf(Descent, 1, signs)
    decreases |signs|
  {
    if signs != [] {
      var f := One(signs[0].minus);
      SignFactor(op * f, signs[1..]);
      SignFactor(f, signs[1..]);
      Regroup(op, f, SignOf(Descent, 1, signs[1..]));
    }
  }

  lemma Regroup(a: int, b: int, c: int)
    ensures (a * b) * c == a * (b * c)
  {
  }

  lemma MinusOut(f: int, g: int, v: int)
    requires f == 1 || f == -1
    ensures (f * g) * v == if f == 1 then g * v else -(g * v)
  {
    Regroup(f, g, v);
  }

  /** An operand with its signs, after an operator of sign op or none. */
  lemma {:induction false} OperandReads(s: string, pos: nat, o: Operand)
    requires WfPrim(o.p) && At(s, pos, PrintSigns(o.signs)) && At(s, pos + |PrintSigns(o.signs)|, PrintPrim(o.p))
    requires NoDigitAt(s, pos + |PrintSigns(o.signs)| + |PrintPrim(o.p)|)
    ensures PrimF(s, pos) == Ok(SignOf(Descent, 1, o.signs) * PrimValue(Descent, o.p), pos + |PrintSigns(o.signs)| + |PrintPrim(o.p)|)
    decreases o
  {
    var at1 := pos + |PrintSigns(o.signs)|;
    NotEmpty(o.p);
    InRange(s, at1, PrintPrim(o.p));
    hide PrimF, At, PrintSigns, PrintPrim, SignOf, NoDigitAt, PrimValue, WfPrim;
    PrimReads(s, at1, o.p);
    SignsRead(s, pos, o.signs, PrimValue(Descent, o.p), at1 + |PrintPrim(o.p)|);
  }

  lemma InRange(s: string, pos: int, t: string)
    requires At(s, pos, t)
    ensures 0 <= pos <= pos + |t| <= |s|
  {
  }

  lemma {:induction false} TailReads(s: string, pos: nat, t: Tail, result: int)
    requires WfTail(t) && At(s, pos, PrintTail(t)) && NoDigitAt(s, pos + |PrintTail(t)|)
    ensures LoopF(s, pos, result) == LoopF(s, pos + |PrintTail(t)|, result + TailValue(Descent, t))
    ensures NoDigitAt(s, pos)
    decreases t
  {
    hide PrimF, ExprF, LoopF, PrintPrim, PrintSigns, At, WfPrim, PrimValue, SignOf, Spaces, NoDigitAt;
    match t {
      case End(n) => EndReads(s, pos, n, result);
      case More(b, plus, a, o, rest) =>
        var op, g, p := SignChar(!plus), PrintSigns(o.signs), PrintPrim(o.p);
        AtSplit(s, pos, Spaces(b) + [op] + Spaces(a) + g + p, PrintTail(rest));
        AtSplit5(s, pos, Spaces(b), [op], Spaces(a), g, p);
        SpacedOperator(s, pos, b, op);
        NotEmpty(o.p);
        var at3 := pos + b + 1 + a;
        var next := at3 + |g| + |p|;
        InRange(s, at3 + |g|, p);
        var v := SignOf(Descent, 1, o.signs) * PrimValue(Descent, o.p);
        TailReads(s, next, rest, if op == '+' then result + v else result - v);
        OperandReads(s, at3, o);
        OperatorReads(s, pos, b, op, a, v, next, result);
        SignFactor(One(!plus), o.signs);
        MinusOut(One(!plus), SignOf(Descent, 1, o.signs), PrimValue(Descent, o.p));
    }
  }

  lemma EndReads(s: string, pos: nat, n: nat, result: int)
    requires At(s, pos, Spaces(n)) && NoDigitAt(s, pos + n)
    ensures LoopF(s, pos, result) == LoopF(s, pos + n, result)
    ensures NoDigitAt(s, pos)
  {
    SkipSpaces(s, pos, n, result);
    if n > 0 { AtSplit(s, pos, [' '], Spaces(n - 1)); AtChar(s, pos, ' '); }
  }

  lemma AtSplit5(s: string, pos: nat, a: string, b: string, c: string, d: string, e: string)
    requires At(s, pos, a + b + c + d + e)
    ensures At(s, pos, a) && At(s, pos + |a|, b) && At(s, pos + |a| + |b|, c)
    ensures At(s, pos + |a| + |b| + |c|, d) && At(s, pos + |a| + |b| + |c| + |d|, e)
  {
    hide At;
    AtSplit(s, pos, a + b + c + d, e);
    AtSplit(s, pos, a + b + c, d);
    AtSplit(s, pos, a + b, c);
    AtSplit(s, pos, a, b);
  }

  lemma SpacedOperator(s: string, pos: nat, b: nat, op: char)
    requires At(s, pos, Spaces(b)) && At(s, pos + b, [op]) && (op == '+' || op == '-')
    ensures NoDigitAt(s, pos)
  {
    AtChar(s, pos + b, op);
    if b > 0 { AtSplit(s, pos, [' '], Spaces(b - 1)); AtChar(s, pos, ' '); }
  }

  /** One operator with its spaces and its right operand. */
  lemma OperatorReads(s: string, pos: nat, b: nat, op: char, a: nat, v: int, next: nat, result: int)
    requires At(s, pos, Spaces(b)) && At(s, pos + b, [op]) && (op == '+' || op == '-')
    requires At(s, pos + b + 1, Spaces(a)) && pos + b + 1 + a < next <= |s|
    requires PrimF(s, pos + b + 1 + a) == Ok(v, next)
    ensures LoopF(s, pos, result) == LoopF(s, next, if op == '+' then result + v else result - v)
  {
    hide PrimF, LoopF, At, Spaces;
    AtChar(s, pos + b, op);
    SkipSpaces(s, pos, b, result);
    SkipSpaces(s, pos + b + 1, a, result);
    LoopAtOperator(s, pos + b, v, next, result);
  }

  lemma LoopAtOperator(s: string, q: nat, v: int, next: nat, result: int)
    requires q + 1 < next <= |s| && (s[q] == '+' || s[q] == '-') && PrimF(s, q + 1) == Ok(v, next)
    ensures LoopF(s, q, result) == LoopF(s, next, if s[q] == '+' then result + v else result - v)
  {
  }

  lemma NotEmpty(p: Primary)
    requires WfPrim(p)
    ensures |PrintPrim(p)| > 0
  {
  }

  /** An expression is read up to its end, where the loop of `expr` goes on. */
  lemma {:induction false} ExprContinues(s: string, pos: nat, e: Expr)
    requires Wf(e) && At(s, pos, Print(e)) && NoDigitAt(s, pos + |Print(e)|)
    ensures ExprF(s, pos) == LoopF(s, pos + |Print(e)|, Value(Descent, e))
    decreases e, 0
  {
    hide PrimF, ExprF, LoopF, PrintPrim, PrintSigns, PrintTail, At, WfPrim, WfTail, PrimValue, TailValue, SignOf, Spaces, NoDigitAt;
    var g, p := PrintSigns(e.first.signs), PrintPrim(e.first.p);
    var v := SignOf(Descent, 1, e.first.signs) * PrimValue(Descent, e.first.p);
    var at1 := pos + e.lead;
    var at3 := at1 + |g| + |p|;
    AtSplit4(s, pos, Spaces(e.lead), g, p, PrintTail(e.rest));
    NotEmpty(e.first.p);
    TailReads(s, at3, e.rest, v);
    OperandReads(s, at1, e.first);
    SkipSpaces(s, pos, e.lead, 0);
    InRange(s, at3, PrintTail(e.rest));
    ExprIsPrimThenLoop(s, pos, v, at3);
  }

  lemma {:induction false} ExprReads(s: string, pos: nat, e: Expr)
    requires Wf(e) && At(s, pos, Print(e)) && Closes(s, pos + |Print(e)|)
    ensures ExprF(s, pos) == Ok(Value(Descent, e), pos + |Print(e)|)
    decreases e, 1
  {
    hide ExprF, Print, Value, At, Wf;
    ExprContinues(s, pos, e);
  }

  lemma AtSplit4(s: string, pos: nat, a: string, b: string, c: string, d: string)
    requires At(s, pos, a + b + c + d)
    ensures At(s, pos, a) && At(s, pos + |a|, b) && At(s, pos + |a| + |b|, c)
    ensures At(s, pos + |a| + |b| + |c|, d)
  {
    hide At;
    AtSplit(s, pos, a + b + c, d);
    AtSplit(s, pos, a + b, c);
    AtSplit(s, pos, a, b);
  }

  lemma ExprIsPrimThenLoop(s: string, pos: nat, v: int, next: nat)
    requires pos < next <= |s| && PrimF(s, pos) == Ok(v, next)
    ensures ExprF(s, pos) == LoopF(s, next, v)
  {
  }

  // ---------- the single pass ----------

  /** The five variables of calculate2, or the access to an empty stack. */
  datatype State = State(result: int, sign: int, num: int, prims: seq<int>, ops: seq<int>) | Underflow

  function Step(st: State, c: char): State
  {
    if st.Underflow? then Underflow
    else if IsDigit(c) then st.(num := st.num * 10 + (c as int - '0' as int))
    else
      var result := st.result + st.sign * st.num;
      if c == '+' then State(result, 1, 0, st.prims, st.ops)
      else if c == '-' then State(result, -1, 0, st.prims, st.ops)
      else if c == '(' then State(0, 1, 0, st.prims + [result], st.ops + [st.sign])
      else if c == ')' then
        if st.prims == [] || st.ops == [] then Underflow
        else State(st.prims[|st.prims| - 1] + st.ops[|st.ops| - 1] * result, st.sign, 0,
                   st.prims[..|st.prims| - 1], st.ops[..|st.ops| - 1])
      else State(result, st.sign, 0, st.prims, st.ops)
  }

  ghost function Run(st: State, s: string): State
  {
    if s == "" then st else Step(Run(st, s[..|s| - 1]), s[|s| - 1])
  }

  const Start := State(0, 1, 0, [], [])

  method Calculate2(s: string) returns (ok: bool, value: int)
    ensures var st := Run(Start, s); ok == st.State? && (ok ==> value == st.result + st.sign * st.num)
  {
    hide Run;
    RunNothing(Start, s);
    var result, sign, num := 0, 1, 0;
    var prims, ops: seq<int> := [], [];
    var i := 0;
    while i < |s|
      invariant 0 <= i <= |s|
      invariant Run(Start, s[..i]) == State(result, sign, num, prims, ops)
    {
      var c := s[i];
      RunStep(Start, s, i);
      if IsDigit(c) {
        num := num * 10 + (c as int - '0' as int);
      } else {
        result := result + sign * num;
        num := 0;
        if c == '+' { sign := 1; }
        if c == '-' { sign := -1; }
        if c == '(' {
          prims := prims + [result];
          ops := ops + [sign];
          result := 0;
          sign := 1;
        }
        if c == ')' {
          if prims == [] || ops == [] {
            UnderflowStays(s, i + 1);
            return false, 0;
          }
          result := prims[|prims| - 1] + ops[|ops| - 1] * result;
          prims := prims[..|prims| - 1];
          ops := ops[..|ops| - 1];
        }
      }
      i := i + 1;
    }
    assert s[..i] == s;
    result := result + sign * num;
    return true, result;
  }

  lemma RunNothing(st: State, s: string)
    ensures Run(st, s[..0]) == st
  {
  }

  lemma RunStep(st: State, s: string, i: nat)
    requires i < |s|
    ensures Run(st, s[..i + 1]) == Step(Run(st, s[..i]), s[i])
  {
    assert s[..i + 1][..i] == s[..i];
  }

  lemma {:induction false} UnderflowStays(s: string, i: nat)
    requires i <= |s| && Run(Start, s[..i]).Underflow?
    ensures Run(Start, s).Underflow?
    decreases |s| - i
  {
    if i == |s| {
      assert s[..i] == s;
    } else {
      assert s[..i + 1][..i] == s[..i];
      UnderflowStays(s, i + 1);
    }
  }

  lemma {:induction false} RunAdds(st: State, a: string, b: string)
    ensures Run(st, a + b) == Run(Run(st, a), b)
  {
    if b == "" {
      assert a + b == a;
    } else {
      assert (a + b)[..|a + b| - 1] == a + b[..|b| - 1];
      RunAdds(st, a, b[..|b| - 1]);
    }
  }

  lemma RunChar(st: State, c: char)
    ensures Run(st, [c]) == Step(st, c)
  {
    assert [c][..0] == "";
  }

  /** st' holds the amount v and leaves the stacks of st alone. */
  ghost predicate Holds(st': State, st: State, v: int)
  {
    st'.State? && st.State? && st'.prims == st.prims && st'.ops == st.ops && st'.result + st'.sign * st'.num == v
  }

  lemma {:induction false} RunSpaces(st: State, n: nat)
    requires st.State?
    ensures var r := Run(st, Spaces(n));
            Holds(r, st, st.result + st.sign * st.num) && r.sign == st.sign && (st.num == 0 ==> r == st)
    ensures n > 0 ==> Run(st, Spaces(n)).num == 0
    decreases n
  {
    if n > 0 {
      RunAdds(st, [' '], Spaces(n - 1));
      RunChar(st, ' ');
      RunSpaces(Step(st, ' '), n - 1);
    }
  }

  lemma {:induction false} RunDigits(st: State, d: string)
    requires st.State? && st.num == 0 && Digits(d)
    ensures Run(st, d) == st.(num := Val(d))
  {
    if d != "" { RunDigits(st, d[..|d| - 1]); }
  }

  /** A primary is added with the sign in force. */
  lemma {:induction false} RunPrim(st: State, p: Primary)
    requires st.State? && st.num == 0 && WfPrim(p)
    ensures Holds(Run(st, PrintPrim(p)), st, st.result + st.sign * PrimValue(OnePass, p))
    decreases p
  {
    match p {
      case Num(d) => RunDigits(st, d);
      case Paren(e) =>
        hide Run, Step, Holds;
        RunAdds(st, ['('] + Print(e), [')']);
        RunAdds(st, ['('], Print(e));
        RunChar(st, '(');
        var open := Step(st, '(');
        OpenStep(st);
        RunExpr(open, e);
        var last := Run(open, Print(e));
        RunChar(last, ')');
        CloseStep(st, last, Value(OnePass, e));
    }
  }

  lemma OpenStep(st: State)
    requires st.State? && st.num == 0
    ensures Step(st, '(') == State(0, 1, 0, st.prims + [st.result], st.ops + [st.sign])
  {
  }

  /** Closing a parenthesis brings back the stacks and adds with the outer sign. */
  lemma CloseStep(st: State, last: State, v: int)
    requires st.State? && st.num == 0 && Holds(last, State(0, 1, 0, st.prims + [st.result], st.ops + [st.sign]), v)
    ensures Holds(Step(last, ')'), st, st.result + st.sign * v)
  {
    assert last.prims[..|last.prims| - 1] == st.prims && last.ops[..|last.ops| - 1] == st.ops;
    assert last.prims != [] && last.ops != [];
  }

  /** Between numbers every sign replaces the one in force. */
  lemma {:induction false} RunSigns(st: State, signs: seq<Sign>)
    requires st.State? && st.num == 0
    ensures Run(st, PrintSigns(signs)) == st.(sign := SignOf(OnePass, st.sign, signs))
    decreases |signs|
  {
    if signs != [] {
      hide Run, Spaces;
      var g := signs[0];
      RunAdds(st, [SignChar(g.minus)] + Spaces(g.gap), PrintSigns(signs[1..]));
      RunSign(st, g);
      RunSigns(st.(sign := One(g.minus)), signs[1..]);
    } else {
      RunEmpty(st);
    }
  }

  lemma RunEmpty(st: State)
    ensures Run(st, "") == st
  {
  }

  lemma RunSign(st: State, g: Sign)
    requires st.State?
    ensures Run(st, [SignChar(g.minus)] + Spaces(g.gap)) ==
            State(st.result + st.sign * st.num, One(g.minus), 0, st.prims, st.ops)
  {
    var c := SignChar(g.minus);
    RunAdds(st, [c], Spaces(g.gap));
    RunChar(st, c);
    RunSpaces(Step(st, c), g.gap);
  }

  /** An operand with its signs is added with the last of them. */
  lemma {:induction false} RunOperand(st: State, o: Operand)
    requires st.State? && st.num == 0 && WfPrim(o.p)
    ensures Holds(Run(st, PrintSigns(o.signs) + PrintPrim(o.p)), st,
                  st.result + SignOf(OnePass, st.sign, o.signs) * PrimValue(OnePass, o.p))
    decreases o
  {
    hide Run, PrintSigns, PrintPrim, PrimValue, SignOf;
    RunAdds(st, PrintSigns(o.signs), PrintPrim(o.p));
    RunSigns(st, o.signs);
    RunPrim(st.(sign := SignOf(OnePass, st.sign, o.signs)), o.p);
  }

  lemma {:induction false} RunTail(st: State, t: Tail)
    requires st.State? && WfTail(t)
    ensures Holds(Run(st, PrintTail(t)), st, Total(st) + TailValue(OnePass, t))
    decreases t
  {
    hide Run, Spaces, Step, PrintPrim, PrintSigns, PrintTail, PrimValue, SignOf, Holds, Total;
    if t.End? {
      RunEnd(st, t);
    } else {
      var o := t.operand;
      var front := Spaces(t.before) + [SignChar(!t.plus)] + Spaces(t.after);
      var body := PrintSigns(o.signs) + PrintPrim(o.p);
      TailForm(t);
      RunAdds(st, front + body, PrintTail(t.rest));
      RunAdds(st, front, body);
      var st2 := RunOperator(st, t.before, t.plus, t.after);
      RunOperand(st2, o);
      var v := SignOf(OnePass, One(!t.plus), o.signs) * PrimValue(OnePass, o.p);
      var mid := Run(st2, body);
      HoldsTotal(mid, st2, Total(st) + v);
      RunTail(mid, t.rest);
      var last := Run(mid, PrintTail(t.rest));
      HoldsTwice(last, mid, st2, st, Total(mid) + TailValue(OnePass, t.rest));
    }
  }

  lemma RunEnd(st: State, t: Tail)
    requires st.State? && t.End?
    ensures Holds(Run(st, PrintTail(t)), st, Total(st) + TailValue(OnePass, t))
  {
    RunSpaces(st, t.spaces);
  }

  lemma TailForm(t: Tail)
    requires t.More?
    ensures PrintTail(t) == Spaces(t.before) + [SignChar(!t.plus)] + Spaces(t.after)
                            + (PrintSigns(t.operand.signs) + PrintPrim(t.operand.p)) + PrintTail(t.rest)
  {
    hide PrintSigns, PrintPrim, Spaces;
    Associate(Spaces(t.before) + [SignChar(!t.plus)] + Spaces(t.after), PrintSigns(t.operand.signs), PrintPrim(t.operand.p));
  }

  /** What the machine would return if the string ended here. */
  ghost function Total(st: State): int
    requires st.State?
  {
    st.result + st.sign * st.num
  }

  lemma HoldsTotal(st': State, st: State, v: int)
    requires Holds(st', st, v)
    ensures st'.State? && Total(st') == v
  {
  }

  lemma HoldsTwice(last: State, mid: State, st2: State, st: State, v: int)
    requires Holds(last, mid, v) && Holds(mid, st2, Total(mid)) && st.State?
    requires st2.State? && st2.prims == st.prims && st2.ops == st.ops
    ensures Holds(last, st, v)
  {
  }

  /** An operator between spaces settles the sum so far and sets the sign. */
  lemma RunOperator(st: State, b: nat, plus: bool, a: nat) returns (st2: State)
    requires st.State?
    ensures st2 == Run(st, Spaces(b) + [SignChar(!plus)] + Spaces(a))
    ensures st2 == State(Total(st), One(!plus), 0, st.prims, st.ops)
  {
    var c := SignChar(!plus);
    Associate(Spaces(b), [c], Spaces(a));
    RunAdds(st, Spaces(b), [c] + Spaces(a));
    RunSpaces(st, b);
    st2 := Run(st, Spaces(b) + [c] + Spaces(a));
    hide Run, Spaces;
    RunSign(Run(st, Spaces(b)), Sign(!plus, a));
  }

  /** An expression entered with a clear accumulator leaves its value there. */
  lemma {:induction false} RunExpr(st: State, e: Expr)
    requires st.State? && st.result == 0 && st.sign == 1 && st.num == 0 && Wf(e)
    ensures Holds(Run(st, Print(e)), st, Value(OnePass, e))
    decreases e
  {
    hide Run, Spaces, Step, PrintPrim, PrintSigns, PrintTail, PrimValue, TailValue, SignOf, Holds, Total;
    var front, body := Spaces(e.lead), PrintSigns(e.first.signs) + PrintPrim(e.first.p);
    Associate(front, PrintSigns(e.first.signs), PrintPrim(e.first.p));
    RunAdds(st, front + body, PrintTail(e.rest));
    RunAdds(st, front, body);
    RunSpaces(st, e.lead);
    RunOperand(st, e.first);
    var v := SignOf(OnePass, 1, e.first.signs) * PrimValue(OnePass, e.first.p);
    var mid := Run(st, body);
    HoldsTotal(mid, st, v);
    RunTail(mid, e.rest);
    HoldsTwice(Run(mid, PrintTail(e.rest)), mid, st, st, Total(mid) + TailValue(OnePass, e.rest));
  }

  // ---------- main results ----------

  /** On every printed expression the parser consumes the whole string and returns
      the arithmetic value; the single pass returns its own reading of the signs. */
  lemma TwoReadings(e: Expr)
    requires Wf(e)
    ensures ExprF(Print(e), 0) == Ok(Value(Descent, e), |Print(e)|)
    ensures Run(Start, Print(e)).State? && Total(Run(Start, Print(e))) == Value(OnePass, e)
  {
    hide Run, ExprF, Value, Wf;
    assert Print(e)[0..|Print(e)|] == Print(e);
    ExprReads(Print(e), 0, e);
    RunExpr(Start, e);
  }

  // ---------- when the two readings agree ----------

  /** The sign each number ends up with: the product of the signs of all the
      operands it lies in, times m. */
  ghost function Coefs(r: Reading, m: int, e: Expr): seq<int>
    decreases e
  {
    PrimCoefs(r, m * SignOf(r, 1, e.first.signs), e.first.p) + TailCoefs(r, m, e.rest)
  }

  ghost function PrimCoefs(r: Reading, m: int, p: Primary): seq<int>
    decreases p
  {
    match p
    case Num(_) => [m]
    case Paren(e) => Coefs(r, m, e)
  }

  ghost function TailCoefs(r: Reading, m: int, t: Tail): seq<int>
    decreases t
  {
    match t
    case End(_) => []
    case More(_, plus, _, o, rest) => PrimCoefs(r, m * SignOf(r, One(!plus), o.signs), o.p) + TailCoefs(r, m, rest)
  }

  /** The numbers of an expression, from left to right. */
  ghost function Numbers(e: Expr): seq<int> { PrimNumbers(e.first.p) + TailNumbers(e.rest) }

  ghost function PrimNumbers(p: Primary): seq<int>
  {
    match p
    case Num(d) => [Val(d)]
    case Paren(e) => Numbers(e)
  }

  ghost function TailNumbers(t: Tail): seq<int>
  {
    match t
    case End(_) => []
    case More(_, _, _, o, rest) => PrimNumbers(o.p) + TailNumbers(rest)
  }

  ghost function Dot(a: seq<int>, b: seq<int>): int
    requires |a| == |b|
  {
    if a == [] then 0 else a[0] * b[0] + Dot(a[1..], b[1..])
  }

  lemma {:induction false} DotJoins(a: seq<int>, b: seq<int>, c: seq<int>, d: seq<int>)
    requires |a| == |b| && |c| == |d|
    ensures Dot(a + c, b + d) == Dot(a, b) + Dot(c, d)
  {
    if a == [] {
      assert a + c == c && b + d == d;
    } else {
      DotJoins(a[1..], b[1..], c, d);
      assert (a + c)[1..] == a[1..] + c && (b + d)[1..] == b[1..] + d;
    }
  }

  /** The value is the sum of the numbers with their signs. */
  lemma {:induction false} ExprIsLinear(r: Reading, m: int, e: Expr)
    ensures |Coefs(r, m, e)| == |Numbers(e)| && Dot(Coefs(r, m, e), Numbers(e)) == m * Value(r, e)
    decreases e
  {
    hide SignOf, Dot;
    var g := SignOf(r, 1, e.first.signs);
    PrimIsLinear(r, m * g, e.first.p);
    TailIsLinear(r, m, e.rest);
    DotJoins(PrimCoefs(r, m * g, e.first.p), PrimNumbers(e.first.p), TailCoefs(r, m, e.rest), TailNumbers(e.rest));
    MultiplyOut(m, g, PrimValue(r, e.first.p), TailValue(r, e.rest));
  }

  lemma MultiplyOut(m: int, g: int, v: int, rest: int)
    ensures m * (g * v + rest) == (m * g) * v + m * rest
  {
    Regroup(m, g, v);
  }

  lemma {:induction false} PrimIsLinear(r: Reading, m: int, p: Primary)
    ensures |PrimCoefs(r, m, p)| == |PrimNumbers(p)| && Dot(PrimCoefs(r, m, p), PrimNumbers(p)) == m * PrimValue(r, p)
    decreases p
  {
    match p {
      case Num(d) =>
        assert Dot([m][1..], [Val(d)][1..]) == 0;
      case Paren(e) => ExprIsLinear(r, m, e);
    }
  }

  lemma {:induction false} TailIsLinear(r: Reading, m: int, t: Tail)
    ensures |TailCoefs(r, m, t)| == |TailNumbers(t)| && Dot(TailCoefs(r, m, t), TailNumbers(t)) == m * TailValue(r, t)
    decreases t
  {
    match t {
      case End(_) =>
      case More(_, plus, _, o, rest) =>
        hide SignOf, Dot;
        var g := SignOf(r, One(!plus), o.signs);
        PrimIsLinear(r, m * g, o.p);
        TailIsLinear(r, m, rest);
        DotJoins(PrimCoefs(r, m * g, o.p), PrimNumbers(o.p), TailCoefs(r, m, rest), TailNumbers(rest));
        MultiplyOut(m, g, PrimValue(r, o.p), TailValue(r, rest));
    }
  }

  /** The same expression with the number 1 in place of its k-th number and 0 in
      place of all others. */
  ghost function Unit(e: Expr, k: int): Expr
  {
    Expr(e.lead, Operand(e.first.signs, PrimUnit(e.first.p, k)), TailUnit(e.rest, k - |PrimNumbers(e.first.p)|))
  }

  ghost function PrimUnit(p: Primary, k: int): Primary
  {
    match p
    case Num(_) => Num(if k == 0 then "1" else "0")
    case Paren(e) => Paren(Unit(e, k))
  }

  ghost function TailUnit(t: Tail, k: int): Tail
  {
    match t
    case End(n) => End(n)
    case More(b, plus, a, o, rest) =>
      More(b, plus, a, Operand(o.signs, PrimUnit(o.p, k)), TailUnit(rest, k - |PrimNumbers(o.p)|))
  }

  /** The same expression with all numbers 0: what is left is its shape. */
  ghost function Blank(e: Expr): Expr
  {
    Expr(e.lead, Operand(e.first.signs, PrimBlank(e.first.p)), TailBlank(e.rest))
  }

  ghost function PrimBlank(p: Primary): Primary
  {
    match p
    case Num(_) => Num("0")
    case Paren(e) => Paren(Blank(e))
  }

  ghost function TailBlank(t: Tail): Tail
  {
    match t
    case End(n) => End(n)
    case More(b, plus, a, o, rest) => More(b, plus, a, Operand(o.signs, PrimBlank(o.p)), TailBlank(rest))
  }

  /** Equal but for the digits of the numbers. */
  ghost predicate SameShape(e: Expr, f: Expr) { Blank(e) == Blank(f) }

  /** n numbers, the k-th of them 1 and the others 0. */
  ghost function Indicator(n: nat, k: int): (s: seq<int>)
    ensures |s| == n
  {
    seq(n, i => if i == k then 1 else 0)
  }

  lemma IndicatorJoins(m: nat, n: nat, k: int)
    ensures Indicator(m, k) + Indicator(n, k - m) == Indicator(m + n, k)
  {
  }

  lemma {:induction false} DotIndicator(a: seq<int>, k: int)
    ensures Dot(a, Indicator(|a|, k)) == if 0 <= k < |a| then a[k] else 0
    decreases |a|
  {
    if a != [] {
      assert Indicator(|a|, k)[1..] == Indicator(|a| - 1, k - 1);
      DotIndicator(a[1..], k - 1);
    }
  }

  /** Putting in the unit numbers changes the numbers only. */
  lemma {:induction false} UnitLaws(e: Expr, k: int, r: Reading, m: int)
    ensures Wf(Unit(e, k)) && Numbers(Unit(e, k)) == Indicator(|Numbers(e)|, k)
    ensures Blank(Unit(e, k)) == Blank(e)
    ensures Coefs(r, m, Unit(e, k)) == Coefs(r, m, e) == Coefs(r, m, Blank(e))
    decreases e
  {
    hide SignOf, Indicator;
    var n := |PrimNumbers(e.first.p)|;
    PrimUnitLaws(e.first.p, k, r, m * SignOf(r, 1, e.first.signs));
    TailUnitLaws(e.rest, k - n, r, m);
    IndicatorJoins(n, |TailNumbers(e.rest)|, k);
  }

  lemma {:induction false} PrimUnitLaws(p: Primary, k: int, r: Reading, m: int)
    ensures WfPrim(PrimUnit(p, k)) && PrimNumbers(PrimUnit(p, k)) == Indicator(|PrimNumbers(p)|, k)
    ensures PrimBlank(PrimUnit(p, k)) == PrimBlank(p)
    ensures PrimCoefs(r, m, PrimUnit(p, k)) == PrimCoefs(r, m, p) == PrimCoefs(r, m, PrimBlank(p))
    decreases p
  {
    match p {
      case Num(_) =>
        assert Val("0") == Val("0"[..0]) * 10 && Val("1") == Val("1"[..0]) * 10 + 1;
      case Paren(e) => UnitLaws(e, k, r, m);
    }
  }

  /** Beyond the last number there are only zeros. */
  lemma {:induction false} TailUnitLaws(t: Tail, k: int, r: Reading, m: int)
    ensures WfTail(TailUnit(t, k)) && TailNumbers(TailUnit(t, k)) == Indicator(|TailNumbers(t)|, k)
    ensures TailBlank(TailUnit(t, k)) == TailBlank(t)
    ensures TailCoefs(r, m, TailUnit(t, k)) == TailCoefs(r, m, t) == TailCoefs(r, m, TailBlank(t))
    decreases t
  {
    match t {
      case End(_) =>
      case More(_, plus, _, o, rest) =>
        hide SignOf, Indicator;
        var n := |PrimNumbers(o.p)|;
        PrimUnitLaws(o.p, k, r, m * SignOf(r, One(!plus), o.signs));
        TailUnitLaws(rest, k - n, r, m);
        IndicatorJoins(n, |TailNumbers(rest)|, k);
    }
  }

  /** Both calculators finish with the same number. */
  ghost predicate Agree(s: string)
  {
    && ExprF(s, 0).Ok? && Run(Start, s).State?
    && ExprF(s, 0).value == Total(Run(Start, s))
  }

  /** The signs that decide: for every number, the product of the signs of the
      operands it lies in comes out the same in both readings. */
  ghost predicate SignsAgree(e: Expr) { Coefs(Descent, 1, e) == Coefs(OnePass, 1, e) }

  lemma SameShapeSameSigns(e: Expr, f: Expr)
    requires SameShape(e, f)
    ensures SignsAgree(e) <==> SignsAgree(f)
  {
    forall r: Reading ensures Coefs(r, 1, e) == Coefs(r, 1, f) {
      UnitLaws(e, 0, r, 1);
      UnitLaws(f, 0, r, 1);
    }
  }

  lemma AgreeIsEqualValue(e: Expr)
    requires Wf(e)
    ensures Agree(Print(e)) <==> Value(Descent, e) == Value(OnePass, e)
  {
    hide Print, Value, ExprF, Run, Total, Wf;
    TwoReadings(e);
  }

  lemma SignsSuffice(e: Expr)
    requires SignsAgree(e)
    ensures Value(Descent, e) == Value(OnePass, e)
  {
    hide Coefs, Numbers, Value;
    ExprIsLinear(Descent, 1, e);
    ExprIsLinear(OnePass, 1, e);
  }

  /** With the number 1 in one place only, what comes out is the sign there. */
  lemma UnitValue(r: Reading, e: Expr, k: nat)
    requires k < |Numbers(e)|
    ensures k < |Coefs(r, 1, e)| && Value(r, Unit(e, k)) == Coefs(r, 1, e)[k]
  {
    hide Coefs, Numbers, Unit, Value, Dot;
    ExprIsLinear(r, 1, e);
    ExprIsLinear(r, 1, Unit(e, k));
    UnitLaws(e, k, r, 1);
    DotIndicator(Coefs(r, 1, e), k);
  }

  lemma SignsNeeded(e: Expr, k: nat)
    requires k < |Numbers(e)| && Agree(Print(Unit(e, k)))
    ensures k < |Coefs(Descent, 1, e)| == |Coefs(OnePass, 1, e)| && Coefs(Descent, 1, e)[k] == Coefs(OnePass, 1, e)[k]
  {
    hide Coefs, Numbers, Unit, Print, Value, Agree;
    UnitValue(Descent, e, k);
    UnitValue(OnePass, e, k);
    UnitLaws(e, k, Descent, 1);
    AgreeIsEqualValue(Unit(e, k));
    ExprIsLinear(Descent, 1, e);
    ExprIsLinear(OnePass, 1, e);
  }

  /** For a given shape, the calculators agree whatever the numbers if and only if
      the written signs agree at every number. */
  lemma AgreementCondition(e: Expr)
    ensures (forall f :: SameShape(e, f) && Wf(f) ==> Agree(Print(f))) <==> SignsAgree(e)
  {
    hide Coefs, Numbers, Unit, Print, Agree, Wf, Blank;
    if SignsAgree(e) {
      forall f | SameShape(e, f) && Wf(f) ensures Agree(Print(f)) {
        SameShapeSameSigns(e, f);
        SignsSuffice(f);
        AgreeIsEqualValue(f);
      }
    }
    if forall f :: SameShape(e, f) && Wf(f) ==> Agree(Print(f)) {
      ExprIsLinear(Descent, 1, e);
      ExprIsLinear(OnePass, 1, e);
      forall k: nat | k < |Numbers(e)| ensures Coefs(Descent, 1, e)[k] == Coefs(OnePass, 1, e)[k] {
        UnitLaws(e, k, Descent, 1);
        assert SameShape(e, Unit(e, k));
        SignsNeeded(e, k);
      }
    }
  }

  /** At most one sign in front of the first operand of every expression, and none
      after an operator: the language the problem has in mind. */
  ghost predicate Plain(e: Expr) { |e.first.signs| <= 1 && PlainPrim(e.first.p) && PlainTail(e.rest) }

  ghost predicate PlainPrim(p: Primary) { p.Paren? ==> Plain(p.inner) }

  ghost predicate PlainTail(t: Tail) { t.More? ==> t.operand.signs == [] && PlainPrim(t.operand.p) && PlainTail(t.rest) }

  lemma {:induction false} PlainSigns(e: Expr, m: int)
    requires Plain(e)
    ensures Coefs(Descent, m, e) == Coefs(OnePass, m, e)
    decreases e
  {
    var signs := e.first.signs;
    assert SignOf(Descent, 1, signs) == SignOf(OnePass, 1, signs) by {
      if signs != [] { assert signs[1..] == []; }
    }
    PlainPrimSigns(e.first.p, m * SignOf(Descent, 1, signs));
    PlainTailSigns(e.rest, m);
  }

  lemma {:induction false} PlainPrimSigns(p: Primary, m: int)
    requires PlainPrim(p)
    ensures PrimCoefs(Descent, m, p) == PrimCoefs(OnePass, m, p)
    decreases p
  {
    if p.Paren? { PlainSigns(p.inner, m); }
  }

  lemma {:induction false} PlainTailSigns(t: Tail, m: int)
    requires PlainTail(t)
    ensures TailCoefs(Descent, m, t) == TailCoefs(OnePass, m, t)
    decreases t
  {
    if t.More? {
      PlainPrimSigns(t.operand.p, m * One(!t.plus));
      PlainTailSigns(t.rest, m);
    }
  }

  /** With at most one leading sign per expression both calculators return the
      arithmetic value, and the parser consumes the whole string. */
  lemma BothEvaluate(e: Expr)
    requires Wf(e) && Plain(e)
    ensures ExprF(Print(e), 0) == Ok(Value(Descent, e), |Print(e)|)
    ensures Run(Start, Print(e)).State? && Total(Run(Start, Print(e))) == Value(Descent, e)
  {
    hide Print, Coefs, ExprF, Run, Value, Wf, Total;
    PlainSigns(e, 1);
    TwoReadings(e);
    SignsSuffice(e);
  }

  // ---------- what neither was written for ----------

  /** Spaces alone are zero to both, and so is a plus sign to the descent, which
      skips it; a minus sign alone stops it. */
  lemma NoOperand(n: nat)
    ensures ExprF(Spaces(n), 0) == Ok(0, n) && Run(Start, Spaces(n)) == Start
    ensures ExprF(Spaces(n) + ['+'], 0) == Ok(0, n + 1)
    ensures ExprF(Spaces(n) + ['-'], 0) == Abort
  {
    OnlySpaces(n);
    SpacesRun(n);
    LoneSign(n, '+');
    LoneSign(n, '-');
  }

  lemma OnlySpaces(n: nat)
    ensures ExprF(Spaces(n), 0) == Ok(0, n)
  {
    hide Spaces;
    SkipAll(Spaces(n), n);
  }

  lemma SpacesRun(n: nat)
    ensures Run(Start, Spaces(n)) == Start
  {
    hide Run, Spaces;
    RunSpaces(Start, n);
  }

  lemma LoneSign(n: nat, c: char)
    requires c == '+' || c == '-'
    ensures ExprF(Spaces(n) + [c], 0) == if c == '+' then Ok(0, n + 1) else Abort
  {
    hide Spaces;
    var s := Spaces(n) + [c];
    SkipAll(s, n);
    assert s[n] == c;
  }

  lemma SkipAll(s: string, n: nat)
    requires n <= |s| && s[..n] == Spaces(n)
    ensures PrimF(s, 0) == PrimF(s, n)
  {
    hide PrimF, Spaces;
    assert s[0..0 + n] == Spaces(n);
    SkipSpaces(s, 0, n, 0);
  }

  /** An operator with nothing behind it stops the descent; the single pass takes
      it for a number zero. */
  lemma DanglingOperator(e: Expr, plus: bool)
    requires Wf(e)
    ensures ExprF(Print(e) + [SignChar(!plus)], 0) == Abort
    ensures var r := Run(Start, Print(e) + [SignChar(!plus)]); r.State? && Total(r) == Value(OnePass, e)
  {
    hide Print, Value, Run, Wf;
    var s := Print(e) + [SignChar(!plus)];
    assert At(s, 0, Print(e));
    ExprContinues(s, 0, e);
    RunAdds(Start, Print(e), [SignChar(!plus)]);
    RunExpr(Start, e);
    RunChar(Run(Start, Print(e)), SignChar(!plus));
  }

  /** A bracket that is not closed stops the descent; to the single pass it hides
      nothing. */
  lemma NotClosed(e: Expr)
    requires Wf(e)
    ensures ExprF("(" + Print(e), 0) == Abort
    ensures var r := Run(Start, "(" + Print(e)); r.State? && Total(r) == Value(OnePass, e)
  {
    hide Print, Value, Run, Wf;
    var s := "(" + Print(e);
    assert At(s, 1, Print(e));
    ExprReads(s, 1, e);
    RunAdds(Start, "(", Print(e));
    RunChar(Start, '(');
    OpenStep(Start);
    RunExpr(Step(Start, '('), e);
  }

  /** At a bracket that nothing opened the descent ends with what came before; the
      single pass takes from an empty stack. */
  lemma NotOpened(e: Expr, rest: string)
    requires Wf(e)
    ensures ExprF(Print(e) + ")" + rest, 0) == Ok(Value(Descent, e), |Print(e)|)
    ensures Run(Start, Print(e) + ")" + rest).Underflow?
  {
    hide Print, Value, Run, Wf;
    var s := Print(e) + ")" + rest;
    assert At(s, 0, Print(e));
    ExprReads(s, 0, e);
    RunAdds(Start, Print(e), ")");
    RunExpr(Start, e);
    RunChar(Run(Start, Print(e)), ')');
    assert s[..|Print(e)| + 1] == Print(e) + ")";
    UnderflowStays(s, |Print(e)| + 1);
  }

  /** One operand, an operator and one more operand with a sign of its own. */
  ghost function SecondSign(plus: bool, minus: bool, a: string, b: string): Expr
  {
    Expr(0, Operand([], Num(a)), More(0, plus, 0, Operand([Sign(minus, 0)], Num(b)), End(0)))
  }

  /** A second sign does harm exactly after a minus: `1--1` is 2 to one and 0 to
      the other, while `1+-1` is 0 to both. */
  lemma SecondSignDiffers(plus: bool, minus: bool, a: string, b: string)
    requires a != "" && Digits(a) && b != "" && Digits(b)
    ensures Agree(Print(SecondSign(plus, minus, a, b))) <==> plus || Val(b) == 0
  {
    hide *;
    SecondSignValue(Descent, plus, minus, a, b);
    SecondSignValue(OnePass, plus, minus, a, b);
    AgreeIsEqualValue(SecondSign(plus, minus, a, b));
    OneIsUnit(minus);
    SignMatters(One(minus), Val(b));
  }

  lemma OneIsUnit(minus: bool)
    ensures One(minus) == 1 || One(minus) == -1
  {
  }

  lemma SignMatters(g: int, v: int)
    requires g == 1 || g == -1
    ensures -g * v == g * v <==> v == 0
  {
  }

  lemma SecondSignValue(r: Reading, plus: bool, minus: bool, a: string, b: string)
    requires a != "" && Digits(a) && b != "" && Digits(b)
    ensures Wf(SecondSign(plus, minus, a, b))
    ensures Value(r, SecondSign(plus, minus, a, b)) ==
            Val(a) + (if r.Descent? && !plus then -One(minus) else One(minus)) * Val(b)
  {
    hide Val, Digits;
    var e := SecondSign(plus, minus, a, b);
    var signs := e.rest.operand.signs;
    assert WfTail(End(0)) && TailValue(r, End(0)) == 0;
    assert WfPrim(Num(b)) && PrimValue(r, Num(b)) == Val(b);
    assert WfTail(e.rest);
    assert signs[1..] == [];
    assert SignOf(r, One(!plus), signs) == if r.Descent? && !plus then -One(minus) else One(minus);
  }
}
