/** Natural numbers in decimal notation, shared by the programs that print them. */
module Decimal {

  predicate IsDigit(c: char) { '0' <= c <= '9' }

  predicate Digits(s: string) { forall i :: 0 <= i < |s| ==> IsDigit(s[i]) }

  /** The number a string of digits denotes. */
  function Val(s: string): (v: int)
    ensures Digits(s) ==> v >= 0
  {
    if s == "" then 0 else Val(s[..|s| - 1]) * 10 + (s[|s| - 1] as int - '0' as int)
  }

  /** What std::to_string, operator<< and str.format print for a natural number. */
  function ToString(n: nat): (s: string)
    ensures Digits(s) && Val(s) == n && IsNumeral(s)
  {
    if n < 10 then
      OneDigit(n);
      [Digit(n)]
    else
      var s := ToString(n / 10);
      OneMoreDigit(s, n % 10);
      s + [Digit(n % 10)]
  }

  function Digit(d: nat): (c: char)
    requires d < 10
    ensures IsDigit(c) && c as int - '0' as int == d
  {
    (d as char) + '0'
  }

  lemma OneDigit(d: nat)
    requires d < 10
    ensures Digits([Digit(d)]) && Val([Digit(d)]) == d && IsNumeral([Digit(d)])
  {
    assert [Digit(d)][..0] == "";
  }

  lemma OneMoreDigit(s: string, d: nat)
    requires IsNumeral(s) && Val(s) >= 1 && d < 10
    ensures var t := s + [Digit(d)];
            Digits(t) && Val(t) == Val(s) * 10 + d && IsNumeral(t)
  {
    assert (s + [Digit(d)])[..|s|] == s;
    assert Val("0") == 0;
  }

  /** Digits without a leading zero, except for "0" itself. */
  ghost predicate IsNumeral(s: string)
  {
    Digits(s) && s != "" && (s[0] == '0' ==> s == "0")
  }
}
