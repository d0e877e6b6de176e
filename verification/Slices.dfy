/** Stretches of sequences and optional values, shared by the readers and parsers. */
module Slices {

  datatype Option<T> = None | Some(value: T)

  /** t stands in s at pos. */
  ghost predicate At<T>(s: seq<T>, pos: int, t: seq<T>)
  {
    0 <= pos && pos + |t| <= |s| && s[pos..pos + |t|] == t
  }

  lemma AtSplit<T>(s: seq<T>, pos: int, a: seq<T>, b: seq<T>)
    requires At(s, pos, a + b)
    ensures At(s, pos, a) && At(s, pos + |a|, b)
  {
    var t := a + b;
    assert t[..|a|] == a && t[|a|..] == b;
    assert s[pos..pos + |t|][..|a|] == s[pos..pos + |a|];
    assert s[pos..pos + |t|][|a|..] == s[pos + |a|..pos + |t|];
  }

  lemma Associate<T>(a: seq<T>, b: seq<T>, c: seq<T>)
    ensures a + (b + c) == a + b + c
  {
  }
}
