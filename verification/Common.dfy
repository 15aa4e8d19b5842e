/** What several modules share. */
module Common {
  datatype Option<+T> = None | Some(value: T)

  type Byte = x: nat | x < 256

  /** t is the part of s from i on. */
  ghost predicate At<T>(s: seq<T>, i: nat, t: seq<T>) { i + |t| <= |s| && s[i..i + |t|] == t }

  lemma AtConcat<T>(s: seq<T>, i: nat, t: seq<T>, u: seq<T>)
    requires At(s, i, t + u)
    ensures At(s, i, t) && At(s, i + |t|, u)
  {
    var w := s[i..i + |t + u|];
    assert w[..|t|] == t && w[|t|..] == u;
    assert s[i..i + |t|] == w[..|t|];
    assert s[i + |t|..i + |t| + |u|] == w[|t|..];
  }
}
