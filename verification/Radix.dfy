/** Numbers in a positional system, most significant digit first. */
module Radix {
  import opened Arithmetic

  function Value(s: seq<nat>, base: nat): nat {
    if s == [] then 0 else Value(s[..|s| - 1], base) * base + s[|s| - 1]
  }

  ghost predicate AllDigits(s: seq<nat>, base: nat) { forall i :: 0 <= i < |s| ==> s[i] < base }

  /** The digits of v without a leading zero. */
  function DigitsOf(v: nat, base: nat): (s: seq<nat>)
    requires base > 1
  {
    if v == 0 then [] else SmallerDiv(v, base); DigitsOf(v / base, base) + [v % base]
  }

  lemma SmallerDiv(v: nat, base: nat)
    requires base > 1 && v > 0
    ensures 0 <= v / base < v
  {
    if v / base >= v { MulMono(v, v / base, base); MulMono(2, base, v); }
  }

  ghost predicate NoLeadingZero(s: seq<nat>) { s == [] || s[0] != 0 }

  lemma {:induction false} DigitsOfSpec(v: nat, base: nat)
    requires base > 1
    ensures AllDigits(DigitsOf(v, base), base) && NoLeadingZero(DigitsOf(v, base))
    ensures Value(DigitsOf(v, base), base) == v
  {
    if v > 0 {
      SmallerDiv(v, base);
      DivModSplit(v, base);
      DigitsOfSpec(v / base, base);
      AppendSpec(DigitsOf(v / base, base), v / base, v % base, v, base);
    }
  }

  lemma AppendSpec(s: seq<nat>, q: nat, d: nat, v: nat, base: nat)
    requires base > 1 && AllDigits(s, base) && NoLeadingZero(s) && Value(s, base) == q
    requires v == q * base + d && d < base && v > 0
    ensures AllDigits(s + [d], base) && NoLeadingZero(s + [d]) && Value(s + [d], base) == v
  {
    hide Value;
    ValueAppend(s, d, base);
    if s == [] { assert 0 * base == 0; }
  }

  lemma ValueAppend(s: seq<nat>, d: nat, base: nat)
    ensures Value(s + [d], base) == Value(s, base) * base + d
    ensures s == [] ==> Value(s, base) == 0
  {
    assert (s + [d])[..|s|] == s;
  }

  lemma {:induction false} PositiveValue(s: seq<nat>, base: nat)
    requires base > 0 && s != [] && s[0] != 0
    ensures Value(s, base) > 0
  {
    var n := |s| - 1;
    if n > 0 {
      PositiveValue(s[..n], base);
      MulPositive(Value(s[..n], base), base);
    }
  }

  /** A number has only one representation without a leading zero. */
  lemma {:induction false} DigitsAreUnique(s: seq<nat>, base: nat)
    requires base > 1 && AllDigits(s, base) && NoLeadingZero(s)
    ensures DigitsOf(Value(s, base), base) == s
    decreases |s|
  {
    if s != [] {
      PositiveValue(s, base);
      var n := |s| - 1;
      DivMod(Value(s, base), base, Value(s[..n], base), s[n]);
      DigitsAreUnique(s[..n], base);
    }
  }

  lemma {:induction false} ValueBelow(s: seq<nat>, base: nat)
    requires base > 0 && AllDigits(s, base)
    ensures Value(s, base) < Pow(base, |s|)
  {
    if s != [] {
      var n := |s| - 1;
      ValueBelow(s[..n], base);
      MulMono(Value(s[..n], base) + 1, Pow(base, n), base);
      MulDistrib(base, Value(s[..n], base), 1);
    }
  }

  function Strip(s: seq<nat>): seq<nat> { if s != [] && s[0] == 0 then Strip(s[1..]) else s }

  lemma {:induction false} ValueConcat(s: seq<nat>, t: seq<nat>, base: nat)
    ensures Value(s + t, base) == Value(s, base) * Pow(base, |t|) + Value(t, base)
    decreases |t|
  {
    if t == [] {
      assert s + t == s;
    } else {
      var n := |t| - 1;
      ValueConcat(s, t[..n], base);
      assert (s + t)[..|s| + n] == s + t[..n];
      MulDistrib(base, Value(s, base) * Pow(base, n), Value(t[..n], base));
      assert Value(s, base) * Pow(base, n) * base == Value(s, base) * Pow(base, n + 1) by {
        MulAssoc(Value(s, base), Pow(base, n), base);
        assert Pow(base, n) * base == base * Pow(base, n);
      }
    }
  }

  lemma {:induction false} StripSpec(s: seq<nat>, base: nat)
    requires base > 1 && AllDigits(s, base)
    ensures Strip(s) == DigitsOf(Value(s, base), base)
    decreases |s|
  {
    if s != [] && s[0] == 0 {
      ValueConcat([0], s[1..], base);
      assert [0] + s[1..] == s;
      StripSpec(s[1..], base);
    } else {
      DigitsAreUnique(s, base);
    }
  }

  // ------------------------------------------------------------ the carry loop

  /** buffer := buffer * factor + ch, in place, from the last digit on. */
  method MulAdd(buffer: array<nat>, base: nat, factor: nat, ch: nat) returns (carry: nat)
    requires base > 0 && ch < factor && AllDigits(buffer[..], base)
    requires Value(buffer[..], base) * factor + ch < Pow(base, buffer.Length)
    modifies buffer
    ensures AllDigits(buffer[..], base)
    ensures Value(buffer[..], base) == old(Value(buffer[..], base)) * factor + ch
    ensures carry == 0
  {
    hide Value, Pow;
    ghost var s := buffer[..];
    carry := ch;
    var i := buffer.Length;
    assert s[i..] == [];
    EmptyTail(base, factor, ch);
    while i > 0
      invariant 0 <= i <= buffer.Length && carry < factor
      invariant buffer[..i] == s[..i] && AllDigits(buffer[..], base)
      invariant Value(buffer[i..], base) + carry * Pow(base, buffer.Length - i) == Value(s[i..], base) * factor + ch
    {
      i := i - 1;
      assert buffer[i] == buffer[..i + 1][i] == s[i];
      ghost var t, c := buffer[..], carry;
      CarryFits(carry, factor, s[i], base);
      carry := carry + factor * buffer[i];
      buffer[i] := carry % base;
      DivModSplit(carry, base);
      carry := carry / base;
      CarryStep(t, buffer[..], s, i, base, factor, ch, c, buffer[i], carry);
    }
    assert buffer[0..] == buffer[..] && s[0..] == s;
    ValueBelow(buffer[..], base);
    if carry > 0 { MulMono(1, carry, Pow(base, buffer.Length)); }
  }

  lemma EmptyTail(base: nat, factor: nat, ch: nat)
    ensures Value([], base) == 0 && Pow(base, 0) == 1
  {
  }

  /** The carry stays below the factor. */
  lemma CarryFits(carry: nat, factor: nat, d: nat, base: nat)
    requires carry < factor && d < base
    ensures 0 <= factor * d && 0 <= (carry + factor * d) / base < factor
    ensures (carry + factor * d) % base < base
  {
    MulMono(d + 1, base, factor);
    MulDistrib(factor, d, 1);
    MulMono(0, factor, d);
    var x := carry + factor * d;
    if x / base >= factor { MulMono(factor, x / base, base); }
  }

  lemma CarryStep(t: seq<nat>, u: seq<nat>, s: seq<nat>, i: nat, base: nat, factor: nat, ch: nat, c: nat, lo: nat,
                  carry: nat)
    requires i < |t| == |s| && u == t[i := lo] && c + factor * s[i] == carry * base + lo
    requires Value(t[i + 1..], base) + c * Pow(base, |t| - i - 1) == Value(s[i + 1..], base) * factor + ch
    ensures Value(u[i..], base) + carry * Pow(base, |t| - i) == Value(s[i..], base) * factor + ch
  {
    var p := Pow(base, |t| - i - 1);
    assert Pow(base, |t| - i) == base * p;
    hide *;
    HeadValue(u[i..], base);
    HeadValue(s[i..], base);
    assert u[i..][1..] == t[i + 1..] && s[i..][1..] == s[i + 1..];
    assert u[i..][0] == lo && |u[i..]| - 1 == |t| - i - 1;
    StepTerms(Value(t[i + 1..], base), Value(s[i + 1..], base), lo, carry, base, p, c, factor, s[i], ch,
              Value(u[i..], base), Value(s[i..], base), Pow(base, |t| - i));
  }

  lemma DivModSplit(x: nat, d: nat)
    requires d > 0
    ensures x == x / d * d + x % d
  {
  }

  lemma HeadValue(s: seq<nat>, base: nat)
    requires s != []
    ensures Value(s, base) == s[0] * Pow(base, |s| - 1) + Value(s[1..], base)
  {
    ValueConcat([s[0]], s[1..], base);
    assert [s[0]] + s[1..] == s;
    assert Value([s[0]], base) == s[0];
  }

  lemma StepTerms(v: nat, w: nat, lo: nat, hi: nat, base: nat, p: nat, c: nat, f: nat, d: nat, ch: nat, vu: nat,
                  vs: nat, q: nat)
    requires v + c * p == w * f + ch && c + f * d == hi * base + lo
    requires vu == lo * p + v && vs == d * p + w && q == base * p
    ensures vu + hi * q == vs * f + ch
  {
    MulDistrib(p, c, f * d);
    MulDistrib(p, hi * base, lo);
    MulAssoc(hi, base, p);
    MulDistrib(f, d * p, w);
    assert d * p * f == f * d * p by { MulAssoc(f, d, p); assert d * p * f == f * (d * p); }
  }
}
