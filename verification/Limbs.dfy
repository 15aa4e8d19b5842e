/** The number that a sequence of 32-bit limbs, least significant first, stands for. */
module Limbs {
  import opened Arithmetic

  const BASE: nat := 0x1_0000_0000

  type Limb = x: nat | x < 0x1_0000_0000
  type Wide = x: nat | x < 0x1_0000_0000_0000_0000

  /** n & 0xffffffff */
  function Low(n: Wide): (r: Limb)
    ensures n == r + High(n) * BASE
  {
    AndMask(n, 32);
    TwoPowers();
    BitAnd(n, 0xffff_ffff)
  }

  /** n >> 32 */
  function High(n: Wide): (r: Limb)
    ensures n < BASE ==> r == 0
    ensures n < 2 * BASE ==> r <= 1
  {
    n / BASE
  }

  function Unit(i: nat): nat { Pow(BASE, i) }

  function Value(s: seq<Limb>): nat {
    if s == [] then 0 else Value(s[..|s| - 1]) + s[|s| - 1] * Unit(|s| - 1)
  }

  lemma EmptyValue()
    ensures Value([]) == 0
  {
  }

  lemma UnitStep(i: nat)
    ensures Unit(i + 1) == BASE * Unit(i) && Unit(i) > 0
  {
    PowPositive(BASE, i);
  }

  lemma UnitZero()
    ensures Unit(0) == 1
  {
  }

  lemma UnitIsTwo(i: nat)
    ensures Unit(i) == Pow(2, 32 * i)
  {
    TwoPowers();
    PowPow(2, 32, i);
  }

  lemma ValuePrefix(s: seq<Limb>, i: nat)
    requires i < |s|
    ensures Value(s[..i + 1]) == Value(s[..i]) + s[i] * Unit(i)
  {
    assert s[..i + 1][..i] == s[..i];
  }

  lemma {:induction false} ValueBound(s: seq<Limb>)
    ensures Value(s) < Unit(|s|)
  {
    if s != [] {
      var n := |s| - 1;
      ValueBound(s[..n]);
      UnitStep(n);
      MulMono(s[n], BASE - 1, Unit(n));
      MulDistrib(Unit(n), BASE, -1);
    }
  }

  lemma ConcatTerms(x: nat, y: nat, d: nat, u: nat, v: nat)
    ensures x + y * u + d * (u * v) == x + (y + d * v) * u
  {
    MulDistrib(u, y, d * v);
    assert d * v * u == d * (u * v) by { MulAssoc(d, v, u); assert v * u == u * v; }
  }

  lemma {:induction false} ValueConcat(a: seq<Limb>, b: seq<Limb>)
    ensures Value(a + b) == Value(a) + Value(b) * Unit(|a|)
  {
    if b == [] {
      assert a + b == a;
    } else {
      var n := |b| - 1;
      ValueConcat(a, b[..n]);
      assert (a + b)[..|a + b| - 1] == a + b[..n];
      PowAdd(BASE, |a|, n);
      ConcatTerms(Value(a), Value(b[..n]), b[n], Unit(|a|), Unit(n));
    }
  }

  lemma ValueSplit(s: seq<Limb>, i: nat)
    requires i <= |s|
    ensures Value(s) == Value(s[..i]) + Value(s[i..]) * Unit(i)
  {
    ValueConcat(s[..i], s[i..]);
    assert s[..i] + s[i..] == s;
  }

  lemma {:induction false} ValueZeros(s: seq<Limb>)
    requires forall i :: 0 <= i < |s| ==> s[i] == 0
    ensures Value(s) == 0
  {
    if s != [] { ValueZeros(s[..|s| - 1]); }
  }

  lemma {:induction false} ValueUpdate(s: seq<Limb>, i: nat, v: Limb)
    requires i < |s|
    ensures Value(s[i := v]) == Value(s) + (v - s[i]) * Unit(i)
  {
    var n := |s| - 1;
    var t := s[i := v];
    if i == n {
      assert t[..n] == s[..n];
      MulSub(Unit(n), v, s[i]);
    } else {
      ValueUpdate(s[..n], i, v);
      assert t[..n] == s[..n][i := v];
    }
  }

  /** Numbers that agree above limb i are ordered by limb i. */
  lemma ValueOrder(s: seq<Limb>, t: seq<Limb>, i: nat)
    requires |s| == |t| && i < |s| && s[i + 1..] == t[i + 1..] && s[i] < t[i]
    ensures Value(s) < Value(t)
  {
    ValueSplit(s, i + 1);
    ValueSplit(t, i + 1);
    ValuePrefix(s, i);
    ValuePrefix(t, i);
    ValueBound(s[..i]);
    MulMono(s[i] + 1, t[i], Unit(i));
    MulDistrib(Unit(i), s[i], 1);
  }

  lemma ValueDiv(s: seq<Limb>, i: nat)
    requires i <= |s|
    ensures Unit(i) > 0 && Value(s) / Unit(i) == Value(s[i..]) && Value(s) % Unit(i) == Value(s[..i])
  {
    UnitStep(i);
    ValueSplit(s, i);
    ValueBound(s[..i]);
    DivMod(Value(s), Unit(i), Value(s[i..]), Value(s[..i]));
  }

  lemma ValueHead(s: seq<Limb>)
    requires s != []
    ensures Value(s) == s[0] + Value(s[1..]) * BASE
  {
    ValueSplit(s, 1);
    ValuePrefix(s, 0);
    assert s[..0] == [];
    assert Unit(1) == BASE * Unit(0);
  }

  lemma MultipleDiv(x: nat, u: nat, p: nat)
    requires u > 0 && p > 0 && u * p > 0 && x % (u * p) == 0
    ensures x / u % p == 0
  {
    DivDiv(x, u, p);
    var k := x / (u * p);
    assert x == (u * p) * k;
    assert (u * p) * k == (p * k) * u by { MulAssoc(u, p, k); assert u * (p * k) == (p * k) * u; }
    MulMono(0, k, p);
    DivMod(x, u, p * k, 0);
    assert p * k == k * p;
    DivMod(p * k, p, k, 0);
  }

  /** A number that is a multiple of 2^(32 i + r) has no bit below bit r in limb i. */
  lemma LowBitsClear(s: seq<Limb>, i: nat, r: nat)
    requires i < |s| && r <= 32
    requires Pow(2, 32 * i + r) > 0 && Value(s) % Pow(2, 32 * i + r) == 0
    ensures Pow(2, r) > 0 && s[i] % Pow(2, r) == 0
  {
    hide Pow, Value;
    PowPositive(2, r);
    UnitIsTwo(i);
    UnitStep(i);
    PowAdd(2, 32 * i, r);
    MultipleDiv(Value(s), Unit(i), Pow(2, r));
    ValueDiv(s, i);
    ValueHead(s[i..]);
    PowAdd(2, 32 - r, r);
    TwoPowers();
    PowPositive(2, 32 - r);
    var high, c, p := Value(s[i..][1..]), Pow(2, 32 - r), Pow(2, r);
    MulAssoc(high, c, p);
    ModAdd(s[i], p, high * c);
  }
}
