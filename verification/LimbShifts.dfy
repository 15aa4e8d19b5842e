/** Shifts of a sequence of limbs, limb by limb. */
module LimbShifts {
  import opened Arithmetic
  import opened Limbs

  /** x << s, of 32 bits */
  function Shl(x: Limb, s: nat): (r: Limb)
    requires s <= 32
  {
    (x * Pow(2, s)) % BASE
  }

  /** x >> s */
  function Shr(x: Limb, s: nat): (r: Limb)
    requires s <= 32
  {
    PowPositive(2, s);
    ShrFits(x, Pow(2, s));
    x / Pow(2, s)
  }

  lemma ShrFits(x: nat, p: nat)
    requires p > 0
    ensures 0 <= x / p <= x
  {
    var q := x / p;
    MulMono(1, p, q);
    if q < 0 { MulMono(q, -1, p); }
  }

  lemma HalfPowers(s: nat)
    requires s <= 32
    ensures Pow(2, s) > 0 && Pow(2, 32 - s) > 0 && Pow(2, s) * Pow(2, 32 - s) == BASE
  {
    PowPositive(2, s);
    PowPositive(2, 32 - s);
    PowAdd(2, s, 32 - s);
    TwoPowers();
  }

  lemma MulDiv(x: nat, p: nat, c: nat)
    requires p > 0 && c > 0
    ensures p * c > 0 && x * p / (p * c) == x / c && x * p % (p * c) == x % c * p && x % c * p + p <= p * c
  {
    var q, r := x / c, x % c;
    MulPositive(p, c);
    assert (q * c + r) * p == q * (p * c) + r * p by {
      MulDistrib(p, q * c, r);
      MulAssoc(q, c, p);
      assert c * p == p * c;
    }
    MulMono(r + 1, c, p);
    MulDistrib(p, r, 1);
    MulMono(0, r, p);
    DivMod(x * p, p * c, q, r * p);
  }

  /** What leaves a limb to the left is what `>> (32 - s)` yields. */
  lemma ShlSplit(x: Limb, s: nat)
    requires s <= 32
    ensures x * Pow(2, s) == Shl(x, s) + Shr(x, 32 - s) * BASE
    ensures Pow(2, s) > 0 && Shl(x, s) % Pow(2, s) == 0 && Shl(x, s) + Pow(2, s) <= BASE
    ensures Shr(x, 32 - s) < Pow(2, s)
    ensures Pow(2, 32 - s) > 0 && Shl(x, s) == x % Pow(2, 32 - s) * Pow(2, s)
  {
    HalfPowers(s);
    var p, c := Pow(2, s), Pow(2, 32 - s);
    hide Pow;
    MulDiv(x, p, c);
    SplitTerms(x, p, c);
  }

  lemma SplitTerms(x: Limb, p: nat, c: nat)
    requires p > 0 && c > 0 && p * c == BASE
    ensures x % c * p % p == 0
    ensures x / c < p
  {
    MulMono(0, x % c, p);
    DivMod(x % c * p, p, x % c, 0);
    if x / c >= p { MulMono(p, x / c, c); }
  }

  /** The two parts of a shifted limb share no bit. */
  lemma OrParts(x: Limb, y: Limb, s: nat)
    requires s <= 32
    ensures Shl(x, s) + Shr(y, 32 - s) < BASE
    ensures BitOr(Shr(y, 32 - s), Shl(x, s)) == Shl(x, s) + Shr(y, 32 - s)
    ensures BitOr(Shl(x, s), Shr(y, 32 - s)) == Shl(x, s) + Shr(y, 32 - s)
  {
    ShlSplit(x, s);
    ShlSplit(y, s);
    OrDisjoint(Shr(y, 32 - s), Shl(x, s), s);
  }

  // ------------------------------------------------------------ to the left

  /** What limb i of a sends to the limb above. */
  function Out(a: seq<Limb>, s: nat, i: int): Limb
    requires s < 32 && i < |a|
  {
    if i >= 0 && s != 0 then Shr(a[i], 32 - s) else 0
  }

  ghost predicate LeftOf(t: seq<Limb>, a: seq<Limb>, k: nat, s: nat) {
    && s < 32 && |t| == |a|
    && (forall j :: 0 <= j < |t| && j < k ==> t[j] == 0)
    && (forall j :: k <= j < |t| ==> t[j] == Shl(a[j - k], s) + Out(a, s, j - k - 1))
  }

  lemma OutSplit(x: Limb, s: nat)
    requires s < 32
    ensures x * Pow(2, s) == Shl(x, s) + Out([x], s, 0) * BASE
  {
    ShlSplit(x, s);
    if s == 0 { assert Pow(2, 32) == BASE by { TwoPowers(); } SmallMod(x, BASE); }
  }

  lemma {:induction false} LeftValue(t: seq<Limb>, a: seq<Limb>, k: nat, s: nat, i: nat)
    requires LeftOf(t, a, k, s) && k + i <= |t|
    ensures Value(t[..k + i]) + Out(a, s, i - 1) * Unit(k + i) == Value(a[..i]) * Pow(2, s) * Unit(k)
  {
    hide Shl, Shr, Pow, Value, Unit;
    if i == 0 {
      ValueZeros(t[..k]);
      assert a[..0] == [];
      EmptyValue();
    } else {
      LeftValue(t, a, k, s, i - 1);
      assert t[k + i - 1] == Shl(a[i - 1], s) + Out(a, s, i - 2);
      ValuePrefix(t, k + i - 1);
      ValuePrefix(a, i - 1);
      OutSplit(a[i - 1], s);
      UnitStep(k + i - 1);
      UnitSum(i - 1, k);
      LeftTerms(Value(t[..k + i - 1]), Out(a, s, i - 2), Unit(k + i - 1), Value(a[..i - 1]), Pow(2, s), Unit(k),
                Unit(i - 1), a[i - 1], Shl(a[i - 1], s), Out(a, s, i - 1));
    }
  }

  lemma UnitSum(i: nat, k: nat)
    ensures Unit(k + i) == Unit(i) * Unit(k)
  {
    PowAdd(BASE, i, k);
  }

  lemma LeftTerms(v: nat, o: nat, u: nat, w: nat, p: nat, uk: nat, ui: nat, x: nat, lo: nat, hi: nat)
    requires v + o * u == w * p * uk && u == ui * uk && x * p == lo + hi * BASE
    ensures v + (lo + o) * u + hi * (BASE * u) == (w + x * ui) * p * uk
  {
    MulDistrib(u, lo, o);
    MulDistrib(u, lo, hi * BASE);
    MulAssoc(hi, BASE, u);
    MulDistrib(p, w, x * ui);
    MulDistrib(uk, w * p, x * ui * p);
    assert x * ui * p * uk == x * p * u by {
      assert x * ui * p == x * p * ui by { MulAssoc(x, ui, p); MulAssoc(x, p, ui); assert ui * p == p * ui; }
      MulAssoc(x * p, ui, uk);
    }
  }

  lemma ShiftAmount(shift: nat)
    ensures Pow(2, shift) == Pow(2, shift % 32) * Unit(shift / 32)
  {
    UnitIsTwo(shift / 32);
    PowAdd(2, shift % 32, 32 * (shift / 32));
  }

  lemma MultipleOf(x: nat, m: nat, v: nat, w: nat)
    requires v < m && x == v + w * m
    ensures x % m == v
  {
    DivMod(x, m, w, v);
  }

  lemma LeftShifted(t: seq<Limb>, a: seq<Limb>, shift: nat)
    requires LeftOf(t, a, shift / 32, shift % 32)
    ensures Unit(|t|) > 0 && Value(t) == Value(a) * Pow(2, shift) % Unit(|t|)
  {
    hide Shl, Shr, Pow, Value, Unit, LeftOf, Out;
    var k, s := shift / 32, shift % 32;
    ShiftAmount(shift);
    MulAssoc(Value(a), Pow(2, s), Unit(k));
    assert |a| == |t| by { SameWidth(t, a, k, s); }
    if k >= |t| {
      LeftAll(t, a, k, s);
    } else {
      LeftSome(t, a, k, s);
    }
  }

  lemma SameWidth(t: seq<Limb>, a: seq<Limb>, k: nat, s: nat)
    requires LeftOf(t, a, k, s)
    ensures |a| == |t|
  {
  }

  lemma LeftAll(t: seq<Limb>, a: seq<Limb>, k: nat, s: nat)
    requires LeftOf(t, a, k, s) && k >= |t|
    ensures Unit(|t|) > 0 && 0 <= Value(a) * Pow(2, s) * Unit(k)
    ensures Value(t) == Value(a) * Pow(2, s) * Unit(k) % Unit(|t|)
  {
    hide Shl, Shr, Pow, Value, Unit;
    var n := |t|;
    UnitStep(n);
    ValueZeros(t);
    UnitSum(k - n, n);
    var x := Value(a) * Pow(2, s);
    MulMono(0, Value(a), Pow(2, s));
    MulAssoc(x, Unit(k - n), Unit(n));
    MulMono(0, x, Unit(k - n));
    MultipleOf(x * Unit(k), Unit(n), 0, x * Unit(k - n));
  }

  lemma LeftSome(t: seq<Limb>, a: seq<Limb>, k: nat, s: nat)
    requires LeftOf(t, a, k, s) && k < |t|
    ensures Unit(|t|) > 0 && 0 <= Value(a) * Pow(2, s) * Unit(k)
    ensures Value(t) == Value(a) * Pow(2, s) * Unit(k) % Unit(|t|)
  {
    var n, p := |t|, Pow(2, s);
    hide Shl, Shr, Pow, Value, Unit, Out;
    UnitStep(n);
    LeftValue(t, a, k, s, n - k);
    assert t[..k + (n - k)] == t;
    ValueBound(t);
    ValueSplit(a, n - k);
    UnitSum(n - k, k);
    var o, high := Out(a, s, n - k - 1), Value(a[n - k..]);
    LeftRest(Value(t), o, Unit(n), Value(a[..n - k]), high, Unit(n - k), p, Unit(k), Value(a));
  }

  lemma LeftRest(v: nat, o: nat, m: nat, low: nat, high: nat, u: nat, p: nat, uk: nat, x: nat)
    requires v + o * m == low * p * uk && m == u * uk && v < m && x == low + high * u
    ensures 0 <= x * p * uk && x * p * uk % m == v
  {
    MulMono(0, high, p);
    assert x * p * uk == v + (o + high * p) * m by {
      MulDistrib(p, low, high * u);
      MulDistrib(uk, low * p, high * u * p);
      MulDistrib(m, o, high * p);
      assert high * u * p == high * p * u by { MulAssoc(high, u, p); MulAssoc(high, p, u); assert u * p == p * u; }
      MulAssoc(high * p, u, uk);
    }
    MulMono(0, o + high * p, m);
    MultipleOf(x * p * uk, m, v, o + high * p);
  }

  // ------------------------------------------------------------ to the right

  /** What limb i of a sends to the limb below. */
  function In(a: seq<Limb>, s: nat, i: nat): Limb
    requires s < 32
  {
    if i < |a| && s != 0 then Shl(a[i], 32 - s) else 0
  }

  ghost predicate RightOf(t: seq<Limb>, a: seq<Limb>, k: nat, s: nat) {
    && s < 32 && |t| == |a|
    && (forall j :: 0 <= j < |t| && j + k < |t| ==> t[j] == Shr(a[j + k], s) + In(a, s, j + k + 1))
    && (forall j :: 0 <= j < |t| && j + k >= |t| ==> t[j] == 0)
  }

  /** The bits that limb i loses to the right. */
  function Lost(a: seq<Limb>, s: nat, i: nat): (r: nat)
    requires s < 32
  {
    PowPositive(2, s);
    if i < |a| then a[i] % Pow(2, s) else 0
  }

  lemma LostSplit(a: seq<Limb>, s: nat, i: nat)
    requires s < 32
    ensures In(a, s, i) * Pow(2, s) == Lost(a, s, i) * BASE
    ensures i < |a| ==> Shr(a[i], s) * Pow(2, s) + Lost(a, s, i) == a[i]
    ensures Lost(a, s, i) < Pow(2, s)
  {
    hide Shl, Pow;
    PowPositive(2, s);
    if i < |a| {
      InSplit(a[i], s);
    }
  }

  lemma InSplit(x: Limb, s: nat)
    requires s < 32
    ensures Pow(2, s) > 0 && (if s == 0 then 0 else Shl(x, 32 - s)) * Pow(2, s) == x % Pow(2, s) * BASE
  {
    PowPositive(2, s);
    if s == 0 {
      assert Pow(2, 0) == 1;
      assert x % 1 == 0;
    } else {
      ShlSplit(x, 32 - s);
      assert 32 - (32 - s) == s;
      HalfPowers(s);
      InTerms(Shl(x, 32 - s), x % Pow(2, s), Pow(2, 32 - s), Pow(2, s));
    }
  }

  lemma InTerms(o: nat, l: nat, c: nat, p: nat)
    requires o == l * c && p * c == BASE
    ensures o * p == l * BASE
  {
    MulAssoc(l, c, p);
    assert c * p == p * c;
  }

  lemma {:induction false} RightValue(t: seq<Limb>, a: seq<Limb>, k: nat, s: nat, i: nat)
    requires RightOf(t, a, k, s) && k + i <= |t|
    ensures Value(t[..i]) * Pow(2, s) + Lost(a, s, k) == Value(a[k..k + i]) + Lost(a, s, k + i) * Unit(i)
  {
    hide Shl, Shr, Pow, Value, Unit, In, Lost;
    if i == 0 {
      EmptyValue();
      UnitZero();
      assert t[..0] == [] && a[k..k] == [];
    } else {
      var j := i - 1;
      RightValue(t, a, k, s, j);
      ValuePrefix(t, j);
      var d := a[k..k + i];
      assert d[..j] == a[k..k + j] && d[..j + 1] == d && d[j] == a[k + j];
      ValuePrefix(d, j);
      LostSplit(a, s, k + j);
      LostSplit(a, s, k + i);
      UnitStep(j);
      assert t[j] == Shr(a[j + k], s) + In(a, s, j + k + 1);
      RightTerms(Value(t[..j]), Lost(a, s, k), Value(a[k..k + j]), Lost(a, s, k + j), Unit(j), Pow(2, s),
                 Shr(a[k + j], s), In(a, s, k + i), a[k + j], Lost(a, s, k + i));
    }
  }

  lemma RightTerms(v: nat, l0: nat, w: nat, l: nat, u: nat, p: nat, h: nat, o: nat, x: nat, l1: nat)
    requires v * p + l0 == w + l * u && h * p + l == x && o * p == l1 * BASE
    ensures (v + (h + o) * u) * p + l0 == w + x * u + l1 * (BASE * u)
  {
    MulDistrib(p, v, (h + o) * u);
    assert (h + o) * u * p == (h + o) * p * u by {
      MulAssoc(h + o, u, p);
      MulAssoc(h + o, p, u);
      assert u * p == p * u;
    }
    MulDistrib(p, h, o);
    MulDistrib(u, h * p, o * p);
    MulDistrib(u, h * p, l);
    MulAssoc(l1, BASE, u);
  }

  lemma RightShifted(t: seq<Limb>, a: seq<Limb>, shift: nat)
    requires RightOf(t, a, shift / 32, shift % 32)
    ensures Pow(2, shift) > 0 && Value(t) == Value(a) / Pow(2, shift)
  {
    hide Pow, Value, Unit, RightOf;
    var k, s := shift / 32, shift % 32;
    PowPositive(2, shift);
    ShiftAmount(shift);
    if k >= |t| {
      RightAll(t, a, k, s);
    } else {
      RightSome(t, a, k, s);
    }
  }

  lemma RightAll(t: seq<Limb>, a: seq<Limb>, k: nat, s: nat)
    requires RightOf(t, a, k, s) && k >= |t|
    ensures Pow(2, s) * Unit(k) > 0 && Value(t) == Value(a) / (Pow(2, s) * Unit(k))
  {
    hide Pow, Value, Unit, Shr, In;
    PowPositive(2, s);
    UnitStep(k);
    ValueZeros(t);
    ValueBound(a);
    UnitMono(|t|, k);
    MulMono(1, Pow(2, s), Unit(k));
    SmallMod(Value(a), Pow(2, s) * Unit(k));
  }

  lemma RightSome(t: seq<Limb>, a: seq<Limb>, k: nat, s: nat)
    requires RightOf(t, a, k, s) && k < |t|
    ensures Pow(2, s) * Unit(k) > 0 && Value(t) == Value(a) / (Pow(2, s) * Unit(k))
  {
    hide Pow, Value, Unit, Shr, In, Lost;
    var n := |t|;
    RightValue(t, a, k, s, n - k);
    assert a[k..k + (n - k)] == a[k..];
    LostSplit(a, s, k);
    NothingLost(a, s, n);
    ValueSplit(t, n - k);
    ValueZeros(t[n - k..]);
    ValueDiv(a, k);
    PowPositive(2, s);
    RightQuotient(Value(t), Lost(a, s, k), Value(a[k..]), Pow(2, s), Value(a), Unit(k));
  }

  lemma RightQuotient(v: nat, l: nat, w: nat, p: nat, x: nat, u: nat)
    requires p > 0 && u > 0 && v * p + l == w && l < p && w == x / u
    ensures p * u > 0 && v == x / (p * u)
  {
    DivMod(w, p, v, l);
    DivDiv(x, u, p);
    assert u * p == p * u;
  }

  lemma NothingLost(a: seq<Limb>, s: nat, i: nat)
    requires s < 32 && i >= |a|
    ensures Lost(a, s, i) == 0
  {
  }

  lemma UnitMono(m: nat, n: nat)
    requires m <= n
    ensures Unit(m) <= Unit(n)
  {
    PowMono(BASE, m, n);
  }
}
