/**
 Multi-limb unsigned integers. An object holds its limbs in an array that the operators change
 in place; every operator is proved against the natural number the limbs stand for, for any
 number of limbs. Operands may be the same object.
 */
module ArithUint {
  import opened Arithmetic
  import opened Limbs
  import opened LimbShifts

  // ------------------------------------------------------------ one step of each carry loop

  lemma CarryStep(v: nat, t: nat, d: nat, carry: nat, lo: nat, hi: nat, i: nat)
    requires v + carry * Unit(i) == t && carry + d == lo + hi * BASE
    ensures v + lo * Unit(i) + hi * Unit(i + 1) == t + d * Unit(i)
  {
    var u := Unit(i);
    hide Unit;
    UnitStep(i);
    MulDistrib(u, carry, d);
    MulDistrib(u, lo, hi * BASE);
    MulAssoc(hi, BASE, u);
  }

  lemma Reduced(v: nat, carry: nat, t: nat, m: nat)
    requires v < m && v + carry * m == t
    ensures v == t % m
  {
    DivMod(t, m, carry, v);
  }

  class BaseUint {
    const pn: array<Limb>

    constructor (width: nat)
      ensures fresh(pn) && pn.Length == width
      ensures forall i :: 0 <= i < width ==> pn[i] == 0
    {
      pn := new Limb[width](_ => 0);
    }

    constructor Copy(b: BaseUint)
      ensures fresh(pn) && pn[..] == b.pn[..]
    {
      pn := new Limb[b.pn.Length](i requires 0 <= i < b.pn.Length reads b.pn => b.pn[i]);
    }

    ghost function Val(): (v: nat)
      reads pn
      ensures v < Size()
    {
      ValueBound(pn[..]);
      Value(pn[..])
    }

    /** 2^BITS */
    ghost function Size(): (m: nat)
      ensures m > 0
    {
      UnitStep(pn.Length);
      Unit(pn.Length)
    }

    method Clear()
      modifies pn
      ensures Val() == 0 && forall i :: 0 <= i < pn.Length ==> pn[i] == 0
    {
      var i := 0;
      while i < pn.Length
        invariant 0 <= i <= pn.Length && forall j :: 0 <= j < i ==> pn[j] == 0
      {
        pn[i] := 0;
        i := i + 1;
      }
      ValueZeros(pn[..]);
    }

    method AddAssign(b: BaseUint)
      requires b.pn.Length == pn.Length
      modifies pn
      ensures Val() == (old(Val()) + old(b.Val())) % Size()
    {
      hide Unit, Low, High;
      ghost var x, y := pn[..], b.pn[..];
      var carry: Limb := 0;
      var i := 0;
      while i < pn.Length
        invariant 0 <= i <= pn.Length && carry <= 1
        invariant pn[i..] == x[i..] && b.pn[i..] == y[i..]
        invariant Value(pn[..i]) + carry * Unit(i) == Value(x[..i]) + Value(y[..i])
      {
        assert pn[i] == pn[i..][0] && b.pn[i] == b.pn[i..][0];
        ghost var before := pn[..];
        var n: Wide := carry + pn[i] + b.pn[i];
        pn[i] := Low(n);
        AddStep(before, pn[..], x, y, carry, n, i);
        carry := High(n);
        i := i + 1;
      }
      assert pn[..i] == pn[..] && x[..i] == x && y[..i] == y;
      Reduced(Val(), carry, Value(x) + Value(y), Size());
    }

    static lemma AddStep(s: seq<Limb>, t: seq<Limb>, x: seq<Limb>, y: seq<Limb>, carry: Limb, n: Wide, i: nat)
      requires i < |s| == |x| == |y| && n == carry + x[i] + y[i]
      requires t == s[i := Low(n)]
      requires Value(s[..i]) + carry * Unit(i) == Value(x[..i]) + Value(y[..i])
      ensures Value(t[..i + 1]) + High(n) * Unit(i + 1) == Value(x[..i + 1]) + Value(y[..i + 1])
    {
      hide Unit, Value, Low, High;
      ValuePrefix(t, i);
      ValuePrefix(x, i);
      ValuePrefix(y, i);
      assert t[..i] == s[..i];
      MulDistrib(Unit(i), x[i], y[i]);
      CarryStep(Value(s[..i]), Value(x[..i]) + Value(y[..i]), x[i] as int + y[i] as int, carry, Low(n), High(n), i);
    }

    /** = of a 64-bit number */
    method Assign(b: Wide)
      requires pn.Length >= 2
      modifies pn
      ensures Val() == b
    {
      hide Unit, Value, Low, High;
      pn[0] := Low(b);
      pn[1] := High(b);
      var i := 2;
      while i < pn.Length
        invariant 2 <= i <= pn.Length && pn[0] == Low(b) && pn[1] == High(b)
        invariant forall j :: 2 <= j < i ==> pn[j] == 0
      {
        pn[i] := 0;
        i := i + 1;
      }
      TwoLimbs(pn[..]);
      ValueZeros(pn[..][2..]);
    }

    static lemma TwoLimbs(s: seq<Limb>)
      requires |s| >= 2
      ensures Value(s) == s[0] + s[1] * BASE + Value(s[2..]) * 0x1_0000_0000_0000_0000
    {
      ValueHead(s);
      ValueHead(s[1..]);
      assert s[1..][1..] == s[2..];
    }

    method GetLow64() returns (r: Wide)
      requires pn.Length >= 2
      ensures r == Val() % 0x1_0000_0000_0000_0000
    {
      hide Unit, Value, BitOr;
      TwoLimbs(pn[..]);
      JoinLimbs(pn[0], pn[1], Value(pn[..][2..]));
      r := BitOr(pn[0], pn[1] as int * 0x1_0000_0000);
    }

    static lemma JoinLimbs(x: Limb, y: Limb, high: nat)
      ensures BitOr(x, y as int * BASE) == x + y * BASE < 0x1_0000_0000_0000_0000
      ensures (x + y * BASE + high * 0x1_0000_0000_0000_0000) % 0x1_0000_0000_0000_0000 == x + y * BASE
    {
      hide BitOr, Pow;
      var low := x as int + y as int * BASE;
      DivMod(low + high * 0x1_0000_0000_0000_0000, 0x1_0000_0000_0000_0000, high, low);
      TwoPowers();
      DivMod(y as int * BASE, BASE, y, 0);
      OrDisjoint(x, y as int * BASE, 32);
    }

    method EqualTo(b: Wide) returns (r: bool)
      requires pn.Length >= 2
      ensures r <==> Val() == b
    {
      hide Unit, Value, Low, High;
      TwoLimbs(pn[..]);
      var i := pn.Length;
      while i > 2
        invariant 2 <= i <= pn.Length && forall j :: i <= j < pn.Length ==> pn[j] == 0
      {
        i := i - 1;
        if pn[i] != 0 {
          HighLimb(pn[..][2..], i - 2);
          return false;
        }
      }
      ValueZeros(pn[..][2..]);
      TwoDigits(pn[0], pn[1], Low(b), High(b));
      return pn[1] == High(b) && pn[0] == Low(b);
    }

    static lemma TwoDigits(x0: Limb, x1: Limb, y0: Limb, y1: Limb)
      ensures x0 + x1 * BASE == y0 + y1 * BASE <==> x0 == y0 && x1 == y1
    {
    }

    static lemma HighLimb(s: seq<Limb>, i: nat)
      requires i < |s| && s[i] != 0
      ensures Value(s) > 0
    {
      ValueUpdate(s, i, 0);
      UnitStep(i);
      MulMono(1, s[i], Unit(i));
      assert (0 - s[i]) * Unit(i) == -(s[i] * Unit(i));
    }

    /** ++: carries past every limb that wraps to zero. */
    method Increment()
      requires pn.Length > 0
      modifies pn
      ensures Val() == (old(Val()) + 1) % Size()
    {
      hide Unit, Value;
      ghost var x := pn[..];
      ValueUpdate(pn[..], 0, Successor(pn[0]));
      UnitStep(0);
      assert Unit(0) == 1 by { UnitZero(); }
      pn[0] := Successor(pn[0]);
      assert pn[..] == x[0 := Successor(x[0])];
      var i := 0;
      while pn[i] == 0 && i < pn.Length - 1
        invariant 0 <= i < pn.Length
        invariant Value(pn[..]) + (if pn[i] == 0 then Unit(i + 1) else 0) == Value(x) + 1
      {
        ghost var s := pn[..];
        i := i + 1;
        pn[i] := Successor(pn[i]);
        assert pn[..] == s[i := Successor(s[i])];
        ValueUpdate(s, i, Successor(s[i]));
        UnitStep(i);
      }
      ValueBound(x);
      ValueBound(pn[..]);
      if pn[i] == 0 {
        Reduced(Value(pn[..]), 1, Value(x) + 1, Unit(pn.Length));
      } else {
        Reduced(Value(pn[..]), 0, Value(x) + 1, Unit(pn.Length));
      }
    }

    /** --: borrows past every limb that wraps to the largest. */
    method Decrement()
      requires pn.Length > 0
      modifies pn
      ensures Val() == (old(Val()) + Size() - 1) % Size()
    {
      hide Unit, Value;
      ghost var x := pn[..];
      ValueUpdate(pn[..], 0, Predecessor(pn[0]));
      UnitStep(0);
      assert Unit(0) == 1 by { UnitZero(); }
      pn[0] := Predecessor(pn[0]);
      assert pn[..] == x[0 := Predecessor(x[0])];
      var i := 0;
      while pn[i] == 0xffff_ffff && i < pn.Length - 1
        invariant 0 <= i < pn.Length
        invariant Value(pn[..]) == Value(x) - 1 + (if pn[i] == 0xffff_ffff then Unit(i + 1) else 0)
      {
        ghost var s := pn[..];
        i := i + 1;
        pn[i] := Predecessor(pn[i]);
        assert pn[..] == s[i := Predecessor(s[i])];
        ValueUpdate(s, i, Predecessor(s[i]));
        UnitStep(i);
      }
      ValueBound(x);
      ValueBound(pn[..]);
      var m := Unit(pn.Length);
      if pn[i] == 0xffff_ffff {
        Reduced(Value(pn[..]), 0, Value(x) + m - 1, m);
      } else {
        Reduced(Value(pn[..]), 1, Value(x) + m - 1, m);
      }
    }

    method Negated() returns (ret: BaseUint)
      requires pn.Length > 0
      ensures fresh(ret) && fresh(ret.pn) && ret.pn.Length == pn.Length
      ensures ret.Val() == if Val() == 0 then 0 else Size() - Val()
    {
      hide Unit, Value;
      ret := new BaseUint(pn.Length);
      var i := 0;
      while i < pn.Length
        invariant 0 <= i <= pn.Length
        invariant forall j :: 0 <= j < i ==> ret.pn[j] == 0xffff_ffff - pn[j]
      {
        ret.pn[i] := 0xffff_ffff - pn[i];
        i := i + 1;
      }
      ComplementValue(pn[..], ret.pn[..]);
      ret.Increment();
      if Val() == 0 {
        Reduced(0, 1, Size(), Size());
      } else {
        Reduced(Size() - Val(), 0, Size() - Val(), Size());
      }
    }

    static lemma {:induction false} ComplementValue(s: seq<Limb>, t: seq<Limb>)
      requires |s| == |t| && forall j :: 0 <= j < |s| ==> t[j] == 0xffff_ffff - s[j]
      ensures Value(s) + Value(t) + 1 == Unit(|s|)
    {
      if s == [] {
        UnitZero();
      } else {
        var n := |s| - 1;
        ComplementValue(s[..n], t[..n]);
        UnitStep(n);
        MulDistrib(Unit(n), s[n], t[n]);
      }
    }

    method SubAssign(b: BaseUint)
      requires b.pn.Length == pn.Length > 0
      modifies pn
      ensures Val() ==
        (if old(Val()) >= old(b.Val()) then old(Val()) - old(b.Val()) else old(Val()) + Size() - old(b.Val()))
    {
      hide Unit, Value;
      var minus := b.Negated();
      ghost var x, y := Val(), b.Val();
      AddAssign(minus);
      if y == 0 {
        Reduced(x, 0, x, Size());
      } else if x >= y {
        Reduced(x - y, 1, x + Size() - y, Size());
      } else {
        Reduced(x + Size() - y, 0, x + Size() - y, Size());
      }
    }

    /** *= of a 32-bit number */
    method MulAssignSmall(b32: Limb)
      modifies pn
      ensures Val() == (old(Val()) * b32) % Size()
    {
      hide Unit, Low, High;
      ghost var x := pn[..];
      var carry: Limb := 0;
      var i := 0;
      while i < pn.Length
        invariant 0 <= i <= pn.Length
        invariant pn[i..] == x[i..]
        invariant Value(pn[..i]) + carry * Unit(i) == Value(x[..i]) * b32
      {
        assert pn[i] == pn[i..][0];
        ghost var before := pn[..];
        ProductFits(carry, 0, b32, pn[i]);
        var n: Wide := carry + b32 * pn[i];
        pn[i] := Low(n);
        MulSmallStep(before, pn[..], x, b32, carry, n, i);
        carry := High(n);
        i := i + 1;
      }
      assert pn[..i] == pn[..] && x[..i] == x;
      Reduced(Val(), carry, Value(x) * b32, Size());
    }

    /** The largest carry, limb and product of two limbs add up to less than 2^64. */
    static lemma ProductFits(carry: Limb, c: Limb, a: Limb, b: Limb)
      ensures 0 <= a * b && carry + c + a * b < 0x1_0000_0000_0000_0000
    {
      MulBound(a, b, 0xffff_ffff, 0xffff_ffff);
    }

    static lemma MulSmallStep(s: seq<Limb>, t: seq<Limb>, x: seq<Limb>, b: Limb, carry: Limb, n: Wide, i: nat)
      requires i < |s| == |x| && 0 <= b * x[i] && n == carry + b * x[i]
      requires t == s[i := Low(n)]
      requires Value(s[..i]) + carry * Unit(i) == Value(x[..i]) * b
      ensures Value(t[..i + 1]) + High(n) * Unit(i + 1) == Value(x[..i + 1]) * b
    {
      hide Unit, Value, Low, High;
      ValuePrefix(t, i);
      ValuePrefix(x, i);
      assert t[..i] == s[..i];
      MulDistrib(b, Value(x[..i]), x[i] * Unit(i));
      assert x[i] * Unit(i) * b == b * x[i] * Unit(i) by { MulAssoc(b, x[i], Unit(i)); }
      CarryStep(Value(s[..i]), Value(x[..i]) * b, b * x[i], carry, Low(n), High(n), i);
    }

    method MulAssign(b: BaseUint)
      requires b.pn.Length == pn.Length
      modifies pn
      ensures Val() == if b.pn == pn then 0 else (old(Val()) * old(b.Val())) % Size()
    {
      hide Unit, Value, Partial;
      var a := new BaseUint.Copy(this);
      Clear();
      ghost var x, y := a.pn[..], b.pn[..];
      var j := 0;
      ghost var k: nat := 0;
      PartialStart(x, y, Size());
      while j < pn.Length
        invariant 0 <= j <= pn.Length
        invariant a.pn[..] == x && b.pn[..] == y
        invariant Partial(Val(), k, Size(), x[..j], y)
      {
        assert a.pn[j] == x[j];
        ghost var before := Val();
        ghost var more := AddProduct(b, a.pn[j], j);
        PartialStep(before, k, Val(), more, Size(), x, y, j);
        k := k + more;
        j := j + 1;
      }
      assert x[..j] == x;
      PartialEnd(Val(), k, Size(), x, y);
      if b.pn == pn {
        ValueZeros(y);
      }
    }

    /** v is x * y, short of k times m. */
    static ghost predicate Partial(v: nat, k: nat, m: nat, x: seq<Limb>, y: seq<Limb>) {
      v + k * m == Value(x) * Value(y)
    }

    static lemma PartialStart(x: seq<Limb>, y: seq<Limb>, m: nat)
      ensures Partial(0, 0, m, x[..0], y)
    {
      EmptyValue();
      assert x[..0] == [];
    }

    static lemma PartialStep(v: nat, k: nat, w: nat, more: nat, m: nat, x: seq<Limb>, y: seq<Limb>, j: nat)
      requires j < |x| && Partial(v, k, m, x[..j], y)
      requires w + more * m == v + x[j] * Value(y) * Unit(j)
      ensures Partial(w, k + more, m, x[..j + 1], y)
    {
      ValuePrefix(x, j);
      ProductStep(v, k, Value(x[..j]), x[j], Unit(j), Value(y), m, w, more);
    }

    static lemma PartialEnd(v: nat, k: nat, m: nat, x: seq<Limb>, y: seq<Limb>)
      requires v < m && Partial(v, k, m, x, y)
      ensures v == (Value(x) * Value(y)) % m
      ensures Value(y) == 0 ==> v == 0
    {
      Reduced(v, k, Value(x) * Value(y), m);
      if Value(y) == 0 { assert Value(x) * 0 == 0; SmallMod(0, m); }
    }

    static lemma ProductStep(v: nat, k: nat, a: nat, d: nat, u: nat, y: nat, m: nat, w: nat, more: nat)
      requires v + k * m == a * y && w + more * m == v + d * y * u
      ensures w + (k + more) * m == (a + d * u) * y
    {
      MulDistrib(m, k, more);
      MulDistrib(y, a, d * u);
      assert d * u * y == d * y * u by { MulAssoc(d, u, y); MulAssoc(d, y, u); assert u * y == y * u; }
    }

    /** The inner loop of *=: adds d * b, shifted up by j limbs. */
    method AddProduct(b: BaseUint, d: Limb, j: nat) returns (ghost more: nat)
      requires b.pn.Length == pn.Length && j < pn.Length
      requires b.pn == pn ==> forall i :: 0 <= i < pn.Length ==> pn[i] == 0
      modifies pn
      ensures b.pn[..] == old(b.pn[..])
      ensures Val() + more * Size() == old(Val()) + d * Value(b.pn[..]) * Unit(j)
    {
      hide Unit, Value, Low, High;
      ghost var s, y := pn[..], b.pn[..];
      var carry: Limb := 0;
      var i := 0;
      assert y[..0] == [];
      EmptyValue();
      while i + j < pn.Length
        invariant 0 <= i && i + j <= pn.Length
        invariant pn[i + j..] == s[i + j..] && b.pn[..] == y
        invariant b.pn == pn ==> carry == 0
        invariant Value(pn[..i + j]) + carry * Unit(i + j) == Value(s[..i + j]) + d * Value(y[..i]) * Unit(j)
      {
        assert pn[i + j] == pn[i + j..][0];
        ghost var before := pn[..];
        ProductFits(carry, pn[i + j], d, b.pn[i]);
        var n: Wide := carry + pn[i + j] + d * b.pn[i];
        pn[i + j] := Low(n);
        AddProductStep(before, pn[..], s, y, d, carry, n, i, j);
        carry := High(n);
        i := i + 1;
      }
      assert pn[..i + j] == pn[..] && s[..i + j] == s;
      more := carry + d * Value(y[i..]);
      ValueSplit(y, i);
      ghost var u := UnitAdd(i, j);
      OverflowPart(Value(pn[..]), carry, Size(), Value(s), d, Value(y[..i]), Value(y[i..]), Unit(i), Unit(j), u);
    }

    static lemma OverflowPart(w: nat, carry: nat, m: nat, v: nat, d: nat, low: nat, high: nat, ui: nat, uj: nat,
                              uij: nat)
      requires uij == ui * uj && uij == m
      requires w + carry * m == v + d * low * uj
      ensures 0 <= d * high && w + (carry + d * high) * m == v + d * (low + high * ui) * uj
    {
      MulMono(0, d, high);
      MulDistrib(m, carry, d * high);
      MulDistrib(d, low, high * ui);
      MulDistrib(uj, d * low, d * (high * ui));
      assert d * (high * ui) * uj == d * high * m by {
        MulAssoc(d, high, ui);
        MulAssoc(d * high, ui, uj);
      }
    }

    static lemma AddProductStep(p: seq<Limb>, t: seq<Limb>, s: seq<Limb>, y: seq<Limb>, d: Limb, carry: Limb, n: Wide,
                                i: nat, j: nat)
      requires i + j < |p| == |s| == |y| && 0 <= d * y[i] && n == carry + s[i + j] + d * y[i]
      requires t == p[i + j := Low(n)]
      requires Value(p[..i + j]) + carry * Unit(i + j) == Value(s[..i + j]) + d * Value(y[..i]) * Unit(j)
      ensures Value(t[..i + j + 1]) + High(n) * Unit(i + j + 1) ==
        Value(s[..i + j + 1]) + d * Value(y[..i + 1]) * Unit(j)
    {
      hide Unit, Value, Low, High;
      ValuePrefix(t, i + j);
      ValuePrefix(s, i + j);
      ValuePrefix(y, i);
      assert t[..i + j] == p[..i + j];
      var e := d * y[i];
      CarryStep(Value(p[..i + j]), Value(s[..i + j]) + d * Value(y[..i]) * Unit(j), s[i + j] as int + e, carry, Low(n),
                High(n), i + j);
      MulDistrib(Unit(i + j), s[i + j], e);
      var u := UnitAdd(i, j);
      MulDistrib(d, Value(y[..i]), y[i] * Unit(i));
      MulDistrib(Unit(j), d * Value(y[..i]), d * (y[i] * Unit(i)));
      assert d * (y[i] * Unit(i)) * Unit(j) == e * Unit(i + j) by {
        MulAssoc(d, y[i], Unit(i));
        MulAssoc(e, Unit(i), Unit(j));
      }
    }

    static lemma UnitAdd(i: nat, j: nat) returns (u: nat)
      ensures u == Unit(i + j) == Unit(i) * Unit(j)
    {
      u := Unit(i + j);
      PowAdd(BASE, i, j);
    }

    method CompareTo(b: BaseUint) returns (r: int)
      requires b.pn.Length == pn.Length
      ensures r == if Val() < b.Val() then -1 else if Val() > b.Val() then 1 else 0
    {
      hide Unit, Value;
      var i := pn.Length;
      while i > 0
        invariant 0 <= i <= pn.Length && pn[i..] == b.pn[i..]
      {
        i := i - 1;
        assert pn[i + 1..] == pn[..][i + 1..] && b.pn[i + 1..] == b.pn[..][i + 1..];
        if pn[i] < b.pn[i] {
          ValueOrder(pn[..], b.pn[..], i);
          return -1;
        }
        if pn[i] > b.pn[i] {
          ValueOrder(b.pn[..], pn[..], i);
          return 1;
        }
      }
      assert pn[..] == pn[0..] && b.pn[..] == b.pn[0..];
      return 0;
    }

    method ShiftLeftAssign(amount: nat)
      modifies pn
      ensures Val() == (old(Val()) * Pow(2, amount)) % Size()
    {
      hide Unit, Value, Pow, Shl, Shr, BitOr, Out, LeftOf;
      var a := new BaseUint.Copy(this);
      Clear();
      var k := amount / 32;
      var s := amount % 32;
      ghost var x := a.pn[..];
      var i := 0;
      OutNone(x, s);
      while i < pn.Length
        invariant 0 <= i <= pn.Length && a.pn[..] == x
        invariant forall j :: k <= j < i + k && j < pn.Length ==> pn[j] == Shl(x[j - k], s) + Out(x, s, j - k - 1)
        invariant i + k < pn.Length ==> pn[i + k] == Out(x, s, i - 1)
        invariant forall j :: 0 <= j < pn.Length && (j < k || i + k < j) ==> pn[j] == 0
      {
        assert a.pn[i] == x[i];
        ghost var t := pn[..];
        if i + k < pn.Length {
          OrOut(x, s, i);
        }
        if i + k + 1 < pn.Length && s != 0 {
          OrZero(Shr(a.pn[i], 32 - s));
          pn[i + k + 1] := BitOr(pn[i + k + 1], Shr(a.pn[i], 32 - s));
        }
        if i + k < pn.Length {
          assert pn[i + k] == t[i + k];
          pn[i + k] := BitOr(pn[i + k], Shl(a.pn[i], s));
        }
        i := i + 1;
      }
      LeftPlaced(pn[..], x, k, s);
      LeftShifted(pn[..], x, amount);
    }

    static lemma OutNone(a: seq<Limb>, s: nat)
      requires s < 32
      ensures |a| > 0 ==> Out(a, s, -1) == 0
    {
    }

    static lemma LeftPlaced(t: seq<Limb>, a: seq<Limb>, k: nat, s: nat)
      requires |t| == |a| && s < 32
      requires forall j :: k <= j < |t| ==> t[j] == Shl(a[j - k], s) + Out(a, s, j - k - 1)
      requires forall j :: 0 <= j < |t| && j < k ==> t[j] == 0
      ensures LeftOf(t, a, k, s)
    {
      hide Shl, Out;
    }

    static lemma OrOut(a: seq<Limb>, s: nat, i: nat)
      requires s < 32 && i < |a|
      ensures Shl(a[i], s) + Out(a, s, i - 1) < BASE
      ensures BitOr(Out(a, s, i - 1), Shl(a[i], s)) == Shl(a[i], s) + Out(a, s, i - 1)
      ensures Out(a, s, i) == if s != 0 then Shr(a[i], 32 - s) else 0
    {
      if i > 0 && s != 0 {
        OrParts(a[i], a[i - 1], s);
      } else {
        OrZero(Shl(a[i], s));
      }
    }

    method ShiftRightAssign(amount: nat)
      modifies pn
      ensures Pow(2, amount) > 0 && Val() == old(Val()) / Pow(2, amount)
    {
      hide Unit, Value, Pow, Shl, Shr, RightUpTo, RightOf;
      var a := new BaseUint.Copy(this);
      Clear();
      var k := amount / 32;
      var s := amount % 32;
      ghost var x := a.pn[..];
      RightNone(pn[..], x, k, s);
      var i := 0;
      while i < pn.Length
        invariant 0 <= i <= pn.Length && a.pn[..] == x
        invariant RightUpTo(pn[..], x, k, s, i)
      {
        PlaceRight(a, i, k, s);
        i := i + 1;
      }
      RightPlaced(pn[..], x, k, s);
      RightShifted(pn[..], x, amount);
    }

    /** The limbs that the first i limbs of a reach are in place. */
    static ghost predicate RightUpTo(t: seq<Limb>, a: seq<Limb>, k: nat, s: nat, i: nat) {
      && |t| == |a| && s < 32 && i <= |a|
      && (forall j :: 0 <= j < |t| && j + k + 1 < i ==> t[j] == Shr(a[j + k], s) + In(a, s, j + k + 1))
      && (0 <= i - k - 1 ==> t[i - k - 1] == Shr(a[i - 1], s))
      && (forall j :: 0 <= j < |t| && i <= j + k ==> t[j] == 0)
    }

    static lemma RightNone(t: seq<Limb>, a: seq<Limb>, k: nat, s: nat)
      requires |t| == |a| && s < 32 && forall j :: 0 <= j < |t| ==> t[j] == 0
      ensures RightUpTo(t, a, k, s, 0)
    {
    }

    /** One turn of the loop of >>=. */
    method PlaceRight(a: BaseUint, i: nat, k: nat, s: nat)
      requires a.pn != pn && i < pn.Length && RightUpTo(pn[..], a.pn[..], k, s, i)
      modifies pn
      ensures RightUpTo(pn[..], a.pn[..], k, s, i + 1)
    {
      hide Shl, Shr, BitOr, In;
      ghost var x := a.pn[..];
      if i - k - 1 >= 0 {
        OrIn(x, s, i);
      }
      if i - k - 1 >= 0 && s != 0 {
        pn[i - k - 1] := BitOr(pn[i - k - 1], Shl(a.pn[i], 32 - s));
      }
      if i - k >= 0 {
        OrZero(Shr(a.pn[i], s));
        pn[i - k] := BitOr(pn[i - k], Shr(a.pn[i], s));
      }
    }

    static lemma RightPlaced(t: seq<Limb>, a: seq<Limb>, k: nat, s: nat)
      requires RightUpTo(t, a, k, s, |t|)
      ensures RightOf(t, a, k, s)
    {
      hide Shr;
    }

    static lemma OrIn(a: seq<Limb>, s: nat, i: nat)
      requires s < 32 && 0 < i < |a|
      ensures Shr(a[i - 1], s) + In(a, s, i) < BASE
      ensures s != 0 ==> BitOr(Shr(a[i - 1], s), Shl(a[i], 32 - s)) == Shr(a[i - 1], s) + In(a, s, i)
      ensures s == 0 ==> In(a, s, i) == 0
    {
      if s != 0 {
        OrParts(a[i], a[i - 1], 32 - s);
        assert 32 - (32 - s) == s;
      }
    }

    /** The position of the highest bit set plus one, or zero if the value is zero. */
    method Bits() returns (r: nat)
      ensures BitCount(Val(), r)
      ensures r <= 32 * pn.Length
    {
      hide Unit, Value, Pow;
      var pos := pn.Length;
      while pos > 0
        invariant 0 <= pos <= pn.Length && forall j :: pos <= j < pn.Length ==> pn[j] == 0
      {
        pos := pos - 1;
        if pn[pos] != 0 {
          var bits := TopBit(pn[pos]);
          TopLimb(pn[..], pos, bits);
          return 32 * pos + bits + 1;
        }
      }
      ValueZeros(pn[..]);
      assert BitCount(0, 0) by { assert Pow(2, 0) == 1 by { PowZero(2); } }
      return 0;
    }

    static method TopBit(x: Limb) returns (bits: nat)
      requires x != 0
      ensures bits < 32 && Pow(2, bits) <= x < Pow(2, bits + 1)
    {
      hide Pow, BitAnd;
      bits := 31;
      TwoPowers();
      while bits > 0
        invariant 0 <= bits < 32 && x < Pow(2, bits + 1)
      {
        AndBit(x, bits);
        if BitAnd(x, Pow(2, bits)) != 0 {
          BitSet(x, Pow(2, bits));
          return;
        }
        PowDouble(bits);
        BitClear(x, Pow(2, bits));
        bits := bits - 1;
      }
      PowZero(2);
    }

    static lemma BitSet(x: nat, p: nat)
      requires p > 0 && x / p % 2 == 1
      ensures x >= p
    {
      if x < p { SmallMod(x, p); }
    }

    static lemma BitClear(x: nat, p: nat)
      requires p > 0 && x < 2 * p && x / p % 2 != 1
      ensures x < p
    {
      if x >= p { DivMod(x, p, 1, x - p); }
    }

    static lemma TopLimb(s: seq<Limb>, pos: nat, bits: nat)
      requires pos < |s| && forall j :: pos < j < |s| ==> s[j] == 0
      requires Pow(2, bits) <= s[pos] < Pow(2, bits + 1)
      ensures BitCount(Value(s), 32 * pos + bits + 1)
    {
      hide Pow, Value, Unit;
      ValueSplit(s, pos + 1);
      ValueZeros(s[pos + 1..]);
      ValuePrefix(s, pos);
      ValueBound(s[..pos]);
      var u, p := Unit(pos), Pow(2, bits);
      UnitStep(pos);
      UnitIsTwo(pos);
      PowAdd(2, 32 * pos, bits);
      PowAdd(2, 32 * pos, bits + 1);
      MulMono(p, s[pos], u);
      MulMono(s[pos] as int + 1, Pow(2, bits + 1), u);
      MulDistrib(u, s[pos], 1);
    }

    method SetBit(shift: nat)
      requires shift < 32 * pn.Length
      requires Pow(2, shift + 1) > 0 && Val() % Pow(2, shift + 1) == 0
      modifies pn
      ensures Val() == old(Val()) + Pow(2, shift)
    {
      hide Unit, Value, Pow, BitOr;
      ghost var s := pn[..];
      var i, r := shift / 32, shift % 32;
      LowBitsClear(s, i, r + 1);
      OneBit(s[i], r);
      pn[i] := BitOr(pn[i], Pow(2, r));
      assert pn[..] == s[i := pn[i]];
      ValueUpdate(s, i, pn[i]);
      ShiftAmount(shift);
    }

    static lemma OneBit(x: Limb, r: nat)
      requires r < 32 && Pow(2, r + 1) > 0 && x % Pow(2, r + 1) == 0
      ensures BitOr(x, Pow(2, r)) == x + Pow(2, r) < BASE
    {
      hide Pow, BitOr;
      var q := Pow(2, r + 1);
      PowDouble(r);
      OrDisjoint(Pow(2, r), x, r + 1);
      HalfPowers(r + 1);
      // x is a multiple of q below BASE = q * c, so it is at most BASE - q
      var k, c := x / q, Pow(2, 32 - (r + 1));
      assert x == q * k;
      if k >= c { MulMono(c, k, q); }
      MulMono(k + 1, c, q);
      MulDistrib(q, k, 1);
    }

    /** Shift and subtract. A division by zero throws, after the quotient was set to zero. */
    method DivAssign(b: BaseUint) returns (ok: bool)
      requires b.pn.Length == pn.Length > 0
      modifies pn
      ensures ok <==> old(b.Val()) != 0
      ensures Val() == if ok then old(Val()) / old(b.Val()) else 0
    {
      hide Unit, Value, Pow, DivInv;
      ghost var n, d := Val(), b.Val();
      var div := new BaseUint.Copy(b);
      var num := new BaseUint.Copy(this);
      Clear();
      var numBits := num.Bits();
      var divBits := div.Bits();
      NoBits(d, divBits);
      if divBits == 0 {
        return false;
      }
      if divBits > numBits {
        FewerBits(n, d, numBits, divBits);
        return true;
      }
      var shift := numBits - divBits;
      Aligned(n, d, numBits, divBits, Size(), pn.Length);
      div.ShiftLeftAssign(shift);
      while shift >= 0
        invariant -1 <= shift < 32 * pn.Length
        invariant DivInv(Val(), d, num.Val(), n, shift + 1)
        invariant shift >= 0 ==> div.Val() == d * Pow(2, shift)
      {
        var c := num.CompareTo(div);
        if c >= 0 {
          DivTake(Val(), d, num.Val(), n, shift);
          num.SubAssign(div);
          SetBit(shift);
        } else {
          DivSkip(Val(), d, num.Val(), n, shift);
        }
        div.ShiftRightAssign(1);
        if shift > 0 { Halved(d, shift); }
        shift := shift - 1;
      }
      DivDone(Val(), d, num.Val(), n);
      return true;
    }
  }

  // ------------------------------------------------------------ bit counts

  ghost predicate BitCount(v: nat, r: nat) { v < Pow(2, r) && (r > 0 ==> Pow(2, r - 1) <= v) }

  lemma PowZero(b: nat)
    ensures Pow(b, 0) == 1
  {
  }

  lemma PowDouble(e: nat)
    ensures Pow(2, e + 1) == 2 * Pow(2, e) && Pow(2, e) > 0
  {
    PowPositive(2, e);
  }

  lemma NoBits(v: nat, r: nat)
    requires BitCount(v, r)
    ensures r == 0 <==> v == 0
  {
    if r > 0 { PowPositive(2, r - 1); } else { PowZero(2); }
  }

  lemma FewerBits(n: nat, d: nat, nb: nat, db: nat)
    requires BitCount(n, nb) && BitCount(d, db) && nb < db
    ensures d > 0 && n / d == 0
  {
    PowMono(2, nb, db - 1);
    SmallMod(n, d);
  }

  // ------------------------------------------------------------ long division

  /** The quotient so far, whose lowest e bits are open, accounts for all but num, which is
      less than the divisor shifted to the lowest bit decided. */
  ghost predicate DivInv(q: nat, d: nat, num: nat, n: nat, e: nat) {
    Pow(2, e) > 0 && q % Pow(2, e) == 0 && q * d + num == n && num < d * Pow(2, e)
  }

  lemma Aligned(n: nat, d: nat, nb: nat, db: nat, m: nat, width: nat)
    requires BitCount(n, nb) && BitCount(d, db) && 0 < db <= nb <= 32 * width && m == Unit(width)
    ensures DivInv(0, d, n, n, nb - db + 1)
    ensures m > 0 && d * Pow(2, nb - db) % m == d * Pow(2, nb - db)
  {
    hide Pow;
    var shift := nb - db;
    PowPositive(2, shift + 1);
    SmallMod(0, Pow(2, shift + 1));
    PowAdd(2, db - 1, shift + 1);
    MulMono(Pow(2, db - 1), d, Pow(2, shift + 1));
    PowAdd(2, db, shift);
    PowPositive(2, shift);
    MulMono(d + 1, Pow(2, db), Pow(2, shift));
    MulDistrib(Pow(2, shift), d, 1);
    UnitIsTwo(width);
    PowMono(2, nb, 32 * width);
    SmallMod(d * Pow(2, shift), m);
  }

  lemma MultipleHalf(q: nat, p: nat)
    requires p > 0 && q % (2 * p) == 0
    ensures q % p == 0 && (q + p) % p == 0
  {
    var k := q / (2 * p);
    assert q == k * (2 * p);
    assert k * (2 * p) == 2 * k * p by { MulAssoc(k, 2, p); }
    DivMod(q, p, 2 * k, 0);
    MulDistrib(p, 2 * k, 1);
    DivMod(q + p, p, 2 * k + 1, 0);
  }

  lemma DivTake(q: nat, d: nat, num: nat, n: nat, e: nat)
    requires DivInv(q, d, num, n, e + 1) && num >= d * Pow(2, e)
    ensures Pow(2, e + 1) > 0 && q % Pow(2, e + 1) == 0
    ensures DivInv(q + Pow(2, e), d, num - d * Pow(2, e), n, e)
  {
    hide Pow;
    PowDouble(e);
    var p := Pow(2, e);
    MultipleHalf(q, p);
    MulDistrib(d, q, p);
    assert d * (2 * p) == 2 * (d * p) by { MulAssoc(d, 2, p); MulAssoc(2, d, p); }
  }

  lemma DivSkip(q: nat, d: nat, num: nat, n: nat, e: nat)
    requires DivInv(q, d, num, n, e + 1) && num < d * Pow(2, e)
    ensures DivInv(q, d, num, n, e)
  {
    hide Pow;
    PowDouble(e);
    MultipleHalf(q, Pow(2, e));
  }

  lemma Halved(d: nat, shift: nat)
    requires shift > 0
    ensures Pow(2, 1) > 0 && d * Pow(2, shift) / Pow(2, 1) == d * Pow(2, shift - 1)
  {
    PowDouble(shift - 1);
    PowDouble(0);
    PowZero(2);
    var p := Pow(2, shift - 1);
    assert d * (2 * p) == 2 * (d * p) by { MulAssoc(d, 2, p); MulAssoc(2, d, p); }
  }

  lemma DivDone(q: nat, d: nat, num: nat, n: nat)
    requires DivInv(q, d, num, n, 0)
    ensures d > 0 && q == n / d && num == n % d
  {
    PowZero(2);
    DivMod(n, d, q, num);
  }

  function Successor(x: Limb): Limb { if x == 0xffff_ffff then 0 else x + 1 }

  function Predecessor(x: Limb): Limb { if x == 0 then 0xffff_ffff else x - 1 }
}
