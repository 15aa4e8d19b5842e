/**
 The compact form of a 256-bit number: an exponent of base 256 in the top byte, a sign bit and
 a 23-bit mantissa.
 */
module Compact {
  import opened Arithmetic
  import opened Limbs
  import opened ArithUint

  const LIMIT: nat := Pow(2, 256)

  function Exponent(c: Limb): (e: nat)
    ensures e < 256
  {
    c / 0x100_0000
  }

  function Mantissa(c: Limb): (m: nat)
    ensures m < 0x80_0000
  {
    c % 0x80_0000
  }

  predicate Sign(c: Limb) { c / 0x80_0000 % 2 == 1 }

  /** The magnitude that a compact form stands for, without any bound on its size. */
  ghost function Magnitude(c: Limb): nat {
    PowPositive(256, 3);
    if Exponent(c) <= 3
    then (PowPositive(256, 3 - Exponent(c)); Mantissa(c) / Pow(256, 3 - Exponent(c)))
    else Mantissa(c) * Pow(256, Exponent(c) - 3)
  }

  // ------------------------------------------------------------ SetCompact

  method SetCompact(a: BaseUint, nCompact: Limb) returns (fNegative: bool, fOverflow: bool)
    requires a.pn.Length == 8
    modifies a.pn
    ensures LIMIT > 0 && a.Val() == Magnitude(nCompact) % LIMIT
    ensures fNegative <==> Magnitude(nCompact) != 0 && Sign(nCompact)
    ensures fOverflow <==> Magnitude(nCompact) >= LIMIT
  {
    hide Pow, BitAnd;
    var nSize := nCompact / 0x100_0000;
    Fields(nCompact);
    var nWord: Limb := BitAnd(nCompact, 0x007f_ffff);
    PowPositive(2, 256);
    UnitIsTwo(8);
    if nSize <= 3 {
      Bytes(3 - nSize);
      WordFits(nWord, 3 - nSize);
      nWord := nWord / Pow(2, 8 * (3 - nSize));
      a.Assign(nWord);
      PowMono(2, 23, 256);
      SmallMod(nWord, LIMIT);
    } else {
      a.Assign(nWord);
      a.ShiftLeftAssign(8 * (nSize - 3));
      Bytes(nSize - 3);
    }
    fNegative := nWord != 0 && BitAnd(nCompact, 0x0080_0000) != 0;
    fOverflow := nWord != 0 && (nSize > 34 || (nWord > 0xff && nSize > 33) || (nWord > 0xffff && nSize > 32));
    if nSize > 3 {
      OverflowExact(nWord, nSize);
      NonZero(nWord, Pow(256, nSize - 3));
      PowPositive(256, nSize - 3);
    }
  }

  lemma Fields(c: Limb)
    ensures BitAnd(c, 0x007f_ffff) == Mantissa(c)
    ensures BitAnd(c, 0x0080_0000) != 0 <==> Sign(c)
  {
    TwoPowers();
    AndMask(c, 23);
    AndBit(c, 23);
  }

  lemma Bytes(n: nat)
    ensures Pow(2, 8 * n) == Pow(256, n) && Pow(256, n) > 0
  {
    TwoPowers();
    PowPow(2, 8, n);
    PowPositive(256, n);
  }

  lemma WordFits(w: nat, n: nat)
    requires w < 0x80_0000
    ensures Pow(2, 8 * n) > 0 && 0 <= w / Pow(2, 8 * n) < 0x80_0000
    ensures 0x80_0000 == Pow(2, 23)
  {
    PowPositive(2, 8 * n);
    TwoPowers();
    var p := Pow(2, 8 * n);
    if w / p > w { MulMono(w + 1, w / p, p); MulMono(1, p, w + 1); }
  }

  lemma NonZero(x: nat, y: nat)
    requires y > 0
    ensures x * y == 0 <==> x == 0
  {
    if x > 0 { MulPositive(x, y); }
  }

  /** The three tests on size and mantissa are exactly "does not fit in 256 bits". */
  lemma OverflowExact(w: nat, size: nat)
    requires w < 0x80_0000 && size > 3
    ensures w * Pow(256, size - 3) >= LIMIT <==>
            w != 0 && (size > 34 || (w > 0xff && size > 33) || (w > 0xffff && size > 32))
  {
    hide Pow;
    Bytes(32);
    var p := Pow(256, size - 3);
    SmallBytes();
    PowAdd(256, 3, 29);
    PowAdd(256, 2, 30);
    PowAdd(256, 1, 31);
    if size <= 32 {
      PowMono(256, size - 3, 29);
      MulMono(w, 0x100_0000 - 1, p);
      MulMono(p, Pow(256, 29), 0x100_0000 - 1);
      PowPositive(256, 29);
    } else if size == 33 {
      PowPositive(256, 30);
      if w > 0xffff { MulMono(0x1_0000, w, p); } else { MulMono(w, 0xffff, p); }
    } else if size == 34 {
      PowPositive(256, 31);
      if w > 0xff { MulMono(0x100, w, p); } else { MulMono(w, 0xff, p); }
    } else if w != 0 {
      PowMono(256, 32, size - 3);
      MulMono(1, w, p);
    }
  }

  lemma SmallBytes()
    ensures Pow(256, 0) == 1 && Pow(256, 1) == 0x100 && Pow(256, 2) == 0x1_0000 && Pow(256, 3) == 0x100_0000
  {
    assert Pow(256, 1) == 256 * Pow(256, 0);
    assert Pow(256, 2) == 256 * Pow(256, 1);
    assert Pow(256, 3) == 256 * Pow(256, 2);
  }

  // ------------------------------------------------------------ GetCompact

  /** The first three bytes of v when it is written with e bytes. */
  ghost function Scaled(v: nat, e: nat): (r: nat) {
    PowPositive(256, e);
    v * Pow(256, 3) / Pow(256, e)
  }

  /** c is the compact form of v: the mantissa is the first three bytes of v for the least
      exponent at which they leave the sign bit free, and a zero has no sign. */
  ghost predicate IsCompact(v: nat, fNegative: bool, c: Limb) {
    && Mantissa(c) == Scaled(v, Exponent(c))
    && (Exponent(c) > 0 ==> Scaled(v, Exponent(c) - 1) >= 0x80_0000)
    && (Sign(c) <==> fNegative && Mantissa(c) != 0)
  }

  method GetCompact(a: BaseUint, fNegative: bool) returns (nCompact: Limb)
    requires a.pn.Length == 8
    ensures IsCompact(a.Val(), fNegative, nCompact)
  {
    hide Pow, BitAnd, BitOr, IsCompact, Scaled;
    ghost var v := a.Val();
    var bits := a.Bits();
    var nSize := (bits + 7) / 8;
    BytesOf(v, bits);
    if nSize <= 3 {
      var low := a.GetLow64();
      ShortForm(v, nSize);
      nCompact := low * Pow(2, 8 * (3 - nSize)) % 0x1_0000_0000;
    } else {
      var bn := new BaseUint.Copy(a);
      bn.ShiftRightAssign(8 * (nSize - 3));
      LongForm(v, nSize);
      nCompact := bn.GetLow64();
    }
    assert nCompact == Scaled(v, nSize) < 0x100_0000;
    TwoPowers();
    AndBit(nCompact, 23);
    if BitAnd(nCompact, 0x0080_0000) != 0 {
      OneByteMore(v, nSize);
      nCompact := nCompact / 0x100;
      nSize := nSize + 1;
    } else {
      SignBitFree(nCompact);
    }
    AndDisjoint(nCompact, 0xff80_0000, 23);
    assert BitAnd(nCompact, 0xff80_0000) == 0;
    assert nSize < 256;
    ghost var m := nCompact;
    Pack(m, nSize);
    nCompact := BitOr(nCompact, nSize * 0x100_0000);
    if fNegative && BitAnd(nCompact, 0x007f_ffff) != 0 {
      nCompact := BitOr(nCompact, 0x0080_0000);
    }
    Packed(v, fNegative, nSize, m, nCompact);
  }

  lemma BytesOf(v: nat, bits: nat)
    requires BitCount(v, bits)
    ensures v < Pow(256, (bits + 7) / 8)
    ensures (bits + 7) / 8 > 0 ==> Pow(256, (bits + 7) / 8 - 1) <= v
  {
    hide Pow;
    var n := (bits + 7) / 8;
    Bytes(n);
    PowMono(2, bits, 8 * n);
    if n > 0 {
      Bytes(n - 1);
      PowMono(2, 8 * (n - 1), bits - 1);
    }
  }

  lemma ShortForm(v: nat, n: nat)
    requires n <= 3 && v < Pow(256, n) && (n > 0 ==> Pow(256, n - 1) <= v)
    ensures v % 0x1_0000_0000_0000_0000 == v
    ensures v * Pow(2, 8 * (3 - n)) % 0x1_0000_0000 == Scaled(v, n) < 0x100_0000
    ensures n > 0 ==> Scaled(v, n - 1) >= 0x80_0000
  {
    SmallBytes();
    hide Pow;
    Bytes(3 - n);
    PowAdd(256, 3 - n, n);
    PowPositive(256, n);
    PowPositive(256, 3 - n);
    var p, q := Pow(256, 3 - n), Pow(256, n);
    PowMono(256, n, 3);
    MulAssoc(v, p, q);
    MulMono(v + 1, q, p);
    MulDistrib(p, v, 1);
    assert q * p == p * q;
    MulMono(0, v, p);
    DivMod(v * Pow(256, 3), q, v * p, 0);
    if n > 0 {
      var r := Pow(256, n - 1);
      PowPositive(256, n - 1);
      MulMono(r, v, 0x100_0000);
      MulMono(0, v, 0x100_0000);
      DivAtLeast(v * 0x100_0000, r, 0x100_0000);
    }
  }

  lemma DivAtLeast(x: nat, d: nat, k: nat)
    requires d > 0 && k * d <= x
    ensures x / d >= k
  {
    if x / d < k { MulMono(x / d + 1, k, d); MulDistrib(d, x / d, 1); }
  }

  lemma DivBelow(x: nat, d: nat, k: nat)
    requires d > 0 && x < k * d
    ensures 0 <= x / d < k
  {
    if x / d >= k { MulMono(k, x / d, d); }
  }

  /** Multiplying both by p does not change a quotient. */
  lemma DivCancel(x: nat, d: nat, p: nat)
    requires d > 0 && p > 0
    ensures d * p > 0 && 0 <= x * p && x * p / (d * p) == x / d
  {
    MulPositive(d, p);
    MulMono(0, x, p);
    var q, r := x / d, x % d;
    assert x * p == q * (d * p) + r * p by { MulDistrib(p, q * d, r); MulAssoc(q, d, p); }
    MulMono(r + 1, d, p);
    MulDistrib(p, r, 1);
    MulMono(0, r, p);
    DivMod(x * p, d * p, q, r * p);
  }

  lemma LongForm(v: nat, n: nat)
    requires n > 3 && v < Pow(256, n) && Pow(256, n - 1) <= v
    ensures Pow(2, 8 * (n - 3)) > 0 && 0 <= v / Pow(2, 8 * (n - 3))
    ensures v / Pow(2, 8 * (n - 3)) % 0x1_0000_0000_0000_0000 == Scaled(v, n) < 0x100_0000
    ensures Scaled(v, n - 1) >= 0x80_0000
  {
    SmallBytes();
    hide Pow;
    Bytes(n - 3);
    PowAdd(256, n - 3, 3);
    DivCancel(v, Pow(256, n - 3), Pow(256, 3));
    assert Pow(256, 3) * Pow(256, n - 3) == Pow(256, n);
    DivBelow(v, Pow(256, n - 3), Pow(256, 3));
    Bytes(n - 1);
    MulMono(Pow(256, n - 1), v, 0x100_0000);
    MulMono(0, v, 0x100_0000);
    DivAtLeast(v * 0x100_0000, Pow(256, n - 1), 0x100_0000);
  }

  lemma SignBitFree(x: nat)
    requires x < 0x100_0000 && x / 0x80_0000 % 2 != 1
    ensures x < 0x80_0000
  {
  }

  lemma OneByteMore(v: nat, n: nat)
    ensures Scaled(v, n + 1) == Scaled(v, n) / 0x100
    ensures Scaled(v, n) < 0x100_0000 ==> Scaled(v, n + 1) < 0x80_0000
  {
    hide Pow;
    PowPositive(256, n);
    SmallBytes();
    PowAdd(256, n, 1);
    MulMono(0, v, 0x100_0000);
    DivDiv(v * Pow(256, 3), Pow(256, n), 256);
  }

  lemma Pack(m: nat, e: nat)
    requires m < 0x80_0000 && e < 256
    ensures BitOr(m, e * 0x100_0000) == e * 0x100_0000 + m
    ensures BitAnd(e * 0x100_0000 + m, 0x007f_ffff) == m
    ensures BitOr(e * 0x100_0000 + m, 0x0080_0000) == e * 0x100_0000 + m + 0x80_0000
  {
    TwoPowers();
    hide Pow;
    var x := e * 0x100_0000 + m;
    DivMod(e * 0x100_0000, 0x100_0000, e, 0);
    OrDisjoint(m, e * 0x100_0000, 24);
    AndMask(x, 23);
    DivMod(x, 0x80_0000, 2 * e, m);
    AndBit(x, 23);
    OrIsSum(x, 0x80_0000);
  }

  lemma Packed(v: nat, fNegative: bool, e: nat, m: nat, c: Limb)
    requires m < 0x80_0000 && e < 256
    requires c == e * 0x100_0000 + m + (if fNegative && m != 0 then 0x80_0000 else 0)
    requires m == Scaled(v, e) && (e > 0 ==> Scaled(v, e - 1) >= 0x80_0000)
    ensures IsCompact(v, fNegative, c)
  {
    hide Scaled;
  }

  // ------------------------------------------------------------ round trips

  lemma ScaledMono(v: nat, d: nat, e: nat)
    requires d <= e
    ensures Scaled(v, e) <= Scaled(v, d)
    decreases e
  {
    if d < e {
      ScaledMono(v, d, e - 1);
      OneByteMore(v, e - 1);
    }
  }

  lemma CompactIsUnique(v: nat, fNegative: bool, c: Limb, d: Limb)
    requires IsCompact(v, fNegative, c) && IsCompact(v, fNegative, d)
    ensures c == d
  {
    hide Scaled;
    if Exponent(c) < Exponent(d) {
      ScaledMono(v, Exponent(c), Exponent(d) - 1);
    } else if Exponent(d) < Exponent(c) {
      ScaledMono(v, Exponent(d), Exponent(c) - 1);
    }
    FieldsAreAll(c);
    FieldsAreAll(d);
  }

  lemma FieldsAreAll(c: Limb)
    ensures c == Exponent(c) * 0x100_0000 + (if Sign(c) then 0x80_0000 else 0) + Mantissa(c)
  {
  }

  /** Reading the compact form back loses less than one unit of the last byte kept, and nothing
      when all bytes are kept; the sign comes back unless the number is zero. */
  lemma CompactLoss(v: nat, fNegative: bool, c: Limb)
    requires IsCompact(v, fNegative, c)
    ensures Magnitude(c) <= v
    ensures Exponent(c) >= 3 ==> v - Magnitude(c) < Pow(256, Exponent(c) - 3)
    ensures Exponent(c) <= 3 ==> Magnitude(c) == v
    ensures Magnitude(c) == 0 <==> v == 0
    ensures Sign(c) <==> fNegative && v != 0
  {
    SmallBytes();
    var e := Exponent(c);
    if e <= 3 {
      hide Pow;
      ShortLoss(v, e);
    } else {
      hide Pow;
      LongLoss(v, e);
    }
  }

  lemma ShortLoss(v: nat, e: nat)
    requires e <= 3
    ensures Pow(256, 3 - e) > 0 && Scaled(v, e) / Pow(256, 3 - e) == v
    ensures Scaled(v, e) == 0 <==> v == 0
  {
    hide Pow;
    PowAdd(256, 3 - e, e);
    PowPositive(256, e);
    PowPositive(256, 3 - e);
    var p, q := Pow(256, 3 - e), Pow(256, e);
    MulAssoc(v, p, q);
    MulMono(0, v, p);
    DivMod(v * Pow(256, 3), q, v * p, 0);
    DivMod(v * p, p, v, 0);
    NonZero(v, p);
  }

  lemma LongLoss(v: nat, e: nat)
    requires e > 3 && Scaled(v, e - 1) >= 0x80_0000
    ensures 0 <= Scaled(v, e) * Pow(256, e - 3) <= v < Scaled(v, e) * Pow(256, e - 3) + Pow(256, e - 3)
    ensures Scaled(v, e) > 0
  {
    OneByteMore(v, e - 1);
    hide Pow;
    PowPositive(256, e - 3);
    PowPositive(256, 3);
    PowAdd(256, e - 3, 3);
    DivCancel(v, Pow(256, e - 3), Pow(256, 3));
    assert Scaled(v, e) == v / Pow(256, e - 3);
  }

  /** A number that a compact form without overflow stands for comes back unchanged. */
  lemma CompactNumbersAreKept(d: Limb, fNegative: bool, c: Limb)
    requires Magnitude(d) < LIMIT && IsCompact(Magnitude(d), fNegative, c)
    ensures Magnitude(c) == Magnitude(d)
  {
    var v := Magnitude(d);
    CompactLoss(v, fNegative, c);
    var e, s := Exponent(c), Exponent(d);
    if e > 3 {
      if s <= 3 {
        WordFits(Mantissa(d), 3 - s);
        Bytes(3 - s);
        ScaledMono(v, 3, e - 1);
        SmallBytes();
        DivMod(v * 0x100_0000, 0x100_0000, v, 0);
        assert false;
      }
      ScaledExact(Mantissa(d), s);
      if s < e { ScaledMono(v, s, e - 1); assert false; }
      NoLoss(Mantissa(d), s, e);
    }
  }

  lemma ScaledExact(w: nat, s: nat)
    requires s > 3
    ensures 0 <= w * Pow(256, s - 3) && Scaled(w * Pow(256, s - 3), s) == w
  {
    hide Pow;
    PowAdd(256, s - 3, 3);
    PowPositive(256, s);
    MulMono(0, w, Pow(256, s - 3));
    MulAssoc(w, Pow(256, s - 3), Pow(256, 3));
    DivMod(w * Pow(256, s), Pow(256, s), w, 0);
  }

  lemma NoLoss(w: nat, s: nat, e: nat)
    requires 3 < e <= s
    ensures 0 <= w * Pow(256, s - 3)
    ensures Scaled(w * Pow(256, s - 3), e) * Pow(256, e - 3) == w * Pow(256, s - 3)
  {
    hide Pow;
    PowAdd(256, s - e, e - 3);
    PowAdd(256, e - 3, 3);
    PowPositive(256, e - 3);
    PowPositive(256, 3);
    MulMono(0, w, Pow(256, s - 3));
    var v, u := w * Pow(256, s - 3), Pow(256, e - 3);
    DivCancel(v, u, Pow(256, 3));
    MulAssoc(w, Pow(256, s - e), u);
    PowPositive(256, s - e);
    MulMono(0, w, Pow(256, s - e));
    DivMod(v, u, w * Pow(256, s - e), 0);
  }
}
