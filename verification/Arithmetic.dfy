/** Powers, division, and the bitwise operators of unsigned integers. */
module Arithmetic {

  function Pow(b: nat, e: nat): nat { if e == 0 then 1 else b * Pow(b, e - 1) }

  lemma {:induction false} PowPositive(b: nat, e: nat)
    requires b > 0
    ensures Pow(b, e) > 0
  {
    if e > 0 { PowPositive(b, e - 1); MulPositive(b, Pow(b, e - 1)); }
  }

  lemma MulPositive(x: nat, y: nat)
    requires x > 0 && y > 0
    ensures x * y > 0
  {
  }

  lemma MulAssoc(x: int, y: int, z: int)
    ensures x * (y * z) == (x * y) * z
  {
  }

  lemma MulDistrib(x: int, y: int, z: int)
    ensures x * (y + z) == x * y + x * z
    ensures (y + z) * x == y * x + z * x
  {
  }

  lemma MulSub(x: int, y: int, z: int)
    ensures (y - z) * x == y * x - z * x && x * (y - z) == x * y - x * z
  {
  }

  lemma MulMono(x: int, y: int, z: int)
    requires x <= y && 0 <= z
    ensures x * z <= y * z && z * x <= z * y
  {
  }

  lemma MulBound(x: nat, y: nat, m: nat, n: nat)
    requires x <= m && y <= n
    ensures 0 <= x * y <= m * n
  {
    MulMono(0, x, y);
    MulMono(x, m, y);
    MulMono(y, n, m);
  }

  lemma {:induction false} PowAdd(b: nat, m: nat, n: nat)
    ensures Pow(b, m + n) == Pow(b, m) * Pow(b, n)
  {
    if m > 0 {
      PowAdd(b, m - 1, n);
      MulAssoc(b, Pow(b, m - 1), Pow(b, n));
    }
  }

  lemma {:induction false} PowPow(b: nat, m: nat, n: nat)
    ensures 0 <= m * n
    ensures Pow(Pow(b, m), n) == Pow(b, m * n)
  {
    if n > 0 {
      PowPow(b, m, n - 1);
      assert m * n == m + m * (n - 1) by { MulDistrib(m, 1, n - 1); }
      PowAdd(b, m, m * (n - 1));
    }
  }

  lemma PowMono(b: nat, m: nat, n: nat)
    requires b > 0 && m <= n
    ensures Pow(b, m) <= Pow(b, n)
  {
    PowAdd(b, m, n - m);
    PowPositive(b, n - m);
    PowPositive(b, m);
    MulMono(1, Pow(b, n - m), Pow(b, m));
  }

  lemma PowStrict(b: nat, m: nat, n: nat)
    requires b > 1 && m < n
    ensures Pow(b, m) < Pow(b, n)
  {
    PowPositive(b, m);
    MulMono(2, b, Pow(b, m));
    PowMono(b, m + 1, n);
  }

  lemma {:induction false} PowMulBase(a: nat, b: nat, e: nat)
    ensures Pow(a * b, e) == Pow(a, e) * Pow(b, e)
  {
    if e > 0 {
      PowMulBase(a, b, e - 1);
      var x, y := Pow(a, e - 1), Pow(b, e - 1);
      assert (a * b) * (x * y) == (a * x) * (b * y) by {
        MulAssoc(a * b, x, y);
        MulAssoc(a, b, x);
        MulAssoc(a, x, b);
        MulAssoc(a * x, b, y);
        assert b * x == x * b;
      }
    }
  }

  lemma {:induction false} PowBaseMono(a: nat, b: nat, e: nat)
    requires a <= b
    ensures Pow(a, e) <= Pow(b, e)
  {
    if e > 0 {
      PowBaseMono(a, b, e - 1);
      MulMono(a, b, Pow(a, e - 1));
      MulMono(Pow(a, e - 1), Pow(b, e - 1), b);
    }
  }

  /** Quotient and remainder are the only pair that fits. */
  lemma DivMod(a: nat, d: nat, q: nat, r: nat)
    requires a == q * d + r && r < d
    ensures a / d == q && a % d == r
  {
    var q1, r1 := a / d, a % d;
    assert a == q1 * d + r1;
    if q1 < q {
      MulMono(q1 + 1, q, d);
      MulDistrib(d, q1, 1);
    } else if q < q1 {
      MulMono(q + 1, q1, d);
      MulDistrib(d, q, 1);
    }
  }

  lemma DivDiv(a: nat, d: nat, e: nat)
    requires d > 0 && e > 0
    ensures d * e > 0 && a / d / e == a / (d * e)
  {
    MulPositive(d, e);
    var q, r := a / d, a % d;
    var p, s := q / e, q % e;
    assert a == (p * e + s) * d + r;
    MulDistrib(d, p * e, s);
    assert p * e * d == p * (d * e) by { MulAssoc(p, e, d); assert e * d == d * e; }
    assert s * d + r < d * e by { MulMono(s, e - 1, d); MulDistrib(d, e, -1); assert d * e == e * d; }
    DivMod(a, d * e, p, s * d + r);
  }

  lemma ModAdd(a: nat, m: nat, k: nat)
    requires m > 0
    ensures 0 <= k * m && (a + k * m) % m == a % m && (a + k * m) / m == a / m + k
  {
    var q, r := a / m, a % m;
    MulDistrib(m, q, k);
    MulMono(0, k, m);
    DivMod(a + k * m, m, q + k, r);
  }

  lemma SmallMod(a: nat, m: nat)
    requires a < m
    ensures a % m == a && a / m == 0
  {
    DivMod(a, m, 0, a);
  }

  lemma TwoPowers()
    ensures Pow(2, 8) == 0x100 && Pow(2, 16) == 0x1_0000 && Pow(2, 24) == 0x100_0000 && Pow(2, 32) == 0x1_0000_0000
    ensures Pow(2, 23) == 0x80_0000 && Pow(2, 15) == 0x8000 && Pow(2, 7) == 0x80
  {
    assert Pow(2, 4) == 16;
    assert Pow(2, 3) == 8;
    PowAdd(2, 4, 4);
    PowAdd(2, 8, 8);
    PowAdd(2, 8, 16);
    PowAdd(2, 16, 16);
    PowAdd(2, 3, 4);
    PowAdd(2, 7, 8);
    PowAdd(2, 8, 15);
  }

  // ------------------------------------------------------------ bits

  function BitOr(x: nat, y: nat): nat
    decreases x + y
  {
    if x == 0 && y == 0 then 0
    else 2 * BitOr(x / 2, y / 2) + (if x % 2 == 1 || y % 2 == 1 then 1 else 0)
  }

  function BitAnd(x: nat, y: nat): nat
    decreases x
  {
    if x == 0 then 0
    else 2 * BitAnd(x / 2, y / 2) + (if x % 2 == 1 && y % 2 == 1 then 1 else 0)
  }

  lemma {:induction false} OrZero(x: nat)
    ensures BitOr(0, x) == x && BitOr(x, 0) == x
  {
    if x > 0 { OrZero(x / 2); }
  }

  lemma HalfMultiple(y: nat, n: nat)
    requires n > 0 && y % (2 * n) == 0
    ensures y % 2 == 0 && (y / 2) % n == 0
  {
    var q := y / (2 * n);
    assert y == q * (2 * n);
    assert q * (2 * n) == 2 * (q * n) by { MulAssoc(q, 2, n); MulAssoc(2, q, n); }
    MulMono(0, q, n);
    DivMod(q * n, n, q, 0);
  }

  /** Or of numbers that share no bit is addition. */
  lemma {:induction false} OrDisjoint(x: nat, y: nat, k: nat)
    requires x < Pow(2, k)
    requires Pow(2, k) > 0 && y % Pow(2, k) == 0
    ensures BitOr(x, y) == x + y && BitOr(y, x) == x + y
  {
    if k == 0 {
      OrZero(y);
    } else {
      PowPositive(2, k - 1);
      HalfMultiple(y, Pow(2, k - 1));
      OrDisjoint(x / 2, y / 2, k - 1);
    }
  }

  lemma HalvedMod(x: nat, p: nat)
    requires p > 0
    ensures x % (2 * p) == 2 * (x / 2 % p) + x % 2
  {
    var h := x / 2;
    var q, r := h / p, h % p;
    assert h == q * p + r;
    assert q * (2 * p) == 2 * (q * p) by { MulAssoc(q, 2, p); MulAssoc(2, q, p); }
    DivMod(x, 2 * p, q, 2 * r + x % 2);
  }

  /** And with k ones is the remainder by 2^k. */
  lemma {:induction false} AndMask(x: nat, k: nat)
    ensures Pow(2, k) > 0 && BitAnd(x, Pow(2, k) - 1) == x % Pow(2, k)
  {
    PowPositive(2, k);
    if k == 0 {
      AndZero(x);
    } else {
      var p := Pow(2, k - 1);
      AndMask(x / 2, k - 1);
      assert (2 * p - 1) / 2 == p - 1 && (2 * p - 1) % 2 == 1;
      HalvedMod(x, p);
    }
  }

  lemma {:induction false} AndZero(x: nat)
    ensures BitAnd(x, 0) == 0
  {
    if x > 0 { AndZero(x / 2); }
  }

  /** And with a single one is a test of that bit. */
  lemma {:induction false} AndBit(x: nat, k: nat)
    ensures Pow(2, k) > 0
    ensures BitAnd(x, Pow(2, k)) == if x / Pow(2, k) % 2 == 1 then Pow(2, k) else 0
  {
    PowPositive(2, k);
    if k == 0 {
      if x > 0 { AndZero(x / 2); }
    } else if x > 0 {
      var p := Pow(2, k - 1);
      assert (2 * p) / 2 == p;
      AndBit(x / 2, k - 1);
      DivDiv(x, 2, p);
    } else {
      SmallMod(0, Pow(2, k));
    }
  }

  lemma {:induction false} AndDisjoint(x: nat, y: nat, k: nat)
    requires x < Pow(2, k)
    requires Pow(2, k) > 0 && y % Pow(2, k) == 0
    ensures BitAnd(x, y) == 0
  {
    if k > 0 && x > 0 {
      PowPositive(2, k - 1);
      HalfMultiple(y, Pow(2, k - 1));
      AndDisjoint(x / 2, y / 2, k - 1);
    }
  }

  /** Numbers without a common bit: or is addition. */
  lemma {:induction false} OrIsSum(x: nat, y: nat)
    requires BitAnd(x, y) == 0
    ensures BitOr(x, y) == x + y
    decreases x
  {
    if x == 0 {
      OrZero(y);
    } else {
      OrIsSum(x / 2, y / 2);
    }
  }
}
