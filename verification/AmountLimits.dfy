/** Which 64-bit amounts survive compression: those whose compact form fits 64 bits, and no others, although
    both directions go on silently when a product does not fit. */
module AmountLimits {
  import opened Common
  import opened Arithmetic
  import opened Compressor

  /** Compressing and decompressing, both in 64 bits, give an amount back if and only if its compact
      form fits. */
  lemma FitsExactly(n: Uint64, m: nat, e: nat)
    requires Shifted(n, m, e)
    ensures Amount(Compact(m, e) % MODULUS) % MODULUS == n <==> Compact(m, e) < MODULUS
  {
    AmountOfCompact(n, m, e);
    hide *;
    SmallMod(n, MODULUS);
    if Compact(m, e) < MODULUS {
      SmallMod(Compact(m, e), MODULUS);
    } else {
      NoZeros(n, m, e);
      CutIsLost(n);
    }
  }

  /** Only a number that does not end in a zero has a compact form that is too long. */
  lemma NoZeros(n: Uint64, m: nat, e: nat)
    requires Shifted(n, m, e) && Compact(m, e) >= MODULUS
    ensures e == 0 && m == n && n % 10 != 0
  {
    hide Pow;
    TenZero();
    if e > 0 {
      TenLess(m, e);
    }
  }

  /** The last digit of what is left when the modulus is taken off k times, less one. */
  function Ending(k: int): int { k * 4 % 10 }

  /** What is then missing in front of that digit. */
  function Missing(k: int): int { (k * MODULUS + Ending(k)) / 10 }

  /** What is left of a compact form that is too long stands for other digits, at one of two fixed
      distances from the amount, and shifted; and no digits in range come back over that distance. */
  lemma CutIsLost(n: Uint64)
    requires n > 0 && n % 10 != 0 && Compact(n, 0) >= MODULUS
    ensures Amount(Compact(n, 0) % MODULUS) % MODULUS != n
  {
    var a := n / 10 * 9 + n % 10 - 1;
    var x := Compact(n, 0) % MODULUS;
    var k := CutTimes(n, a, x);
    var e, c := Ending(k), Missing(k);
    hide *;
    var p := a - c + (a - c) / 9 + 1;
    AmountOf(x, a - c, e);
    Distance(a, c);
    NeverBack(k, p, n);
  }

  /** Cutting takes one to eight moduli off. */
  lemma CutTimes(n: Uint64, a: int, x: int) returns (k: int)
    requires n > 0 && n % 10 != 0 && Compact(n, 0) >= MODULUS
    requires a == n / 10 * 9 + n % 10 - 1 && x == Compact(n, 0) % MODULUS
    ensures 1 <= k <= 8 && 0 <= Missing(k) <= a && a + a / 9 + 1 == n && a - Missing(k) <= MODULUS / 10
    ensures 0 < x && (x - 1) % 10 == Ending(k) < 9 && (x - 1) / 10 == a - Missing(k)
  {
    k := Compact(n, 0) / MODULUS;
    assert x == 1 + a * 10 - k * MODULUS;
    assert 1 <= k <= 8;
    Tenth(k);
    hide *;
  }

  lemma Tenth(k: int)
    requires 1 <= k <= 8
    ensures k * MODULUS + Ending(k) == 10 * Missing(k) && 0 <= Ending(k) < 9
  {
    assert k == 1 || k == 2 || k == 3 || k == 4 || k == 5 || k == 6 || k == 7 || k == 8;
  }

  lemma Distance(a: nat, c: nat)
    requires c <= a
    ensures var gap := a + a / 9 - (a - c) - (a - c) / 9;
            gap == c + c / 9 || gap == c + c / 9 + 1
  {
  }

  lemma AmountOf(x: nat, z: nat, e: nat)
    requires x > 0 && (x - 1) % 10 == e < 9 && (x - 1) / 10 == z
    ensures Amount(x) == (z + z / 9 + 1) * Pow(10, e)
  {
    hide Pow;
    assert z / 9 * 10 + z % 9 + 1 == z + z / 9 + 1;
  }

  /** Digits at the distance of k moduli do not come back when they are shifted by the ending of k. */
  lemma NeverBack(k: int, p: nat, n: Uint64)
    requires 1 <= k <= 8 && p <= MODULUS / 9 + 1
    requires n - p == Missing(k) + Missing(k) / 9 || n - p == Missing(k) + Missing(k) / 9 + 1
    ensures p * Pow(10, Ending(k)) % MODULUS != n
  {
    Endings(k);
    AllFarOff();
    if k == 5 {
      Tens();
      hide *;
      SmallMod(p, MODULUS);
    } else if p * Pow(10, Ending(k)) % MODULUS == n {
      hide *;
      FarBoth(k, n - p);
      Solved(k, p, n);
      assert false;
    }
  }

  lemma FarBoth(k: int, d: nat)
    requires FarOff(k)
    requires d == Missing(k) + Missing(k) / 9 || d == Missing(k) + Missing(k) / 9 + 1
    ensures d * Inverse(Ending(k)) % MODULUS > MODULUS / 9 + 1
  {
    hide Missing, Inverse, Ending;
    if d == Missing(k) + Missing(k) / 9 {
    }
  }

  /** The only digits that would come back from either distance are more than a ninth of the modulus. */
  predicate FarOff(k: int) {
    var d := Missing(k) + Missing(k) / 9;
    && d * Inverse(Ending(k)) % MODULUS > MODULUS / 9 + 1
    && (d + 1) * Inverse(Ending(k)) % MODULUS > MODULUS / 9 + 1
  }

  lemma Residue(n: nat, q: nat, r: nat)
    requires n == q * MODULUS + r && MODULUS / 9 + 1 < r < MODULUS
    ensures n % MODULUS > MODULUS / 9 + 1
  {
    DivMod(n, MODULUS, q, r);
  }

  /** Shown by quotients and residues of the two distances. */
  lemma FarFrom(k: int, d: nat, f: nat, q0: nat, r0: nat, q1: nat, r1: nat)
    requires d == Missing(k) + Missing(k) / 9 && f == Inverse(Ending(k))
    requires d * f == q0 * MODULUS + r0 && MODULUS / 9 + 1 < r0 < MODULUS
    requires (d + 1) * f == q1 * MODULUS + r1 && MODULUS / 9 + 1 < r1 < MODULUS
    ensures FarOff(k)
  {
    Residue(d * f, q0, r0);
    Residue((d + 1) * f, q1, r1);
    hide Missing, Inverse, Ending;
  }

  lemma AllFarOff()
    ensures FarOff(1) && FarOff(2) && FarOff(3) && FarOff(4) && FarOff(6) && FarOff(7) && FarOff(8)
  {
    hide FarOff;
    FarFrom(1, 2049638230412172402, 13458245626333751279, 1495360625148194586, 13238912402357251182,
            1495360625148194587, 8250413954981450845);
    FarFrom(2, 4099276460824344804, 300153063250403071, 66700680722311793, 10381592513505485596, 66700680722311793,
            10681745576755888667);
    FarFrom(3, 6148914691236517205, 12670490878911611211, 4223496959637203736, 14223247114072347879,
            4223496959637203737, 8446993919274407474);
    FarFrom(4, 8198552921648689607, 1672254362768354751, 743224161230379889, 5963108650928922233, 743224161230379889,
            7635363013697276984);
    FarFrom(6, 12297829382473034411, 13458245626333751279, 8972163750889167519, 10634996566681100965,
            8972163750889167520, 5646498119305300628);
    FarFrom(7, 14347467612885206813, 300153063250403071, 233452382528091277, 8365304623454469091, 233452382528091277,
            8665457686704872162);
    FarFrom(8, 16397105843297379214, 12670490878911611211, 11262658559032543298, 9482164742714898586,
            11262658559032543299, 3705911547916958181);
  }

  lemma Endings(k: int)
    requires 1 <= k <= 8
    ensures 0 < Missing(k) && (Ending(k) == 0 <==> k == 5) && Ending(k) in {0, 2, 4, 6, 8}
  {
  }

  lemma Tens()
    ensures Pow(10, 0) == 1 && Pow(10, 2) == 100 && Pow(10, 4) == 10000 && Pow(10, 6) == 1000000
    ensures Pow(10, 8) == 100000000
  {
    assert Pow(10, 1) == 10;
    assert Pow(10, 3) == 1000;
    assert Pow(10, 5) == 100000;
    assert Pow(10, 7) == 10000000;
  }

  /** If they came back, one less than the power of ten would carry them to the distance, and its inverse
      the distance to them. */
  lemma Solved(k: int, p: nat, n: Uint64)
    requires 1 <= k <= 8 && Ending(k) != 0 && p < MODULUS && n >= p
    requires p * Pow(10, Ending(k)) % MODULUS == n
    ensures p == (n - p) * Inverse(Ending(k)) % MODULUS
  {
    Tens();
    hide Pow;
    var f := Pow(10, Ending(k));
    var j := p * f / MODULUS;
    assert p * f == n + j * MODULUS;
    assert p * (f - 1) == (n - p) + j * MODULUS;
    Divided(f - 1, Inverse(Ending(k)), Quotient(Ending(k)), p, n - p, j);
  }

  /** The inverse of 10^e - 1 modulo 2^64, and how often the modulus goes into the product. */
  function Inverse(e: int): nat {
    if e == 2 then 12670490878911611211 else if e == 4 then 13458245626333751279
    else if e == 6 then 1672254362768354751 else 300153063250403071
  }

  function Quotient(e: int): nat {
    if e == 2 then 68 else if e == 4 then 7295 else if e == 6 then 90653 else 1627133
  }

  lemma Divided(f: nat, inverse: nat, quotient: nat, p: nat, d: nat, j: nat)
    requires f * inverse == 1 + quotient * MODULUS && p * f == d + j * MODULUS && p < MODULUS
    ensures p == d * inverse % MODULUS
  {
    var t := inverse * j - quotient * p;
    assert p * (f * inverse) == p + quotient * p * MODULUS;
    assert (p * f) * inverse == d * inverse + inverse * j * MODULUS;
    assert p * (f * inverse) == (p * f) * inverse;
    assert p == d * inverse + t * MODULUS;
  }
}
