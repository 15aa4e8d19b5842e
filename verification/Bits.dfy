/** Single bits of a number, and bits packed into bytes, least significant first. */
module Bits {
  import opened Common
  import opened Arithmetic

  predicate Bit(x: nat, k: nat) { if k == 0 then x % 2 == 1 else Bit(x / 2, k - 1) }

  lemma {:induction false} BitOfZero(k: nat)
    ensures !Bit(0, k)
  {
    if k > 0 { BitOfZero(k - 1); }
  }

  lemma {:induction false} BitOfOr(x: nat, y: nat, k: nat)
    ensures Bit(BitOr(x, y), k) <==> Bit(x, k) || Bit(y, k)
  {
    if x == 0 && y == 0 {
    } else if k > 0 {
      BitOfOr(x / 2, y / 2, k - 1);
    }
  }

  lemma {:induction false} BitOfPow(k: nat, j: nat)
    ensures Bit(Pow(2, k), j) <==> j == k
  {
    if j == 0 {
    } else if k == 0 {
      BitOfZero(j - 1);
    } else {
      assert Pow(2, k) / 2 == Pow(2, k - 1);
      BitOfPow(k - 1, j - 1);
    }
  }

  lemma {:induction false} AndIsBit(x: nat, k: nat)
    ensures BitAnd(x, Pow(2, k)) != 0 <==> Bit(x, k)
  {
    if k == 0 {
      assert Pow(2, 0) == 1;
      if x > 0 { AndZero(x / 2); }
    } else if x == 0 {
      BitOfZero(k);
    } else {
      assert Pow(2, k) / 2 == Pow(2, k - 1);
      AndIsBit(x / 2, k - 1);
    }
  }

  lemma {:induction false} OrBound(x: nat, y: nat, k: nat)
    requires x < Pow(2, k) && y < Pow(2, k)
    ensures BitOr(x, y) < Pow(2, k)
  {
    if k > 0 && (x > 0 || y > 0) { OrBound(x / 2, y / 2, k - 1); }
  }

  /** The bits of v, and nothing else, are in the bytes. */
  ghost predicate Packed(vBytes: seq<Byte>, vBits: seq<bool>) {
    && |vBytes| == (|vBits| + 7) / 8
    && forall p :: 0 <= p < 8 * |vBytes| ==> (Bit(vBytes[p / 8], p % 8) <==> p < |vBits| && vBits[p])
  }

  method PackBits(vBits: seq<bool>) returns (vBytes: seq<Byte>)
    ensures Packed(vBytes, vBits)
  {
    hide Bit, SetIf;
    vBytes := seq((|vBits| + 7) / 8, i => 0);
    forall k { BitOfZero(k); }
    var p := 0;
    while p < |vBits|
      invariant 0 <= p <= |vBits| && |vBytes| == (|vBits| + 7) / 8
      invariant forall q :: 0 <= q < 8 * |vBytes| ==> (Bit(vBytes[q / 8], q % 8) <==> q < p && vBits[q])
    {
      SetIfBits(vBytes[p / 8], p % 8, vBits[p]);
      var b := SetIf(vBytes[p / 8], p % 8, vBits[p]);
      vBytes := vBytes[p / 8 := b];
      p := p + 1;
    }
  }

  /** x |= f << k, of a byte */
  function SetIf(x: Byte, k: nat, f: bool): (r: Byte)
    requires k < 8
  {
    var y := if f then Pow(2, k) else 0;
    ByteOr(x, k, f);
    BitOr(x, y)
  }

  lemma ByteOr(x: Byte, k: nat, f: bool)
    requires k < 8
    ensures BitOr(x, if f then Pow(2, k) else 0) < 256
  {
    TwoPowers();
    hide Pow;
    PowPositive(2, 8);
    PowStrict(2, k, 8);
    OrBound(x, if f then Pow(2, k) else 0, 8);
  }

  lemma SetIfBits(x: Byte, k: nat, f: bool)
    requires k < 8
    ensures forall j: nat :: Bit(SetIf(x, k, f), j) <==> Bit(x, j) || (j == k && f)
  {
    hide Bit, BitOr, Pow;
    var y := if f then Pow(2, k) else 0;
    forall j: nat ensures Bit(SetIf(x, k, f), j) <==> Bit(x, j) || (j == k && f) {
      BitOfOr(x, y, j);
      BitOfPow(k, j);
      BitOfZero(j);
    }
  }

  method UnpackBits(vBytes: seq<Byte>) returns (vBits: seq<bool>)
    ensures |vBits| == 8 * |vBytes|
    ensures forall p :: 0 <= p < |vBits| ==> (vBits[p] <==> Bit(vBytes[p / 8], p % 8))
  {
    hide Bit, BitAnd, Pow;
    vBits := [];
    var p := 0;
    while p < 8 * |vBytes|
      invariant 0 <= p <= 8 * |vBytes| && |vBits| == p
      invariant forall q :: 0 <= q < p ==> (vBits[q] <==> Bit(vBytes[q / 8], q % 8))
    {
      AndIsBit(vBytes[p / 8], p % 8);
      vBits := vBits + [BitAnd(vBytes[p / 8], Pow(2, p % 8)) != 0];
      p := p + 1;
    }
  }

  /** Unpacking gives the bits back, filled up with zeros to whole bytes. */
  ghost predicate Padded(back: seq<bool>, vBits: seq<bool>) {
    && |back| == 8 * ((|vBits| + 7) / 8)
    && vBits <= back
    && forall p :: |vBits| <= p < |back| ==> !back[p]
  }

  lemma PackedRoundTrip(vBits: seq<bool>, vBytes: seq<Byte>, back: seq<bool>)
    requires Packed(vBytes, vBits) && |back| == 8 * |vBytes|
    requires forall p :: 0 <= p < |back| ==> (back[p] <==> Bit(vBytes[p / 8], p % 8))
    ensures Padded(back, vBits)
  {
    hide Bit;
  }
}
