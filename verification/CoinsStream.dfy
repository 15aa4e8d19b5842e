/** Writing coins to a stream and reading them from one, step by step. */
module CoinsStream {
  import opened Common
  import opened Arithmetic
  import opened Bits
  import opened VarInt
  import opened Compressor
  import opened Coins
  import opened CoinsCodec

  // ------------------------------------------------------------ writing

  method WriteMask(vout: seq<TxOut>, nMaskSize: nat, start: seq<Byte>) returns (out: seq<Byte>)
    ensures out == start + MaskFrom(vout, 0, nMaskSize)
  {
    hide MaskByte, SetIf;
    out := start;
    for b := 0 to nMaskSize
      invariant start + MaskFrom(vout, 0, nMaskSize) == out + MaskFrom(vout, b, nMaskSize)
    {
      var chAvail := WriteMaskByte(vout, b);
      assert out + ([chAvail] + MaskFrom(vout, b + 1, nMaskSize)) ==
             (out + [chAvail]) + MaskFrom(vout, b + 1, nMaskSize);
      out := out + [chAvail];
    }
    assert out + [] == out;
  }

  method WriteMaskByte(vout: seq<TxOut>, b: nat) returns (chAvail: Byte)
    ensures chAvail == MaskByte(vout, b, 8)
  {
    hide SetIf;
    chAvail := 0;
    var i := 0;
    while i < 8 && 2 + b * 8 + i < |vout|
      invariant 0 <= i <= 8 && chAvail == MaskByte(vout, b, i)
    {
      if !vout[2 + b * 8 + i].IsNull() {
        assert InByte(vout, b, i);
        chAvail := SetIf(chAvail, i, true);
      } else {
        assert !InByte(vout, b, i);
        SetNothing(chAvail, i);
      }
      i := i + 1;
    }
    RestIsZero(vout, b, i);
  }

  lemma SetNothing(x: Byte, k: nat)
    requires k < 8
    ensures SetIf(x, k, false) == x
  {
    OrZero(x);
  }

  lemma {:induction false} RestIsZero(vout: seq<TxOut>, b: nat, i: nat)
    requires i <= 8 && (i < 8 ==> 2 + b * 8 + i >= |vout|)
    ensures MaskByte(vout, b, 8) == MaskByte(vout, b, i)
    decreases 8 - i
  {
    hide SetIf;
    if i < 8 {
      assert !InByte(vout, b, i);
      SetNothing(MaskByte(vout, b, i), i);
      RestIsZero(vout, b, i + 1);
    }
  }

  method WriteOut(curve: Curve, out: TxOut) returns (bytes: seq<Byte>)
    requires InRange(out) && !out.IsNull()
    ensures bytes == OutBytes(curve, out)
  {
    hide Strip;
    ghost var m, e;
    var nVal;
    nVal, m, e := CompressAmount(out.nValue);
    CompressedIs(out.nValue, nVal, m, e);
    var v := WriteVarInt(nVal);
    bytes := v + ScriptBytes(curve, out.script);
  }

  lemma CompressedIs(n: nat, x: nat, m: nat, e: nat)
    requires n == 0 ==> x == 0
    requires n > 0 ==> Shifted(n, m, e) && x == Compressor.Compact(m, e)
    ensures x == CompactOf(n)
  {
    hide Strip, Pow, Compressor.Compact;
    if n > 0 {
      TenZero();
      StripIs(n, n, 0, m, e);
    }
  }

  method WriteOuts(curve: Curve, vout: seq<TxOut>, start: seq<Byte>) returns (out: seq<Byte>)
    requires AllInRange(vout)
    ensures out == start + OutsFrom(curve, vout, 0)
  {
    hide OutBytes, InRange;
    out := start;
    for i := 0 to |vout|
      invariant start + OutsFrom(curve, vout, 0) == out + OutsFrom(curve, vout, i)
    {
      if !vout[i].IsNull() {
        assert InRange(vout[i]);
        var bytes := WriteOut(curve, vout[i]);
        assert out + (bytes + OutsFrom(curve, vout, i + 1)) == (out + bytes) + OutsFrom(curve, vout, i + 1);
        out := out + bytes;
      } else {
        assert [] + OutsFrom(curve, vout, i + 1) == OutsFrom(curve, vout, i + 1);
      }
    }
    assert out + [] == out;
  }

  method Serialize(curve: Curve, c: Coins) returns (out: seq<Byte>)
    requires CodecRange(c) && !c.IsPruned()
    ensures out == CoinsBytes(curve, c)
  {
    var nMaskSize, nMaskCode := CalcMaskSize(c.vout);
    var fFirst := |c.vout| > 0 && !c.vout[0].IsNull();
    var fSecond := |c.vout| > 1 && !c.vout[1].IsNull();
    if !fFirst && !fSecond {
      SomeMask(c);
    }
    assert fFirst || fSecond || nMaskCode > 0;
    var nCode := 16 * (nMaskCode - (if fFirst || fSecond then 0 else 1))
      + (if c.fCoinBase then 1 else 0) + (if c.fCoinStake then 2 else 0) + (if fFirst then 4 else 0) +
        (if fSecond then 8 else 0);
    assert nCode == HeaderCode(c);
    hide HeaderCode, MaskSize, MaskBytes, NonZero, Avail;
    var v0 := WriteVarInt(c.nVersion);
    var v1 := WriteVarInt(nCode);
    out := WriteMask(c.vout, nMaskSize, v0 + v1);
    out := WriteOuts(curve, c.vout, out);
    var v4 := WriteVarInt(c.nHeight);
    out := out + v4;
    JoinFive(v0, v1, MaskFrom(c.vout, 0, nMaskSize), OutsFrom(curve, c.vout, 0), v4);
  }

  lemma JoinFive(a: seq<Byte>, b: seq<Byte>, c: seq<Byte>, d: seq<Byte>, e: seq<Byte>)
    ensures a + b + c + d + e == a + (b + (c + (d + e)))
  {
  }

  // ------------------------------------------------------------ reading

  method ReadMask(s: seq<Byte>, start: nat, count: nat, first: seq<bool>) returns (r: Option<Parsed<seq<bool>>>)
    ensures r == MaskAt(s, start, count, first)
  {
    hide Bit;
    var vAvail, pos, nMaskCode := first, start, count;
    while nMaskCode > 0
      invariant MaskAt(s, start, count, first) == MaskAt(s, pos, nMaskCode, vAvail)
      decreases |s| - pos
    {
      if pos >= |s| {
        return None;
      }
      var chAvail := s[pos];
      pos := pos + 1;
      ghost var before := vAvail;
      for p := 0 to 8
        invariant vAvail == before + ByteBits(chAvail)[..p]
      {
        TestBit(chAvail, p);
        vAvail := vAvail + [BitAnd(chAvail, Pow(2, p)) != 0];
        assert ByteBits(chAvail)[..p + 1] == ByteBits(chAvail)[..p] + [ByteBits(chAvail)[p]];
      }
      assert ByteBits(chAvail)[..8] == ByteBits(chAvail);
      if chAvail != 0 {
        nMaskCode := nMaskCode - 1;
      }
    }
    return Some(Parsed(vAvail, pos));
  }

  lemma TestBit(x: Byte, p: nat)
    requires p < 8
    ensures BitAnd(x, Pow(2, p)) != 0 <==> ByteBits(x)[p]
  {
    AndIsBit(x, p);
  }

  method ReadOut(curve: Curve, s: seq<Byte>, pos: nat) returns (r: Option<Parsed<TxOut>>)
    ensures r == OutAt(curve, s, pos)
  {
    hide Amount, ScriptAt, NumberAt, Pow;
    TwoTo64();
    var nVal := ReadVarInt(s, pos, 64);
    if nVal.None? {
      return None;
    }
    var n := DecompressAmount(nVal.value.value);
    var script := ScriptAt(curve, s, nVal.value.pos);
    if script.None? {
      return None;
    }
    var nValue := if n < 0x8000_0000_0000_0000 then n else n as int - 0x1_0000_0000_0000_0000;
    return Some(Parsed(TxOut(nValue, script.value.value, -10), script.value.pos));
  }

  lemma TwoTo64()
    ensures Pow(2, 64) == 0x1_0000_0000_0000_0000 && Pow(2, 32) == 0x1_0000_0000
  {
    TwoPowers();
    PowAdd(2, 32, 32);
  }

  /** What has been read goes before what is still to be read. */
  ghost function Behind(vout: seq<TxOut>, r: Option<Parsed<seq<TxOut>>>): Option<Parsed<seq<TxOut>>> {
    if r.None? then None else Some(Parsed(vout + r.value.value, r.value.pos))
  }

  method ReadOuts(curve: Curve, s: seq<Byte>, start: nat, vAvail: seq<bool>) returns (r: Option<Parsed<seq<TxOut>>>)
    ensures r == OutsAt(curve, s, start, vAvail, 0)
  {
    hide OutAt;
    var vout: seq<TxOut> := seq(|vAvail|, i => NULL_OUT);
    var pos := start;
    BehindNone(OutsAt(curve, s, start, vAvail, 0));
    assert vout[..0] == [];
    for i := 0 to |vAvail|
      invariant |vout| == |vAvail| && (forall k :: i <= k < |vout| ==> vout[k] == NULL_OUT)
      invariant OutsAt(curve, s, start, vAvail, 0) == Behind(vout[..i], OutsAt(curve, s, pos, vAvail, i))
    {
      ghost var before := vout[..i];
      if vAvail[i] {
        var out := ReadOut(curve, s, pos);
        if out.None? {
          return None;
        }
        BehindNext(before, out.value.value, OutsAt(curve, s, out.value.pos, vAvail, i + 1));
        vout := vout[i := out.value.value];
        pos := out.value.pos;
      } else {
        BehindNext(before, NULL_OUT, OutsAt(curve, s, pos, vAvail, i + 1));
      }
      assert vout[..i + 1] == before + [vout[i]];
    }
    assert vout[..|vAvail|] == vout && vout + [] == vout;
    return Some(Parsed(vout, pos));
  }

  lemma BehindNone(r: Option<Parsed<seq<TxOut>>>)
    ensures Behind([], r) == r
  {
    if r.Some? { assert [] + r.value.value == r.value.value; }
  }

  lemma BehindNext(vout: seq<TxOut>, out: TxOut, r: Option<Parsed<seq<TxOut>>>)
    ensures Behind(vout, if r.None? then None else Some(Parsed([out] + r.value.value, r.value.pos))) ==
      Behind(vout + [out], r)
  {
    if r.Some? { assert vout + ([out] + r.value.value) == (vout + [out]) + r.value.value; }
  }

  method Unserialize(curve: Curve, s: seq<Byte>, start: nat) returns (r: Option<Parsed<Coins>>)
    ensures r == CoinsAt(curve, s, start)
  {
    hide NumberAt, MaskAt, OutsAt, Pow, TrimNulls;
    TwoTo64();
    var nVersion := ReadVarInt(s, start, 32);
    if nVersion.None? {
      return None;
    }
    var code := ReadVarInt(s, nVersion.value.pos, 32);
    if code.None? {
      return None;
    }
    var nCode := code.value.value;
    var fCoinBase := nCode % 2 == 1;
    var fCoinStake := nCode / 2 % 2 == 1;
    var vAvail := [nCode / 4 % 2 == 1, nCode / 8 % 2 == 1];
    var nMaskCode := nCode / 16 + (if vAvail[0] || vAvail[1] then 0 else 1);
    var mask := ReadMask(s, code.value.pos, nMaskCode, vAvail);
    if mask.None? {
      return None;
    }
    var vout := ReadOuts(curve, s, mask.value.pos, mask.value.value);
    if vout.None? {
      return None;
    }
    var nHeight := ReadVarInt(s, vout.value.pos, 32);
    if nHeight.None? {
      return None;
    }
    var c := Coins(fCoinBase, fCoinStake, vout.value.value, Signed32(nHeight.value.value),
                   Signed32(nVersion.value.value));
    return Some(Parsed(c.Cleanup(), nHeight.value.pos));
  }

  // ------------------------------------------------------------ GetSerializeSize

  method GetSizeOfVarInt(n0: int) returns (nRet: nat)
    ensures nRet == |VarIntOf(n0)|
  {
    var n := n0;
    nRet := 0;
    ghost var more := false;
    while n > 0x7f
      invariant |VarIntOf(n0)| == nRet + |Digits(n, more)|
      decreases n
    {
      nRet := nRet + 1;
      n := n / 128 - 1;
      more := true;
    }
    nRet := nRet + 1;
  }

  /** The header code that GetSerializeSize uses: with a factor of 8 where Serialize has 16. */
  function SizeCode(c: Coins): int {
    var first, second := Avail(c.vout, 0), Avail(c.vout, 1);
    8 * (NonZero(c.vout, 0, MaskBytes(c.vout)) - (if first || second then 0 else 1))
    + (Flag(c.fCoinBase) + 2 * Flag(c.fCoinStake) + 4 * Flag(first) + 8 * Flag(second))
  }

  method GetSerializeSize(curve: Curve, c: Coins) returns (nSize: nat)
    requires CodecRange(c) && !c.IsPruned()
    ensures nSize == |CoinsBytes(curve, c)| - |VarIntOf(HeaderCode(c))| + |VarIntOf(SizeCode(c))|
  {
    var nMaskSize, nMaskCode := CalcMaskSize(c.vout);
    var fFirst := |c.vout| > 0 && !c.vout[0].IsNull();
    var fSecond := |c.vout| > 1 && !c.vout[1].IsNull();
    if !fFirst && !fSecond {
      SomeMask(c);
    }
    assert fFirst || fSecond || nMaskCode > 0;
    var nCode := 8 * (nMaskCode - (if fFirst || fSecond then 0 else 1))
      + (if c.fCoinBase then 1 else 0) + (if c.fCoinStake then 2 else 0) + (if fFirst then 4 else 0) +
        (if fSecond then 8 else 0);
    assert nCode == SizeCode(c);
    MaskLength(c.vout, nMaskSize);
    hide HeaderCode, SizeCode, MaskSize, MaskBytes, NonZero, Avail;
    nSize := GetSizeOfVarInt(c.nVersion);
    var k := GetSizeOfVarInt(nCode);
    nSize := nSize + k + nMaskSize;
    nSize := OutsSize(curve, c.vout, nSize);
    k := GetSizeOfVarInt(c.nHeight);
    nSize := nSize + k;
  }

  method OutsSize(curve: Curve, vout: seq<TxOut>, start: nat) returns (nSize: nat)
    requires AllInRange(vout)
    ensures nSize == start + |OutsFrom(curve, vout, 0)|
  {
    hide OutBytes, InRange;
    nSize := start;
    for i := 0 to |vout|
      invariant start + |OutsFrom(curve, vout, 0)| == nSize + |OutsFrom(curve, vout, i)|
    {
      if !vout[i].IsNull() {
        assert InRange(vout[i]);
        var bytes := WriteOut(curve, vout[i]);
        nSize := nSize + |bytes|;
      }
    }
  }

  /** Where one more byte is needed. */
  lemma VarIntLength(n: nat)
    requires n < 0x1_0000_0000
    ensures |VarIntOf(n)| ==
      if n < 128 then 1 else if n < 16512 then 2 else if n < 2113664 then 3 else if n < 270549120 then 4 else 5
  {
    DigitsLength(n, false);
    if n >= 128 {
      var a := n / 128 - 1;
      DigitsLength(a, true);
      if a >= 128 {
        var b := a / 128 - 1;
        DigitsLength(b, true);
        if b >= 128 {
          var c := b / 128 - 1;
          DigitsLength(c, true);
          if c >= 128 {
            DigitsLength(c / 128 - 1, true);
          }
        }
      }
    }
  }

  lemma DigitsLength(n: nat, more: bool)
    ensures |Digits(n, more)| == if n < 128 then 1 else 1 + |Digits(n / 128 - 1, true)|
  {
  }

  ghost predicate Between(b: nat, c: Coins) { SizeCode(c) < b <= HeaderCode(c) }

  /** The two sizes agree exactly when no such number lies between the two codes. */
  lemma SizesAgree(c: Coins)
    requires CodecRange(c) && !c.IsPruned()
    ensures 0 <= SizeCode(c) <= HeaderCode(c)
    ensures |VarIntOf(SizeCode(c))| == |VarIntOf(HeaderCode(c))| <==>
      !Between(128, c) && !Between(16512, c) && !Between(2113664, c) && !Between(270549120, c)
  {
    HeaderFields(c);
    if !Avail(c.vout, 0) && !Avail(c.vout, 1) { SomeMask(c); }
    hide NonZero, MaskBytes, Avail;
    VarIntLength(HeaderCode(c));
    VarIntLength(SizeCode(c));
  }
}
