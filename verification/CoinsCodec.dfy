/** The sparse serialisation of the unspent outputs of a transaction. */
module CoinsCodec {
  import opened Common
  import opened Arithmetic
  import opened Bits
  import opened VarInt
  import opened Compressor
  import opened Coins

  // ------------------------------------------------------------ the mask

  predicate Avail(vout: seq<TxOut>, i: int) { 0 <= i < |vout| && !vout[i].IsNull() }

  /** The output that bit j of byte b of the mask is for. */
  predicate InByte(vout: seq<TxOut>, b: nat, j: nat) { Avail(vout, 2 + 8 * b + j) }

  /** The first n bits of byte b of the mask. */
  function MaskByte(vout: seq<TxOut>, b: nat, n: nat): Byte
    requires n <= 8
  {
    if n == 0 then 0 else SetIf(MaskByte(vout, b, n - 1), n - 1, InByte(vout, b, n - 1))
  }

  lemma {:induction false} MaskBits(vout: seq<TxOut>, b: nat, n: nat)
    requires n <= 8
    ensures forall j: nat :: Bit(MaskByte(vout, b, n), j) <==> j < n && InByte(vout, b, j)
  {
    hide SetIf, Bit, InByte;
    if n == 0 {
      forall j: nat ensures !Bit(0, j) { BitOfZero(j); }
    } else {
      MaskBits(vout, b, n - 1);
      SetIfBits(MaskByte(vout, b, n - 1), n - 1, InByte(vout, b, n - 1));
    }
  }

  ghost predicate AnyAvail(vout: seq<TxOut>, b: nat) { exists j: nat :: j < 8 && InByte(vout, b, j) }

  lemma {:induction false} ZeroBits(x: nat, n: nat)
    requires x < Pow(2, n) && forall j :: 0 <= j < n ==> !Bit(x, j)
    ensures x == 0
  {
    if n > 0 {
      assert !Bit(x, 0);
      forall j | 0 <= j < n - 1 ensures !Bit(x / 2, j) { assert !Bit(x, j + 1); }
      ZeroBits(x / 2, n - 1);
    }
  }

  lemma MaskZero(vout: seq<TxOut>, b: nat)
    ensures MaskByte(vout, b, 8) != 0 <==> AnyAvail(vout, b)
  {
    MaskBits(vout, b, 8);
    TwoPowers();
    hide Bit, InByte, MaskByte, Pow;
    if !AnyAvail(vout, b) {
      ZeroBits(MaskByte(vout, b, 8), 8);
    } else {
      var j: nat :| j < 8 && InByte(vout, b, j);
      BitOfZero(j);
    }
  }

  /** How many mask bytes are needed: up to the last that is not zero, among the first n. */
  function MaskSize(vout: seq<TxOut>, n: nat): (m: nat)
    ensures m <= n
    ensures m > 0 ==> MaskByte(vout, m - 1, 8) != 0
  {
    if n == 0 then 0 else if MaskByte(vout, n - 1, 8) != 0 then n else MaskSize(vout, n - 1)
  }

  /** How many of the bytes from b to n are not zero. */
  function NonZero(vout: seq<TxOut>, b: nat, n: nat): nat
    decreases n - b
  {
    if b >= n then 0 else (if MaskByte(vout, b, 8) != 0 then 1 else 0) + NonZero(vout, b + 1, n)
  }

  /** Mask bytes that some output falls into. */
  function MaskBytes(vout: seq<TxOut>): (n: nat)
    ensures forall b: nat :: b < n <==> 2 + 8 * b < |vout|
  {
    if |vout| <= 2 then 0 else (|vout| - 2 + 7) / 8
  }

  lemma {:induction false} NonZeroEnd(vout: seq<TxOut>, b: nat, n: nat)
    requires b <= n
    ensures NonZero(vout, b, n + 1) == NonZero(vout, b, n) + (if MaskByte(vout, n, 8) != 0 then 1 else 0)
    decreases n - b
  {
    hide MaskByte;
    if b < n { NonZeroEnd(vout, b + 1, n); }
  }

  lemma {:induction false} NonZeroSize(vout: seq<TxOut>, n: nat)
    ensures NonZero(vout, 0, n) == NonZero(vout, 0, MaskSize(vout, n))
    ensures NonZero(vout, 0, n) > 0 <==> MaskSize(vout, n) > 0
  {
    hide MaskByte;
    if n > 0 {
      NonZeroSize(vout, n - 1);
      NonZeroEnd(vout, 0, n - 1);
    }
  }

  /** CalcMaskSize: what is added to the two counters. */
  method CalcMaskSize(vout: seq<TxOut>) returns (nBytes: nat, nNonzeroBytes: nat)
    ensures nBytes == MaskSize(vout, MaskBytes(vout))
    ensures nNonzeroBytes == NonZero(vout, 0, MaskBytes(vout))
  {
    hide MaskByte, Avail;
    var nLastUsedByte := 0;
    nNonzeroBytes := 0;
    var b := 0;
    while 2 + b * 8 < |vout|
      invariant 0 <= b <= MaskBytes(vout)
      invariant nLastUsedByte == MaskSize(vout, b) && nNonzeroBytes == NonZero(vout, 0, b)
      decreases |vout| - b
    {
      var fZero := ByteIsZero(vout, b);
      MaskZero(vout, b);
      NonZeroEnd(vout, 0, b);
      if !fZero {
        nLastUsedByte := b + 1;
        nNonzeroBytes := nNonzeroBytes + 1;
      }
      b := b + 1;
    }
    nBytes := nLastUsedByte;
  }

  method ByteIsZero(vout: seq<TxOut>, b: nat) returns (fZero: bool)
    ensures fZero <==> !AnyAvail(vout, b)
  {
    fZero := true;
    var i := 0;
    while i < 8 && 2 + b * 8 + i < |vout|
      invariant 0 <= i <= 8
      invariant fZero <==> forall j: nat :: j < i ==> !InByte(vout, b, j)
    {
      if !vout[2 + b * 8 + i].IsNull() {
        assert InByte(vout, b, i);
        fZero := false;
      }
      i := i + 1;
    }
  }

  // ------------------------------------------------------------ what is written

  function MaskFrom(vout: seq<TxOut>, b: nat, n: nat): seq<Byte>
    decreases n - b
  {
    if b >= n then [] else [MaskByte(vout, b, 8)] + MaskFrom(vout, b + 1, n)
  }

  function OutBytes(curve: Curve, out: TxOut): seq<Byte> {
    VarIntOf(CompactOf(out.nValue)) + ScriptBytes(curve, out.script)
  }

  /** The compact form of an amount, zeros stripped one by one. */
  function CompactOf(n: int): int { if n <= 0 then 0 else Strip(n, 0) }

  function Strip(m: nat, e: nat): int
    requires e <= 9
    decreases 9 - e
  {
    if m % 10 == 0 && e < 9 then Strip(m / 10, e + 1) else Compact(m, e)
  }

  function OutsFrom(curve: Curve, vout: seq<TxOut>, i: nat): seq<Byte>
    decreases |vout| - i
  {
    if i >= |vout| then []
    else (if vout[i].IsNull() then [] else OutBytes(curve, vout[i])) + OutsFrom(curve, vout, i + 1)
  }

  function Flag(b: bool): nat { if b then 1 else 0 }

  function HeaderCode(c: Coins): int {
    var first, second := Avail(c.vout, 0), Avail(c.vout, 1);
    16 * (NonZero(c.vout, 0, MaskBytes(c.vout)) - (if first || second then 0 else 1))
    + (Flag(c.fCoinBase) + 2 * Flag(c.fCoinStake) + 4 * Flag(first) + 8 * Flag(second))
  }

  function CoinsBytes(curve: Curve, c: Coins): seq<Byte> {
    VarIntOf(c.nVersion) + (VarIntOf(HeaderCode(c)) +
      (MaskFrom(c.vout, 0, MaskSize(c.vout, MaskBytes(c.vout))) + (OutsFrom(curve, c.vout, 0) + VarIntOf(c.nHeight))))
  }

  // ------------------------------------------------------------ what is read

  /** nMaskCode bytes that are not zero, and those that are zero before them. */
  function MaskAt(s: seq<Byte>, pos: nat, nMaskCode: nat, vAvail: seq<bool>): (r: Option<Parsed<seq<bool>>>)
    ensures r.Some? ==> pos <= r.value.pos
    decreases |s| - pos
  {
    if nMaskCode == 0 then Some(Parsed(vAvail, pos))
    else if pos >= |s| then None
    else MaskAt(s, pos + 1, if s[pos] != 0 then nMaskCode - 1 else nMaskCode, vAvail + ByteBits(s[pos]))
  }

  function ByteBits(x: Byte): (r: seq<bool>)
    ensures |r| == 8 && forall p :: 0 <= p < 8 ==> (r[p] <==> Bit(x, p))
  {
    seq(8, p requires 0 <= p < 8 => Bit(x, p))
  }

  /** A 64-bit number taken as a signed one. */
  function Signed64(n: nat): int {
    var m := n % 0x1_0000_0000_0000_0000;
    if m < 0x8000_0000_0000_0000 then m else m - 0x1_0000_0000_0000_0000
  }

  function OutAt(curve: Curve, s: seq<Byte>, pos: nat): (r: Option<Parsed<TxOut>>)
    ensures r.Some? ==> pos <= r.value.pos
  {
    var v := NumberAt(s, pos, 0);
    if v.None? then None
    else
      var t := ScriptAt(curve, s, v.value.pos);
      if t.None? then None
      else Some(Parsed(TxOut(Signed64(Amount(v.value.value % 0x1_0000_0000_0000_0000)), t.value.value, -10),
                       t.value.pos))
  }

  function OutsAt(curve: Curve, s: seq<Byte>, pos: nat, vAvail: seq<bool>, i: nat): (r: Option<Parsed<seq<TxOut>>>)
    ensures r.Some? ==> pos <= r.value.pos
    decreases |vAvail| - i
  {
    if i >= |vAvail| then Some(Parsed([], pos))
    else if !vAvail[i] then
      var r := OutsAt(curve, s, pos, vAvail, i + 1);
      if r.None? then None else Some(Parsed([NULL_OUT] + r.value.value, r.value.pos))
    else
      var o := OutAt(curve, s, pos);
      if o.None? then None
      else
        var r := OutsAt(curve, s, o.value.pos, vAvail, i + 1);
        if r.None? then None else Some(Parsed([o.value.value] + r.value.value, r.value.pos))
  }

  /** A number read into a signed 32-bit variable. */
  function Signed32(n: nat): int {
    var m := n % 0x1_0000_0000;
    if m < 0x8000_0000 then m else m - 0x1_0000_0000
  }

  /** They are the numbers of that width that are the same modulo a power of two. */
  lemma SignedAre(n: nat)
    ensures -0x8000_0000 <= Signed32(n) < 0x8000_0000 && (n - Signed32(n)) % 0x1_0000_0000 == 0
    ensures -0x8000_0000_0000_0000 <= Signed64(n) < 0x8000_0000_0000_0000
    ensures (n - Signed64(n)) % 0x1_0000_0000_0000_0000 == 0
  {
  }

  function CoinsAt(curve: Curve, s: seq<Byte>, pos: nat): Option<Parsed<Coins>> {
    var version := NumberAt(s, pos, 0);
    if version.None? then None
    else
      var code := NumberAt(s, version.value.pos, 0);
      if code.None? then None
      else BodyAt(curve, s, code.value.pos, version.value.value, code.value.value % 0x1_0000_0000)
  }

  /** From the mask on. */
  function BodyAt(curve: Curve, s: seq<Byte>, pos: nat, version: nat, nCode: nat): Option<Parsed<Coins>> {
    var first, second := nCode / 4 % 2 == 1, nCode / 8 % 2 == 1;
    var mask := MaskAt(s, pos, nCode / 16 + (if first || second then 0 else 1), [first, second]);
    if mask.None? then None else TailAt(curve, s, mask.value.pos, version, nCode, mask.value.value)
  }

  /** From the outputs on. */
  function TailAt(curve: Curve, s: seq<Byte>, pos: nat, version: nat, nCode: nat,
                  vAvail: seq<bool>): Option<Parsed<Coins>> {
    var outs := OutsAt(curve, s, pos, vAvail, 0);
    if outs.None? then None
    else
      var height := NumberAt(s, outs.value.pos, 0);
      if height.None? then None
      else
        var c := Coins(nCode % 2 == 1, nCode / 2 % 2 == 1, outs.value.value, Signed32(height.value.value),
                       Signed32(version));
        Some(Parsed(c.Cleanup(), height.value.pos))
  }

  // ------------------------------------------------------------ the mask comes back

  ghost predicate MaskRead(vout: seq<TxOut>, vAvail: seq<bool>, b: nat) {
    |vAvail| == 2 + 8 * b && forall i :: 0 <= i < |vAvail| ==> (vAvail[i] <==> Avail(vout, i))
  }

  lemma MaskReadNext(vout: seq<TxOut>, vAvail: seq<bool>, b: nat)
    requires MaskRead(vout, vAvail, b)
    ensures MaskRead(vout, vAvail + ByteBits(MaskByte(vout, b, 8)), b + 1)
  {
    MaskBits(vout, b, 8);
    hide Bit, Avail, MaskByte;
    assert forall j: nat :: InByte(vout, b, j) <==> Avail(vout, |vAvail| + j);
    var more := vAvail + ByteBits(MaskByte(vout, b, 8));
    forall i | 0 <= i < |more| ensures more[i] <==> Avail(vout, i) {
      if i >= |vAvail| { assert more[i] == ByteBits(MaskByte(vout, b, 8))[i - |vAvail|]; }
    }
  }

  /** The count of non-zero bytes makes the reader stop behind the last byte written. */
  lemma {:induction false} MaskRoundTrip(s: seq<Byte>, pos: nat, vout: seq<TxOut>, b: nat, n: nat, vAvail: seq<bool>)
    requires b <= n && (n > 0 ==> MaskByte(vout, n - 1, 8) != 0)
    requires At(s, pos, MaskFrom(vout, b, n)) && MaskRead(vout, vAvail, b)
    ensures
      var r := MaskAt(s, pos, NonZero(vout, b, n), vAvail);
      r.Some? && r.value.pos == pos + (n - b) && MaskRead(vout, r.value.value, n)
    decreases n - b
  {
    hide MaskByte, Avail, MaskRead;
    if b < n {
      NonZeroPositive(vout, b, n);
      var x := MaskByte(vout, b, 8);
      AtConcat(s, pos, [x], MaskFrom(vout, b + 1, n));
      assert s[pos] == s[pos..pos + 1][0] == x;
      MaskReadNext(vout, vAvail, b);
      MaskRoundTrip(s, pos + 1, vout, b + 1, n, vAvail + ByteBits(x));
    }
  }

  lemma {:induction false} NonZeroPositive(vout: seq<TxOut>, b: nat, n: nat)
    requires b < n && MaskByte(vout, n - 1, 8) != 0
    ensures NonZero(vout, b, n) > 0
    decreases n - b
  {
    hide MaskByte;
    if b < n - 1 { NonZeroPositive(vout, b + 1, n); }
  }

  // ------------------------------------------------------------ the outputs come back

  /** What a stored output keeps: not how often it was mixed. */
  function Stored(out: TxOut): TxOut { if out.IsNull() then NULL_OUT else TxOut(out.nValue, out.script, -10) }

  predicate InRange(out: TxOut) {
    out.IsNull() || (0 <= out.nValue <= 0x1000_0000_0000_0000 && |out.script| + 6 < 0x1_0000_0000)
  }

  lemma {:induction false} StripIs(n: nat, m: nat, e: nat, k: nat, f: nat)
    requires Shifted(n, k, f) && n == m * Pow(10, e) && m > 0 && e <= f
    ensures Strip(m, e) == Compact(k, f)
    decreases 9 - e
  {
    hide Pow;
    if m % 10 == 0 && e < 9 {
      TenStep(m, e);
      if e == f {
        PowPositive(10, e);
        SameFactor(m, k, Pow(10, e));
      }
      StripIs(n, m / 10, e + 1, k, f);
    } else {
      ShiftedUnique(n, m, e, k, f);
    }
  }

  lemma {:induction false} StripFits(m: nat, e: nat)
    requires e <= 9 && 0 < m <= 0x1000_0000_0000_0000
    ensures 0 < Strip(m, e) < 0x1_0000_0000_0000_0000
    decreases 9 - e
  {
    if m % 10 == 0 && e < 9 { StripFits(m / 10, e + 1); }
  }

  lemma {:induction false} StripShifted(n: nat, m: nat, e: nat) returns (k: nat, f: nat)
    requires n == m * Pow(10, e) && n > 0 && m > 0 && e <= 9
    ensures Shifted(n, k, f) && Strip(m, e) == Compact(k, f)
    decreases 9 - e
  {
    hide Pow;
    if m % 10 == 0 && e < 9 {
      TenStep(m, e);
      k, f := StripShifted(n, m / 10, e + 1);
    } else {
      k, f := m, e;
    }
  }

  lemma AmountRoundTrip(n: nat)
    requires n <= 0x1000_0000_0000_0000
    ensures 0 <= CompactOf(n) < 0x1_0000_0000_0000_0000 && Amount(CompactOf(n)) == n
  {
    hide Strip, Amount, Compact;
    if n == 0 {
      AmountZero();
    } else {
      TenZero();
      StripFits(n, 0);
      var k, f := StripShifted(n, n, 0);
      AmountOfCompact(n, k, f);
    }
  }

  lemma AmountZero()
    ensures Amount(0) == 0
  {
  }

  lemma OutRoundTrip(curve: Curve, s: seq<Byte>, pos: nat, out: TxOut)
    requires curve.Valid() && InRange(out) && !out.IsNull() && At(s, pos, OutBytes(curve, out))
    ensures Is(OutAt(curve, s, pos), Stored(out), pos + |OutBytes(curve, out)|)
  {
    AmountRoundTrip(out.nValue);
    assert |out.script| + 6 < 0x1_0000_0000 && out.nValue < 0x8000_0000_0000_0000;
    var v, w := VarIntOf(CompactOf(out.nValue)), ScriptBytes(curve, out.script);
    assert OutBytes(curve, out) == v + w;
    hide *;
    TwoParts(curve, s, pos, out, CompactOf(out.nValue), v, w);
  }

  lemma TwoParts(curve: Curve, s: seq<Byte>, pos: nat, out: TxOut, x: nat, v: seq<Byte>, w: seq<Byte>)
    requires curve.Valid() && v == VarIntOf(x) && w == ScriptBytes(curve, out.script) && At(s, pos, v + w)
    requires x < 0x1_0000_0000_0000_0000 && Amount(x) == out.nValue < 0x8000_0000_0000_0000
    requires |out.script| + 6 < 0x1_0000_0000 && !out.IsNull()
    ensures Is(OutAt(curve, s, pos), Stored(out), pos + |v + w|)
  {
    hide *;
    AtConcat(s, pos, v, w);
    ReadWritten(s, pos, x);
    ScriptRoundTrip(curve, s, pos + |v|, out.script);
    OutParts(curve, s, pos, x, pos + |v|, out, pos + |v| + |w|);
  }

  lemma OutParts(curve: Curve, s: seq<Byte>, pos: nat, x: nat, p: nat, out: TxOut, q: nat)
    requires ReadsNumber(s, pos, x, p) && x < 0x1_0000_0000_0000_0000 && Amount(x) == out.nValue < 0x8000_0000_0000_0000
    requires Is(ScriptAt(curve, s, p), out.script, q) && !out.IsNull()
    ensures Is(OutAt(curve, s, pos), Stored(out), q)
  {
    hide NumberAt, Amount, ScriptAt;
  }

  /** Output i as stored; there are null ones behind the last. */
  function StoredAt(vout: seq<TxOut>, i: nat): TxOut { if i < |vout| then Stored(vout[i]) else NULL_OUT }

  function StoredTo(vout: seq<TxOut>, i: nat, n: nat): seq<TxOut>
    requires i <= n
  {
    seq(n - i, k requires 0 <= k => StoredAt(vout, i + k))
  }

  lemma StoredNext(vout: seq<TxOut>, i: nat, n: nat)
    requires i < n
    ensures StoredTo(vout, i, n) == [StoredAt(vout, i)] + StoredTo(vout, i + 1, n)
  {
  }

  /** The mask tells which outputs there are, and there are none behind it. */
  ghost predicate Covers(vout: seq<TxOut>, vAvail: seq<bool>) {
    && (forall k :: 0 <= k < |vAvail| ==> (vAvail[k] <==> Avail(vout, k)))
    && (forall k :: |vAvail| <= k < |vout| ==> vout[k].IsNull())
  }

  predicate AllInRange(vout: seq<TxOut>) { forall k :: 0 <= k < |vout| ==> InRange(vout[k]) }

  lemma {:induction false} OutsRoundTrip(curve: Curve, s: seq<Byte>, pos: nat, vout: seq<TxOut>, vAvail: seq<bool>,
                                         i: nat)
    requires curve.Valid() && AllInRange(vout) && Covers(vout, vAvail)
    requires At(s, pos, OutsFrom(curve, vout, i)) && i <= |vAvail|
    ensures Is(OutsAt(curve, s, pos, vAvail, i), StoredTo(vout, i, |vAvail|), pos + |OutsFrom(curve, vout, i)|)
    decreases |vAvail| - i
  {
    hide *;
    if i == |vAvail| {
      OutsDone(curve, s, pos, vout, vAvail);
    } else {
      StoredNext(vout, i, |vAvail|);
      CoveredAt(vout, vAvail, i);
      OutsFromNext(curve, vout, i);
      if vAvail[i] {
        var o := OutBytes(curve, vout[i]);
        AtConcat(s, pos, o, OutsFrom(curve, vout, i + 1));
        OutThere(curve, s, pos, vout, i);
        OutsRoundTrip(curve, s, pos + |o|, vout, vAvail, i + 1);
        OutsTaken(curve, s, pos, vAvail, i, StoredAt(vout, i), pos + |o|, StoredTo(vout, i + 1, |vAvail|),
                  pos + |o| + |OutsFrom(curve, vout, i + 1)|);
      } else {
        OutsRoundTrip(curve, s, pos, vout, vAvail, i + 1);
        OutsSkipped(curve, s, pos, vAvail, i, StoredTo(vout, i + 1, |vAvail|), pos + |OutsFrom(curve, vout, i + 1)|);
      }
    }
  }

  lemma OutsDone(curve: Curve, s: seq<Byte>, pos: nat, vout: seq<TxOut>, vAvail: seq<bool>)
    requires Covers(vout, vAvail)
    ensures Is(OutsAt(curve, s, pos, vAvail, |vAvail|), StoredTo(vout, |vAvail|, |vAvail|),
               pos + |OutsFrom(curve, vout, |vAvail|)|)
  {
    NoOuts(curve, vout, |vAvail|);
    StoredNone(vout, |vAvail|);
  }

  lemma CoveredAt(vout: seq<TxOut>, vAvail: seq<bool>, i: nat)
    requires Covers(vout, vAvail) && i < |vAvail|
    ensures vAvail[i] <==> Avail(vout, i)
    ensures !vAvail[i] ==> StoredAt(vout, i) == NULL_OUT
    ensures vAvail[i] ==> i < |vout|
  {
  }

  lemma OutsFromNext(curve: Curve, vout: seq<TxOut>, i: nat)
    ensures OutsFrom(curve, vout, i) ==
      if Avail(vout, i) then OutBytes(curve, vout[i]) + OutsFrom(curve, vout, i + 1) else OutsFrom(curve, vout, i + 1)
  {
    hide OutBytes;
    if i < |vout| { assert [] + OutsFrom(curve, vout, i + 1) == OutsFrom(curve, vout, i + 1); }
  }

  lemma OutThere(curve: Curve, s: seq<Byte>, pos: nat, vout: seq<TxOut>, i: nat)
    requires curve.Valid() && AllInRange(vout) && Avail(vout, i) && i < |vout| && At(s, pos, OutBytes(curve, vout[i]))
    ensures Is(OutAt(curve, s, pos), StoredAt(vout, i), pos + |OutBytes(curve, vout[i])|)
  {
    hide OutAt, OutBytes;
    assert InRange(vout[i]);
    OutRoundTrip(curve, s, pos, vout[i]);
  }

  lemma OutsTaken(curve: Curve, s: seq<Byte>, pos: nat, vAvail: seq<bool>, i: nat, o: TxOut, p1: nat, rest: seq<TxOut>,
                  p2: nat)
    requires i < |vAvail| && vAvail[i] && Is(OutAt(curve, s, pos), o, p1)
    requires Is(OutsAt(curve, s, p1, vAvail, i + 1), rest, p2)
    ensures Is(OutsAt(curve, s, pos, vAvail, i), [o] + rest, p2)
  {
    hide OutAt;
  }

  lemma OutsSkipped(curve: Curve, s: seq<Byte>, pos: nat, vAvail: seq<bool>, i: nat, rest: seq<TxOut>, p2: nat)
    requires i < |vAvail| && !vAvail[i] && Is(OutsAt(curve, s, pos, vAvail, i + 1), rest, p2)
    ensures Is(OutsAt(curve, s, pos, vAvail, i), [NULL_OUT] + rest, p2)
  {
    hide OutAt;
  }

  lemma StoredNone(vout: seq<TxOut>, i: nat)
    ensures StoredTo(vout, i, i) == []
  {
  }

  lemma {:induction false} NoOuts(curve: Curve, vout: seq<TxOut>, i: nat)
    requires forall k :: i <= k < |vout| ==> vout[k].IsNull()
    ensures OutsFrom(curve, vout, i) == []
    decreases |vout| - i
  {
    if i < |vout| { NoOuts(curve, vout, i + 1); }
  }

  // ------------------------------------------------------------ the whole comes back

  /** What storing and reading makes of the outputs. */
  function StoredOuts(vout: seq<TxOut>): seq<TxOut> {
    seq(|vout|, i requires 0 <= i < |vout| => Stored(vout[i]))
  }

  /** Null outputs at the end make no difference to what remains. */
  lemma {:induction false} TrimExtra(t: seq<TxOut>, u: seq<TxOut>)
    requires u <= t && forall i :: |u| <= i < |t| ==> t[i].IsNull()
    ensures TrimNulls(t) == TrimNulls(u)
    decreases |t|
  {
    if |u| < |t| {
      TrimExtra(t[..|t| - 1], u);
    } else {
      assert t == u;
    }
  }

  lemma TrimStored(vout: seq<TxOut>, n: nat)
    requires forall k :: n <= k < |vout| ==> vout[k].IsNull()
    ensures TrimNulls(StoredTo(vout, 0, n)) == TrimNulls(StoredOuts(vout))
  {
    var t, u := StoredTo(vout, 0, n), StoredOuts(vout);
    hide TrimNulls;
    if n >= |vout| {
      assert t[..|u|] == u;
      TrimExtra(t, u);
    } else {
      assert u[..n] == t;
      TrimExtra(u, t);
    }
  }

  lemma NothingBehindMask(vout: seq<TxOut>, k: nat)
    requires 2 + 8 * MaskSize(vout, MaskBytes(vout)) <= k < |vout|
    ensures vout[k].IsNull()
  {
    var b, j := (k - 2) / 8, (k - 2) % 8;
    MaskSizeZero(vout, MaskBytes(vout), b);
    MaskZero(vout, b);
    hide MaskByte;
    assert !InByte(vout, b, j);
  }

  lemma {:induction false} MaskSizeZero(vout: seq<TxOut>, n: nat, b: nat)
    requires MaskSize(vout, n) <= b < n
    ensures MaskByte(vout, b, 8) == 0
  {
    hide MaskByte;
    if b < n - 1 { MaskSizeZero(vout, n - 1, b); }
  }

  predicate CodecRange(c: Coins) {
    && 0 <= c.nVersion < 0x8000_0000 && 0 <= c.nHeight < 0x8000_0000
    && |c.vout| <= 0x7fff_fffa
    && AllInRange(c.vout)
  }

  lemma {:induction false} NonZeroBound(vout: seq<TxOut>, b: nat, n: nat)
    ensures NonZero(vout, b, n) <= if b < n then n - b else 0
    decreases n - b
  {
    hide MaskByte;
    if b < n { NonZeroBound(vout, b + 1, n); }
  }

  lemma LowBits(k: nat, r: nat)
    requires r < 16
    ensures (16 * k + r) / 16 == k && (16 * k + r) % 2 == r % 2 && (16 * k + r) / 2 % 2 == r / 2 % 2
    ensures (16 * k + r) / 4 % 2 == r / 4 % 2 && (16 * k + r) / 8 % 2 == r / 8 % 2
  {
    var n := 16 * k + r;
    DivMod(n, 16, k, r);
    DivMod(n, 2, 8 * k + r / 2, r % 2);
    DivMod(n, 4, 4 * k + r / 4, r % 4);
    DivMod(n, 8, 2 * k + r / 8, r % 8);
    DivMod(8 * k + r / 2, 2, 4 * k + r / 2 / 2, r / 2 % 2);
    DivMod(4 * k + r / 4, 2, 2 * k + r / 4 / 2, r / 4 % 2);
    DivMod(2 * k + r / 8, 2, k + r / 8 / 2, r / 8 % 2);
  }

  lemma FourBits(a: nat, b: nat, c: nat, d: nat)
    requires a <= 1 && b <= 1 && c <= 1 && d <= 1
    ensures
      var r := a + 2 * b + 4 * c + 8 * d;
      r < 16 && r % 2 == a && r / 2 % 2 == b && r / 4 % 2 == c && r / 8 % 2 == d
  {
  }

  lemma HeaderFields(c: Coins)
    requires CodecRange(c) && !c.IsPruned()
    ensures 0 <= HeaderCode(c) < 0x1_0000_0000
    ensures
      var nCode := HeaderCode(c);
      var first, second := Avail(c.vout, 0), Avail(c.vout, 1);
      && nCode % 2 == Flag(c.fCoinBase) && nCode / 2 % 2 == Flag(c.fCoinStake)
      && nCode / 4 % 2 == Flag(first) && nCode / 8 % 2 == Flag(second)
      && nCode / 16 + (if first || second then 0 else 1) == NonZero(c.vout, 0, MaskBytes(c.vout))
  {
    var n := MaskBytes(c.vout);
    var first, second := Avail(c.vout, 0), Avail(c.vout, 1);
    NonZeroBound(c.vout, 0, n);
    if !first && !second {
      SomeMask(c);
    }
    MaskBytesBound(c.vout);
    HeaderParts(NonZero(c.vout, 0, n), c.fCoinBase, c.fCoinStake, first, second);
  }

  lemma HeaderParts(k: nat, coinBase: bool, coinStake: bool, first: bool, second: bool)
    requires k <= 0xfff_ffff && (first || second || k > 0)
    ensures
      var m := k - (if first || second then 0 else 1);
      var nCode := 16 * m + (Flag(coinBase) + 2 * Flag(coinStake) + 4 * Flag(first) + 8 * Flag(second));
      && 0 <= nCode < 0x1_0000_0000 && nCode / 16 == m
      && nCode % 2 == Flag(coinBase) && nCode / 2 % 2 == Flag(coinStake)
      && nCode / 4 % 2 == Flag(first) && nCode / 8 % 2 == Flag(second)
  {
    var a, b, d, e := Flag(coinBase), Flag(coinStake), Flag(first), Flag(second);
    FourBits(a, b, d, e);
    LowBits(k - (if first || second then 0 else 1), a + 2 * b + 4 * d + 8 * e);
  }

  lemma MaskBytesBound(vout: seq<TxOut>)
    requires |vout| <= 0x7fff_fffa
    ensures MaskBytes(vout) <= 0xfff_ffff
  {
  }

  /** The assertion of Serialize: without the first two outputs some mask byte is not zero. */
  lemma SomeMask(c: Coins)
    requires !c.IsPruned() && !Avail(c.vout, 0) && !Avail(c.vout, 1)
    ensures NonZero(c.vout, 0, MaskBytes(c.vout)) > 0
  {
    var k :| 0 <= k < |c.vout| && !c.vout[k].IsNull();
    assert Avail(c.vout, k) && k >= 2;
    var n := MaskBytes(c.vout);
    NonZeroSize(c.vout, n);
    var m: nat := MaskSize(c.vout, n);
    hide NonZero, MaskSize, Avail, MaskByte, MaskBytes;
    if m == 0 {
      NothingBehindMask(c.vout, k);
    }
  }

  /** What reading back yields: the outputs as stored, null ones at the end dropped. */
  function Kept(c: Coins): Coins { c.(vout := StoredOuts(c.vout)).Cleanup() }

  /** Unserialize after Serialize: everything comes back but the mixing rounds, and the reader
      stops behind the last byte written. */
  lemma CoinsRoundTrip(curve: Curve, s: seq<Byte>, pos: nat, c: Coins)
    requires curve.Valid() && CodecRange(c) && !c.IsPruned() && At(s, pos, CoinsBytes(curve, c))
    ensures Is(CoinsAt(curve, s, pos), Kept(c), pos + |CoinsBytes(curve, c)|)
  {
    HeaderFields(c);
    var v0, v1, v4 := VarIntOf(c.nVersion), VarIntOf(HeaderCode(c)), VarIntOf(c.nHeight);
    var v2, v3 := MaskFrom(c.vout, 0, MaskSize(c.vout, MaskBytes(c.vout))), OutsFrom(curve, c.vout, 0);
    assert c.nVersion >= 0 && c.nHeight >= 0;
    assert CoinsBytes(curve, c) == v0 + (v1 + (v2 + (v3 + v4)));
    hide *;
    AtFive(s, pos, v0, v1, v2, v3, v4);
    PartsRoundTrip(curve, s, pos, c, v0, v1, v2, v3, v4);
  }

  lemma PartsRoundTrip(curve: Curve, s: seq<Byte>, pos: nat, c: Coins, v0: seq<Byte>, v1: seq<Byte>, v2: seq<Byte>,
                       v3: seq<Byte>, v4: seq<Byte>)
    requires curve.Valid() && CodecRange(c) && !c.IsPruned() && 0 <= HeaderCode(c) < 0x1_0000_0000 && c.nVersion >= 0
    requires c.nHeight >= 0
    requires v0 == VarIntOf(c.nVersion) && At(s, pos, v0)
    requires v1 == VarIntOf(HeaderCode(c)) && At(s, pos + |v0|, v1)
    requires v2 == MaskFrom(c.vout, 0, MaskSize(c.vout, MaskBytes(c.vout))) && At(s, pos + |v0| + |v1|, v2)
    requires v3 == OutsFrom(curve, c.vout, 0) && At(s, pos + |v0| + |v1| + |v2|, v3)
    requires v4 == VarIntOf(c.nHeight) && At(s, pos + |v0| + |v1| + |v2| + |v3|, v4)
    ensures Is(CoinsAt(curve, s, pos), Kept(c), pos + |v0| + |v1| + |v2| + |v3| + |v4|)
  {
    hide *;
    ReadWritten(s, pos, c.nVersion);
    ReadWritten(s, pos + |v0|, HeaderCode(c));
    BodyRoundTrip(curve, s, pos + |v0| + |v1|, c, v2, v3, v4);
    HeadRead(curve, s, pos, c.nVersion, HeaderCode(c), pos + |v0|, pos + |v0| + |v1|, Kept(c),
             pos + |v0| + |v1| + |v2| + |v3| + |v4|);
  }

  lemma BodyRoundTrip(curve: Curve, s: seq<Byte>, p2: nat, c: Coins, v2: seq<Byte>, v3: seq<Byte>, v4: seq<Byte>)
    requires curve.Valid() && CodecRange(c) && !c.IsPruned() && HeaderCode(c) >= 0 && c.nVersion >= 0 && c.nHeight >= 0
    requires v2 == MaskFrom(c.vout, 0, MaskSize(c.vout, MaskBytes(c.vout))) && At(s, p2, v2)
    requires v3 == OutsFrom(curve, c.vout, 0) && At(s, p2 + |v2|, v3)
    requires v4 == VarIntOf(c.nHeight) && At(s, p2 + |v2| + |v3|, v4)
    ensures Is(BodyAt(curve, s, p2, c.nVersion, HeaderCode(c)), Kept(c), p2 + |v2| + |v3| + |v4|)
  {
    hide *;
    var vAvail := MaskThere(s, p2, c);
    OutsThere(curve, s, p2 + |v2|, c, vAvail);
    ReadWritten(s, p2 + |v2| + |v3|, c.nHeight);
    var vout := StoredTo(c.vout, 0, |vAvail|);
    TailRead(curve, s, c, c.nVersion, HeaderCode(c), p2 + |v2|, vAvail, vout, p2 + |v2| + |v3|,
             p2 + |v2| + |v3| + |v4|);
    KeptIs(c, vout);
    BodyRead(curve, s, c, c.nVersion, HeaderCode(c), p2, vAvail, p2 + |v2|, Kept(c), p2 + |v2| + |v3| + |v4|);
  }

  lemma OutsThere(curve: Curve, s: seq<Byte>, p: nat, c: Coins, vAvail: seq<bool>)
    requires curve.Valid() && CodecRange(c) && At(s, p, OutsFrom(curve, c.vout, 0))
    requires MaskRead(c.vout, vAvail, MaskSize(c.vout, MaskBytes(c.vout)))
    ensures Is(OutsAt(curve, s, p, vAvail, 0), StoredTo(c.vout, 0, |vAvail|), p + |OutsFrom(curve, c.vout, 0)|)
    ensures TrimNulls(StoredTo(c.vout, 0, |vAvail|)) == TrimNulls(StoredOuts(c.vout))
  {
    hide *;
    RangeOfOuts(c);
    MaskAvail(c.vout, vAvail, MaskSize(c.vout, MaskBytes(c.vout)));
    OutsRoundTrip(curve, s, p, c.vout, vAvail, 0);
    TrimCovered(c.vout, vAvail);
  }

  lemma RangeOfOuts(c: Coins)
    requires CodecRange(c)
    ensures AllInRange(c.vout)
  {
  }

  lemma TrimCovered(vout: seq<TxOut>, vAvail: seq<bool>)
    requires Covers(vout, vAvail)
    ensures TrimNulls(StoredTo(vout, 0, |vAvail|)) == TrimNulls(StoredOuts(vout))
  {
    hide Avail, TrimNulls, StoredTo, StoredOuts;
    TrimStored(vout, |vAvail|);
  }

  lemma MaskThere(s: seq<Byte>, p2: nat, c: Coins) returns (vAvail: seq<bool>)
    requires At(s, p2, MaskFrom(c.vout, 0, MaskSize(c.vout, MaskBytes(c.vout))))
    ensures MaskRead(c.vout, vAvail, MaskSize(c.vout, MaskBytes(c.vout)))
    ensures Is(MaskAt(s, p2, NonZero(c.vout, 0, MaskBytes(c.vout)), [Avail(c.vout, 0), Avail(c.vout, 1)]), vAvail,
               p2 + |MaskFrom(c.vout, 0, MaskSize(c.vout, MaskBytes(c.vout)))|)
  {
    var n := MaskSize(c.vout, MaskBytes(c.vout));
    var first, second := Avail(c.vout, 0), Avail(c.vout, 1);
    assert n > 0 ==> MaskByte(c.vout, n - 1, 8) != 0;
    NonZeroSize(c.vout, MaskBytes(c.vout));
    assert MaskRead(c.vout, [first, second], 0);
    hide *;
    MaskRoundTrip(s, p2, c.vout, 0, n, [first, second]);
    MaskLength(c.vout, n);
    vAvail := MaskAt(s, p2, NonZero(c.vout, 0, n), [first, second]).value.value;
    IsMask(s, p2, NonZero(c.vout, 0, n), [first, second], vAvail, p2 + n);
  }

  lemma IsMask(s: seq<Byte>, pos: nat, k: nat, first: seq<bool>, vAvail: seq<bool>, p: nat)
    requires var r := MaskAt(s, pos, k, first); r.Some? && r.value.value == vAvail && r.value.pos == p
    ensures Is(MaskAt(s, pos, k, first), vAvail, p)
  {
  }

  lemma MaskLength(vout: seq<TxOut>, n: nat)
    ensures |MaskFrom(vout, 0, n)| == n
  {
    MaskFromLength(vout, 0, n);
  }

  lemma {:induction false} MaskFromLength(vout: seq<TxOut>, b: nat, n: nat)
    requires b <= n
    ensures |MaskFrom(vout, b, n)| == n - b
    decreases n - b
  {
    hide MaskByte;
    if b < n { MaskFromLength(vout, b + 1, n); }
  }

  lemma MaskAvail(vout: seq<TxOut>, vAvail: seq<bool>, n: nat)
    requires n == MaskSize(vout, MaskBytes(vout)) && MaskRead(vout, vAvail, n)
    ensures Covers(vout, vAvail)
  {
    forall k | |vAvail| <= k < |vout| ensures vout[k].IsNull() { NothingBehindMask(vout, k); }
  }

  lemma KeptIs(c: Coins, vout: seq<TxOut>)
    requires TrimNulls(vout) == TrimNulls(StoredOuts(c.vout))
    ensures c.(vout := vout).Cleanup() == Kept(c)
  {
  }

  /** The parts that have been read, put together, from the last on. */
  lemma TailRead(curve: Curve, s: seq<Byte>, c: Coins, version: nat, nCode: nat, p3: nat, vAvail: seq<bool>,
                 vout: seq<TxOut>, p4: nat, p5: nat)
    requires CodecRange(c) && !c.IsPruned() && version == c.nVersion && nCode == HeaderCode(c)
    requires Is(OutsAt(curve, s, p3, vAvail, 0), vout, p4) && ReadsNumber(s, p4, c.nHeight, p5)
    ensures Is(TailAt(curve, s, p3, version, nCode, vAvail), c.(vout := vout).Cleanup(), p5)
  {
    HeaderFields(c);
    FlagIs(c.fCoinBase);
    FlagIs(c.fCoinStake);
    SmallSigned(c.nHeight);
    SmallSigned(version);
    hide NumberAt, OutsAt, HeaderCode, TrimNulls, AllInRange, Avail, NonZero, MaskBytes, Flag, Signed32;
  }

  lemma SmallSigned(n: nat)
    requires n < 0x8000_0000
    ensures Signed32(n) == n
  {
  }

  lemma FlagIs(b: bool)
    ensures Flag(b) == 1 <==> b
  {
  }

  lemma BodyRead(curve: Curve, s: seq<Byte>, c: Coins, version: nat, nCode: nat, p2: nat, vAvail: seq<bool>, p3: nat,
                 d: Coins, p5: nat)
    requires CodecRange(c) && !c.IsPruned() && nCode == HeaderCode(c)
    requires Is(MaskAt(s, p2, NonZero(c.vout, 0, MaskBytes(c.vout)), [Avail(c.vout, 0), Avail(c.vout, 1)]), vAvail, p3)
    requires Is(TailAt(curve, s, p3, version, nCode, vAvail), d, p5)
    ensures Is(BodyAt(curve, s, p2, version, nCode), d, p5)
  {
    HeaderFields(c);
    assert (nCode / 4 % 2 == 1) == Avail(c.vout, 0) && (nCode / 8 % 2 == 1) == Avail(c.vout, 1);
    hide MaskAt, TailAt, HeaderCode, Avail, NonZero, MaskBytes, InRange;
  }

  lemma HeadRead(curve: Curve, s: seq<Byte>, pos: nat, version: nat, nCode: nat, p1: nat, p2: nat, d: Coins, p5: nat)
    requires ReadsNumber(s, pos, version, p1) && ReadsNumber(s, p1, nCode, p2) && nCode < 0x1_0000_0000
    requires Is(BodyAt(curve, s, p2, version, nCode), d, p5)
    ensures Is(CoinsAt(curve, s, pos), d, p5)
  {
    hide NumberAt, BodyAt;
  }

  /** The coins themselves come back exactly when they are cleaned up, no output was mixed and
      the null outputs between the others carry nothing. */
  lemma KeptExactly(c: Coins)
    ensures Kept(c) == c <==> c.IsClean() && forall i :: 0 <= i < |c.vout| ==> c.vout[i] == Stored(c.vout[i])
  {
    var t := StoredOuts(c.vout);
    if Kept(c) == c {
      assert t == c.vout by { assert TrimNulls(t) <= t && |t| == |c.vout|; }
      forall i | 0 <= i < |c.vout| ensures c.vout[i] == Stored(c.vout[i]) { assert t[i] == Stored(c.vout[i]); }
      assert c.vout == TrimNulls(t);
    }
    if c.IsClean() && forall i :: 0 <= i < |c.vout| ==> c.vout[i] == Stored(c.vout[i]) {
      assert t == c.vout;
    }
  }
}
