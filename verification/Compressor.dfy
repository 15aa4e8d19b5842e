/** The compact forms of amounts and of common scripts. */
module Compressor {
  import opened Common
  import opened Arithmetic
  import opened VarInt

  type Uint64 = x: nat | x < 0x1_0000_0000_0000_0000

  // ------------------------------------------------------------ amounts

  /** n = m * 10^e where either e = 9 or m does not end in a zero. */
  ghost predicate Shifted(n: nat, m: nat, e: nat) {
    n == m * Pow(10, e) && n > 0 && e <= 9 && (e < 9 ==> m % 10 != 0)
  }

  /** The compact form in terms of the digits: e zeros at the end (at most nine), then the last
      digit d and the rest, or the whole rest. */
  function Compact(m: nat, e: nat): int {
    if e < 9 then 1 + (m / 10 * 9 + m % 10 - 1) * 10 + e else 1 + (m - 1) * 10 + 9
  }

  const MODULUS: nat := 0x1_0000_0000_0000_0000

  /** In 64 bits, so a compact form that does not fit is cut. */
  method CompressAmount(amount: Uint64) returns (x: Uint64, ghost m: nat, ghost exponent: nat)
    ensures amount == 0 ==> x == 0
    ensures amount > 0 ==>
      Shifted(amount, m, exponent) && Compact(m, exponent) > 0 && x == Compact(m, exponent) % MODULUS
    ensures 0 < amount <= 0x1000_0000_0000_0000 ==> x == Compact(m, exponent)
  {
    hide Pow;
    m, exponent := 0, 0;
    if amount == 0 {
      return 0, 0, 0;
    }
    var n: Uint64 := amount;
    var e := 0;
    assert Pow(10, 0) == 1 by { TenZero(); }
    while n % 10 == 0 && e < 9
      invariant 0 < n <= amount && e <= 9 && amount == n * Pow(10, e)
    {
      TenStep(n, e);
      n := n / 10;
      e := e + 1;
    }
    m, exponent := n, e;
    if e < 9 {
      var d := n % 10;
      assert 1 <= d <= 9;
      n := n / 10;
      var y: Uint64 := (n * 9 + d - 1) % MODULUS;
      var z: Uint64 := y * 10 % MODULUS;
      x := (1 + z + e) % MODULUS;
      CutTwice(n * 9 + d - 1, 1 + e);
    } else {
      var z: Uint64 := (n - 1) * 10 % MODULUS;
      x := (1 + z + 9) % MODULUS;
      CutTwice(n - 1, 10);
      assert (n - 1) % MODULUS == n - 1 by { SmallMod(n - 1, MODULUS); }
    }
    if amount <= 0x1000_0000_0000_0000 {
      CompactFits(m, exponent);
      SmallMod(Compact(m, exponent), MODULUS);
    }
  }

  /** Cutting on the way is cutting at the end. */
  lemma CutTwice(y: nat, c: nat)
    ensures (c + y % MODULUS * 10 % MODULUS) % MODULUS == (c + y * 10) % MODULUS
  {
    WrapOnceTen(y);
    var w := y * 10;
    ModAdd(c + w % MODULUS, MODULUS, w / MODULUS);
  }

  lemma CompactFits(m: nat, e: nat)
    requires 0 < m <= 0x1000_0000_0000_0000 && e <= 9 && (e < 9 ==> m % 10 != 0)
    ensures 0 < Compact(m, e) < MODULUS
  {
  }

  /** The largest amount is lost: its compact form leaves 64 bits, and what is left stands for another. */
  lemma LargeAmountIsLost()
    ensures Shifted(MODULUS - 1, MODULUS - 1, 0) && Compact(MODULUS - 1, 0) >= MODULUS
    ensures Amount(Compact(MODULUS - 1, 0) % MODULUS) % MODULUS != MODULUS - 1
  {
    TenZero();
    assert Compact(MODULUS - 1, 0) % MODULUS == 18446744073709551603;
    assert Pow(10, 2) == 100 by { assert Pow(10, 1) == 10; }
    assert Amount(18446744073709551603) == 2049638230412172401 * 100;
  }

  lemma TenZero()
    ensures Pow(10, 0) == 1
  {
  }

  lemma TenStep(n: nat, e: nat)
    requires n > 0 && n % 10 == 0
    ensures 0 < n / 10 && n * Pow(10, e) == n / 10 * Pow(10, e + 1)
  {
    var q := n / 10;
    assert n == q * 10;
    assert q * 10 * Pow(10, e) == q * (10 * Pow(10, e)) by { MulAssoc(q, 10, Pow(10, e)); }
  }

  /** What a compact form stands for. */
  function Amount(x: nat): nat {
    if x == 0 then 0
    else
      var y := x - 1;
      var e := y % 10;
      var z := y / 10;
      if e < 9 then (z / 9 * 10 + z % 9 + 1) * Pow(10, e) else (z + 1) * Pow(10, 9)
  }

  /** In 64 bits, so an amount that does not fit is cut. */
  method DecompressAmount(x0: Uint64) returns (n: Uint64)
    ensures n == Amount(x0) % 0x1_0000_0000_0000_0000
  {
    if x0 == 0 {
      return 0;
    }
    var x := x0 - 1;
    var e := x % 10;
    x := x / 10;
    ghost var first := e;
    n := if e < 9 then x / 9 * 10 + x % 9 + 1 else x + 1;
    ghost var exact: nat := n;
    hide Pow;
    TenZero();
    SmallMod(n, 0x1_0000_0000_0000_0000);
    while e > 0
      invariant 0 <= e <= first && exact * Pow(10, e) == Amount(x0) && n == exact % 0x1_0000_0000_0000_0000
    {
      TenLess(exact, e);
      WrapOnceTen(exact);
      n := n * 10 % 0x1_0000_0000_0000_0000;
      exact := exact * 10;
      e := e - 1;
    }
  }

  lemma WrapOnceTen(exact: nat)
    ensures exact % 0x1_0000_0000_0000_0000 * 10 % 0x1_0000_0000_0000_0000 == exact * 10 % 0x1_0000_0000_0000_0000
  {
    var m := 0x1_0000_0000_0000_0000;
    var q := exact / m;
    assert exact * 10 == exact % m * 10 + q * 10 * m;
    ModAdd(exact % m * 10, m, q * 10);
  }

  lemma TenLess(n: nat, e: nat)
    requires e > 0
    ensures n * Pow(10, e) == n * 10 * Pow(10, e - 1)
    ensures n * 10 <= n * Pow(10, e)
  {
    MulAssoc(n, 10, Pow(10, e - 1));
    PowPositive(10, e - 1);
    MulMono(1, Pow(10, e - 1), n * 10);
  }

  /** Decompressing undoes compressing. */
  lemma AmountOfCompact(n: nat, m: nat, e: nat)
    requires Shifted(n, m, e)
    ensures Compact(m, e) > 0 && Amount(Compact(m, e)) == n
  {
    hide Pow;
    TenZero();
    assert m == 0 ==> m * Pow(10, e) == 0;
    if e < 9 {
      var z := m / 10 * 9 + m % 10 - 1;
      var x := 1 + z * 10 + e;
      assert (x - 1) % 10 == e && (x - 1) / 10 == z;
      assert z / 9 == m / 10 && z % 9 == m % 10 - 1;
    } else {
      assert (Compact(m, e) - 1) / 10 == m - 1;
    }
  }

  /** And compressing undoes decompressing: the two are a bijection. */
  lemma CompactOfAmount(x: nat, m: nat, e: nat)
    requires x > 0 && Shifted(Amount(x), m, e)
    ensures Compact(m, e) == x
  {
    var y := x - 1;
    var f, z := y % 10, y / 10;
    var k := if f < 9 then z / 9 * 10 + z % 9 + 1 else z + 1;
    hide Pow;
    assert Amount(x) == k * Pow(10, f) && (f < 9 ==> k % 10 != 0);
    ShiftedUnique(Amount(x), m, e, k, f);
    hide Amount, Shifted;
    assert f < 9 ==> k / 10 == z / 9 && k % 10 == z % 9 + 1;
  }

  lemma ShiftedUnique(n: nat, m: nat, e: nat, k: nat, f: nat)
    requires Shifted(n, m, e) && Shifted(n, k, f)
    ensures m == k && e == f
  {
    if e < f {
      EndsInZero(m, e, k, f);
    } else if f < e {
      EndsInZero(k, f, m, e);
    } else {
      PowPositive(10, e);
      hide Pow;
      SameFactor(m, k, Pow(10, e));
    }
  }

  lemma SameFactor(m: nat, k: nat, p: nat)
    requires p > 0 && m * p == k * p
    ensures m == k
  {
    DivMod(m * p, p, m, 0);
    DivMod(m * p, p, k, 0);
  }

  /** A number with more zeros at the end than were taken off still ends in a zero. */
  lemma EndsInZero(m: nat, e: nat, k: nat, f: nat)
    requires e < f && m * Pow(10, e) == k * Pow(10, f)
    ensures m % 10 == 0
  {
    PowAdd(10, e, f - e);
    PowPositive(10, e);
    var p, q := Pow(10, e), Pow(10, f - e - 1);
    assert Pow(10, f - e) == 10 * q;
    hide Pow;
    assert k * (p * (10 * q)) == k * q * 10 * p by {
      assert p * (10 * q) == 10 * q * p;
      MulAssoc(k, 10 * q, p);
      assert k * (10 * q) == k * q * 10 by { MulAssoc(k, q, 10); assert 10 * q == q * 10; }
    }
    MulMono(0, k, q);
    SameFactor(m, k * q * 10, p);
  }

  // ------------------------------------------------------------ scripts

  const OP_DUP: Byte := 0x76
  const OP_EQUAL: Byte := 0x87
  const OP_EQUALVERIFY: Byte := 0x88
  const OP_HASH160: Byte := 0xa9
  const OP_CHECKSIG: Byte := 0xac

  /** The curve: which 65-byte keys are points, and the point for 33 bytes, if there is one. */
  datatype Curve = Curve(isFullyValid: seq<Byte> -> bool, decompress: seq<Byte> -> Option<seq<Byte>>) {
    /** A valid key is found again from its first coordinate and the parity of the second. */
    ghost predicate Valid() {
      && (forall k :: |k| == 65 && k[0] == 4 && isFullyValid(k) ==> decompress([2 + k[64] % 2] + k[1..33]) == Some(k))
      && (forall k :: decompress(k).Some? ==> |decompress(k).value| == 65)
    }

    /** What is found is a valid key with that first coordinate and that parity. */
    ghost predicate Exact() {
      forall k :: |k| == 33 && decompress(k).Some? ==>
        var full := decompress(k).value;
        |full| == 65 && full[0] == 4 && isFullyValid(full) && full[1..33] == k[1..] && full[64] % 2 + 2 == k[0]
    }
  }

  predicate IsToKeyID(script: seq<Byte>) {
    |script| == 25 && script[0] == OP_DUP && script[1] == OP_HASH160 && script[2] == 20 &&
    script[23] == OP_EQUALVERIFY && script[24] == OP_CHECKSIG
  }

  predicate IsToScriptID(script: seq<Byte>) {
    |script| == 23 && script[0] == OP_HASH160 && script[1] == 20 && script[22] == OP_EQUAL
  }

  predicate IsToCompressedKey(script: seq<Byte>) {
    |script| == 35 && script[0] == 33 && script[34] == OP_CHECKSIG && (script[1] == 2 || script[1] == 3)
  }

  predicate IsToFullKey(curve: Curve, script: seq<Byte>) {
    |script| == 67 && script[0] == 65 && script[66] == OP_CHECKSIG && script[1] == 4
      && curve.isFullyValid(script[1..66])
  }

  function Compress(curve: Curve, script: seq<Byte>): Option<seq<Byte>> {
    if IsToKeyID(script) then Some([0 as Byte] + script[3..23])
    else if IsToScriptID(script) then Some([1 as Byte] + script[2..22])
    else if IsToCompressedKey(script) then Some([script[1]] + script[2..34])
    else if IsToFullKey(curve, script) then Some([4 + script[65] % 2] + script[2..34])
    else None
  }

  function GetSpecialSize(nSize: nat): nat {
    if nSize <= 1 then 20 else if nSize <= 5 then 32 else 0
  }

  function Decompress(curve: Curve, nSize: nat, data: seq<Byte>): Option<seq<Byte>>
    requires nSize < 6 && |data| == GetSpecialSize(nSize)
  {
    if nSize == 0 then Some([OP_DUP, OP_HASH160, 20] + data + [OP_EQUALVERIFY, OP_CHECKSIG])
    else if nSize == 1 then Some([OP_HASH160, 20] + data + [OP_EQUAL])
    else if nSize <= 3 then Some([33 as Byte, nSize] + data + [OP_CHECKSIG])
    else
      var key := curve.decompress([nSize - 2] + data);
      if key.None? then None else Some([65 as Byte] + key.value + [OP_CHECKSIG])
  }

  /** A special script comes back from its compact form. */
  lemma DecompressCompressed(curve: Curve, script: seq<Byte>)
    requires curve.Valid() && Compress(curve, script).Some?
    ensures
      var c := Compress(curve, script).value;
      && |c| > 0 && c[0] < 6 && |c| == 1 + GetSpecialSize(c[0])
      && Decompress(curve, c[0], c[1..]) == Some(script)
  {
    var c := Compress(curve, script).value;
    if IsToKeyID(script) {
      assert c[1..] == script[3..23];
      assert script == [OP_DUP, OP_HASH160, 20] + script[3..23] + [OP_EQUALVERIFY, OP_CHECKSIG];
    } else if IsToScriptID(script) {
      assert c[1..] == script[2..22];
      assert script == [OP_HASH160, 20] + script[2..22] + [OP_EQUAL];
    } else if IsToCompressedKey(script) {
      assert c[1..] == script[2..34];
      assert script == [33 as Byte, script[1]] + script[2..34] + [OP_CHECKSIG];
    } else {
      var k := script[1..66];
      assert c[1..] == script[2..34] == k[1..33];
      assert [c[0] - 2] + c[1..] == [2 + k[64] % 2] + k[1..33];
      assert curve.decompress([2 + k[64] % 2] + k[1..33]) == Some(k);
      assert script == [65 as Byte] + k + [OP_CHECKSIG];
    }
  }

  /** The scripts with a compact form: payments to the hash of a key or of a script, to a compressed key, and
      to a full key that is a point; the compact form is a number for the kind, and 20 or 32 bytes. */
  lemma CompactForms(curve: Curve, hash: seq<Byte>, key: seq<Byte>, full: seq<Byte>)
    requires |hash| == 20 && |key| == 33 && |full| == 65
    ensures Compress(curve, [0x76, 0xa9, 20] + hash + [0x88, 0xac]) == Some([0 as Byte] + hash)
    ensures Compress(curve, [0xa9, 20] + hash + [0x87]) == Some([1 as Byte] + hash)
    ensures key[0] == 2 || key[0] == 3 ==> Compress(curve, [33 as Byte] + key + [0xac]) == Some(key)
    ensures full[0] == 4 && curve.isFullyValid(full) ==>
      Compress(curve, [65 as Byte] + full + [0xac]) == Some([4 + full[64] % 2] + full[1..33])
  {
    var a: seq<Byte> := [0x76, 0xa9, 20] + hash + [0x88, 0xac];
    assert a[3..23] == hash;
    var b: seq<Byte> := [0xa9, 20] + hash + [0x87];
    assert b[2..22] == hash;
    var c: seq<Byte> := [33 as Byte] + key + [0xac];
    assert [c[1]] + c[2..34] == key;
    var d: seq<Byte> := [65 as Byte] + full + [0xac];
    assert d[1..66] == full && d[2..34] == full[1..33] && d[65] == full[64];
  }

  /** Whatever can be decompressed is the compact form of what it yields. */
  lemma CompressDecompressed(curve: Curve, nSize: Byte, data: seq<Byte>)
    requires curve.Exact() && nSize < 6 && |data| == GetSpecialSize(nSize) && Decompress(curve, nSize, data).Some?
    ensures Compress(curve, Decompress(curve, nSize, data).value) == Some([nSize] + data)
  {
    if nSize <= 1 {
      CompactForms(curve, data, seq(33, _ => 0), seq(65, _ => 0));
    } else if nSize <= 3 {
      var key := [nSize] + data;
      CompactForms(curve, seq(20, _ => 0), key, seq(65, _ => 0));
      assert [33 as Byte] + key + [0xac] == [33 as Byte, nSize] + data + [OP_CHECKSIG];
    } else {
      var full := curve.decompress([nSize - 2] + data).value;
      assert ([nSize - 2] + data)[1..] == data;
      CompactForms(curve, seq(20, _ => 0), seq(33, _ => 0), full);
    }
  }

  ghost predicate Yields(curve: Curve, nSize: Byte, data: seq<Byte>, script: seq<Byte>) {
    nSize < 6 && |data| == GetSpecialSize(nSize) && Decompress(curve, nSize, data) == Some(script)
  }

  /** So exactly those scripts have a compact form that some compact form yields. */
  lemma HasCompactForm(curve: Curve, script: seq<Byte>)
    requires curve.Valid() && curve.Exact()
    ensures Compress(curve, script).Some? <==> exists nSize: Byte, data: seq<Byte> :: Yields(curve, nSize, data, script)
  {
    hide Compress, Decompress;
    if Compress(curve, script).Some? {
      var c := Compress(curve, script).value;
      DecompressCompressed(curve, script);
      assert Yields(curve, c[0], c[1..], script);
    }
    forall nSize: Byte, data: seq<Byte> | Yields(curve, nSize, data, script) ensures Compress(curve, script).Some? {
      CompressDecompressed(curve, nSize, data);
    }
  }

  // ------------------------------------------------------------ a script on a stream

  function ScriptBytes(curve: Curve, script: seq<Byte>): seq<Byte> {
    var c := Compress(curve, script);
    if c.Some? then c.value else VarIntOf(|script| + 6) + script
  }

  /** Nothing when the stream ends. What cannot be decompressed leaves the script as it was,
      which is empty in a new output. */
  function ScriptAt(curve: Curve, s: seq<Byte>, pos: nat): (r: Option<Parsed<seq<Byte>>>)
    ensures r.Some? ==> pos <= r.value.pos <= |s|
  {
    var size := NumberAt(s, pos, 0);
    if size.None? then None
    else
      var n, p := size.value.value % 0x1_0000_0000, size.value.pos;
      if n < 6 then
        var e := p + GetSpecialSize(n);
        if e > |s| then None
        else
          var d := Decompress(curve, n, s[p..e]);
          Some(Parsed(if d.Some? then d.value else [], e))
      else if p + n - 6 > |s| then None
      else Some(Parsed(s[p..p + n - 6], p + n - 6))
  }

  lemma SpecialRoundTrip(curve: Curve, s: seq<Byte>, pos: nat, script: seq<Byte>)
    requires curve.Valid() && Compress(curve, script).Some? && At(s, pos, Compress(curve, script).value)
    ensures Is(ScriptAt(curve, s, pos), script, pos + |Compress(curve, script).value|)
  {
    DecompressCompressed(curve, script);
    var c := Compress(curve, script).value;
    hide Compress, Decompress, At, ScriptAt, NumberAt;
    SpecialParts(s, pos, c);
    SpecialAt(curve, s, pos, c[0], c[1..], script);
  }

  lemma SpecialAt(curve: Curve, s: seq<Byte>, pos: nat, x: Byte, data: seq<Byte>, script: seq<Byte>)
    requires pos < |s| && s[pos] == x < 6 && |data| == GetSpecialSize(x) && pos + 1 + |data| <= |s|
    requires s[pos + 1..pos + 1 + |data|] == data && Decompress(curve, x, data) == Some(script)
    ensures Is(ScriptAt(curve, s, pos), script, pos + 1 + |data|)
  {
    SpecialSize(s, pos, x);
    hide Decompress, NumberAt, GetSpecialSize;
  }

  lemma SpecialSize(s: seq<Byte>, pos: nat, x: Byte)
    requires pos < |s| && s[pos] == x < 6
    ensures ReadsNumber(s, pos, x, pos + 1)
  {
  }

  lemma SpecialParts(s: seq<Byte>, pos: nat, c: seq<Byte>)
    requires At(s, pos, c) && c != []
    ensures pos + |c| <= |s| && s[pos] == c[0] && s[pos + 1..pos + |c|] == c[1..]
  {
    var w := s[pos..pos + |c|];
    assert w[0] == s[pos] && w[1..] == s[pos + 1..pos + |c|];
  }

  lemma PlainRoundTrip(curve: Curve, s: seq<Byte>, pos: nat, script: seq<Byte>)
    requires |script| + 6 < 0x1_0000_0000 && At(s, pos, VarIntOf(|script| + 6) + script)
    ensures Is(ScriptAt(curve, s, pos), script, pos + |VarIntOf(|script| + 6) + script|)
  {
    var v := VarIntOf(|script| + 6);
    AtConcat(s, pos, v, script);
    ReadWritten(s, pos, |script| + 6);
    hide VarIntOf, NumberAt, Decompress;
  }

  lemma ScriptRoundTrip(curve: Curve, s: seq<Byte>, pos: nat, script: seq<Byte>)
    requires curve.Valid() && |script| + 6 < 0x1_0000_0000 && At(s, pos, ScriptBytes(curve, script))
    ensures Is(ScriptAt(curve, s, pos), script, pos + |ScriptBytes(curve, script)|)
  {
    hide Compress, ScriptAt, At;
    if Compress(curve, script).Some? {
      SpecialRoundTrip(curve, s, pos, script);
    } else {
      PlainRoundTrip(curve, s, pos, script);
    }
  }
}
