/** Numbers in base 128 with a bit in each byte that says whether another follows. */
module VarInt {
  import opened Common
  import opened Arithmetic

  lemma AtFive<T>(s: seq<T>, i: nat, a: seq<T>, b: seq<T>, c: seq<T>, d: seq<T>, e: seq<T>)
    requires At(s, i, a + (b + (c + (d + e))))
    ensures At(s, i, a) && At(s, i + |a|, b) && At(s, i + |a| + |b|, c)
    ensures At(s, i + |a| + |b| + |c|, d) && At(s, i + |a| + |b| + |c| + |d|, e)
  {
    hide At;
    AtConcat(s, i, a, b + (c + (d + e)));
    AtConcat(s, i + |a|, b, c + (d + e));
    AtConcat(s, i + |a| + |b|, c, d + e);
    AtConcat(s, i + |a| + |b| + |c|, d, e);
  }

  /** The bytes of n, the first written last in the loop; `more` marks that others follow. */
  function Digits(n: int, more: bool): (s: seq<Byte>)
    ensures s != []
    decreases if n < 0 then 0 else n
  {
    var b := n % 128 + (if more then 128 else 0);
    if n <= 0x7f then [b] else Digits(n / 128 - 1, true) + [b]
  }

  function VarIntOf(n: int): seq<Byte> { Digits(n, false) }

  method WriteVarInt(n0: int) returns (out: seq<Byte>)
    ensures out == VarIntOf(n0)
  {
    var n := n0;
    var tmp: seq<Byte> := [];
    while n > 0x7f
      invariant VarIntOf(n0) == Digits(n, tmp != []) + Backwards(tmp)
      decreases n
    {
      tmp := tmp + [n % 128 + (if tmp != [] then 0x80 else 0)];
      n := n / 128 - 1;
    }
    tmp := tmp + [n % 128 + (if tmp != [] then 0x80 else 0)];
    out := Backwards(tmp);
  }

  function Backwards<T>(s: seq<T>): seq<T> { if s == [] then [] else [s[|s| - 1]] + Backwards(s[..|s| - 1]) }

  // ------------------------------------------------------------ reading

  datatype Parsed<+T> = Parsed(value: T, pos: nat)

  /** The value was read, and that left the reader at pos. */
  ghost predicate Is<T>(r: Option<Parsed<T>>, value: T, pos: nat) {
    r.Some? && r.value.value == value && r.value.pos == pos
  }

  /** The number that the bytes from pos on stand for, whatever its size; `n` is what the bytes
      before have made up. Nothing at the end of the stream. */
  function NumberAt(s: seq<Byte>, pos: nat, n: nat): (r: Option<Parsed<nat>>)
    ensures r.Some? ==> pos < r.value.pos <= |s|
    decreases |s| - pos
  {
    if pos >= |s| then None
    else
      var m := n * 128 + s[pos] % 128;
      if s[pos] >= 128 then NumberAt(s, pos + 1, m + 1) else Some(Parsed(m, pos + 1))
  }

  /** ReadVarInt into an unsigned type of so many bits: what does not fit is lost. */
  method ReadVarInt(s: seq<Byte>, start: nat, width: nat) returns (r: Option<Parsed<nat>>)
    requires width >= 8
    ensures r.Some? <==> NumberAt(s, start, 0).Some?
    ensures Pow(2, width) > 0
    ensures r.Some? ==>
      r.value == Parsed(NumberAt(s, start, 0).value.value % Pow(2, width), NumberAt(s, start, 0).value.pos)
  {
    PowPositive(2, width);
    ghost var m := Pow(2, width);
    hide Pow;
    var n, pos := 0, start;
    ghost var exact: nat := 0;
    SmallMod(0, m);
    while true
      invariant n == exact % m && NumberAt(s, start, 0) == NumberAt(s, pos, exact)
      decreases |s| - pos
    {
      if pos >= |s| {
        return None;
      }
      var chData := s[pos];
      pos := pos + 1;
      WrapOnce(exact, chData % 128, m);
      n := ShiftIn(n, chData % 128, width);
      exact := exact * 128 + chData % 128;
      if chData >= 0x80 {
        WrapNext(exact, m);
        n := (n + 1) % Pow(2, width);
        exact := exact + 1;
      } else {
        return Some(Parsed(n, pos));
      }
    }
  }

  /** (n << 7) | d in so many bits */
  function ShiftIn(n: nat, d: nat, width: nat): (r: nat)
    requires d < 128
    ensures Pow(2, width) > 0 && r == (n * 128 + d) % Pow(2, width)
  {
    PowPositive(2, width);
    (n * 128 + d) % Pow(2, width)
  }

  lemma WrapOnce(exact: nat, d: nat, m: nat)
    requires m > 0
    ensures (exact % m * 128 + d) % m == (exact * 128 + d) % m
  {
    var q := exact / m;
    assert exact == q * m + exact % m;
    assert exact * 128 + d == exact % m * 128 + d + q * 128 * m by {
      MulAssoc(q, 128, m);
      MulAssoc(q, m, 128);
      assert m * 128 == 128 * m;
    }
    ModAdd(exact % m * 128 + d, m, q * 128);
  }

  lemma WrapNext(exact: nat, m: nat)
    requires m > 0
    ensures (exact % m + 1) % m == (exact + 1) % m
  {
    var q := exact / m;
    assert exact + 1 == exact % m + 1 + q * m;
    ModAdd(exact % m + 1, m, q);
  }

  ghost predicate ReadsNumber(s: seq<Byte>, pos: nat, n: int, end: nat) { Is<int>(NumberAt(s, pos, 0), n, end) }

  // ------------------------------------------------------------ round trips

  lemma {:induction false} NumberPrefix(s: seq<Byte>, pos: nat, n: nat)
    requires At(s, pos, Digits(n, true))
    ensures NumberAt(s, pos, 0) == NumberAt(s, pos + |Digits(n, true)|, n + 1)
  {
    if n > 0x7f {
      var m := n / 128 - 1;
      var d := Digits(m, true);
      assert Digits(n, true) == d + [n % 128 + 128];
      hide Digits;
      AtConcat<Byte>(s, pos, d, [n % 128 + 128]);
      NumberPrefix(s, pos, m);
      AtOne(s, pos + |d|, n % 128 + 128);
      NumberStep(s, pos + |d|, n);
    } else {
      assert Digits(n, true) == [n + 128];
      AtOne(s, pos, n + 128);
    }
  }

  lemma AtOne(s: seq<Byte>, i: nat, x: Byte)
    requires At<Byte>(s, i, [x])
    ensures i < |s| && s[i] == x
  {
    assert s[i..i + 1][0] == s[i];
  }

  lemma NumberStep(s: seq<Byte>, pos: nat, n: nat)
    requires pos < |s| && s[pos] == n % 128 + 128
    ensures NumberAt(s, pos, n / 128) == NumberAt(s, pos + 1, n + 1)
  {
    assert n / 128 * 128 + n % 128 == n;
  }

  /** Reading what was written gives the number back and stops behind it. */
  lemma ReadWritten(s: seq<Byte>, pos: nat, n: nat)
    requires At(s, pos, VarIntOf(n))
    ensures ReadsNumber(s, pos, n, pos + |VarIntOf(n)|)
  {
    if n > 0x7f {
      var d := Digits(n / 128 - 1, true);
      AtConcat(s, pos, d, [n % 128]);
      NumberPrefix(s, pos, n / 128 - 1);
      assert s[pos + |d|] == s[pos + |d|..pos + |d| + 1][0] == n % 128;
    } else {
      assert s[pos] == s[pos..pos + 1][0] == n % 128;
    }
  }

  /** What has been read by a position: the digits of the number so far, marked as continued. */
  lemma {:induction false} WrittenRead(s: seq<Byte>, start: nat, pos: nat, n: nat)
    requires start <= pos <= |s| && NumberAt(s, pos, n).Some?
    requires (pos == start && n == 0) || (n > 0 && s[start..pos] == Digits(n - 1, true))
    ensures
      var r := NumberAt(s, pos, n).value;
      s[start..r.pos] == VarIntOf(r.value)
    decreases |s| - pos
  {
    var m := n * 128 + s[pos] % 128;
    assert s[start..pos + 1] == s[start..pos] + [s[pos]];
    assert pos == start ==> s[start..pos] == [];
    if n > 0 {
      assert m / 128 - 1 == n - 1 && m % 128 == s[pos] % 128 && m > 0x7f;
    }
    if s[pos] >= 128 {
      WrittenRead(s, start, pos + 1, m + 1);
    }
  }

  /** Every number has exactly one encoding: bytes that read as n are those written for n. */
  lemma EncodingIsUnique(s: seq<Byte>, pos: nat)
    requires NumberAt(s, pos, 0).Some?
    ensures
      var r := NumberAt(s, pos, 0).value;
      s[pos..r.pos] == VarIntOf(r.value)
  {
    WrittenRead(s, pos, pos, 0);
  }

  /** A negative number is cut to its lowest seven bits, so it does not come back. */
  lemma NegativeIsLost(s: seq<Byte>, pos: nat, n: int)
    requires n < 0 && At(s, pos, VarIntOf(n))
    ensures
      var r := NumberAt(s, pos, 0);
      r.Some? && r.value.value == n % 128 && r.value.value != n
  {
    assert s[pos] == s[pos..pos + 1][0];
  }
}
