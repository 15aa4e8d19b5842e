/** Base 58: a byte string as a number written with 58 letters, leading zero bytes as ones. */
module Base58 {
  import opened Common
  import opened Arithmetic
  import opened Radix

  /** n letters in a row, from one on. */
  function Letters(from: char, n: nat): (s: string)
    requires from as int + n < 0x80
    ensures |s| == n && forall i :: 0 <= i < n ==> s[i] as int == from as int + i
  {
    seq(n, i requires 0 <= i < n => (from as int + i) as char)
  }

  /** All alphanumeric characters except 0, I, O and l. */
  const ALPHABET: string :=
    "123456789" + "ABCDEFGH" + "JKLMN" + "PQRSTUVWXYZ" + "abcdefghijk" + "mnopqrstuvwxyz"

  predicate IsSpace(c: char) {
    c == ' ' || c == '\t' || c == '\n' || c == (11 as char) || c == (12 as char) || c == '\r'
  }

  lemma SpacesAre(c: char)
    ensures IsSpace(c) <==> 9 <= c as int <= 13 || c as int == 32
  {
  }

  /** strchr in the alphabet, from a letter on. */
  function IndexOf(c: char, from: nat): (r: Option<nat>)
    requires from <= |ALPHABET|
    ensures r.Some? ==> r.value < |ALPHABET| && ALPHABET[r.value] == c
    decreases |ALPHABET| - from
  {
    if from == |ALPHABET| then None
    else if ALPHABET[from] == c then Some(from)
    else IndexOf(c, from + 1)
  }

  lemma AlphabetIsRuns()
    ensures ALPHABET ==
      Letters('1', 9) + Letters('A', 8) + Letters('J', 5) + Letters('P', 11) + Letters('a', 11) + Letters('m', 14)
  {
    assert Letters('1', 9) == "123456789";
    assert Letters('A', 8) == "ABCDEFGH";
    assert Letters('J', 5) == "JKLMN";
    assert Letters('P', 11) == "PQRSTUVWXYZ";
    assert Letters('a', 11) == "abcdefghijk";
    assert Letters('m', 14) == "mnopqrstuvwxyz";
  }

  /** The letters differ and none is a space. */
  lemma AlphabetIsGood()
    ensures |ALPHABET| == 58 && ALPHABET[0] == '1'
    ensures forall i, j :: 0 <= i < j < 58 ==> ALPHABET[i] != ALPHABET[j]
    ensures forall i :: 0 <= i < 58 ==> !IsSpace(ALPHABET[i])
  {
    AlphabetIncreases();
    forall i, j | 0 <= i < j < 58 ensures ALPHABET[i] != ALPHABET[j] { Increasing(i, j); }
    forall i | 0 <= i < 58 ensures !IsSpace(ALPHABET[i]) { if i > 0 { Increasing(0, i); } }
  }

  /** The code of each letter, run by run. */
  function Code(i: nat): int {
    if i < 9 then 49 + i
    else if i < 17 then 65 + i - 9
    else if i < 22 then 74 + i - 17
    else if i < 33 then 80 + i - 22
    else if i < 44 then 97 + i - 33
    else 109 + i - 44
  }

  lemma SixRuns(a: string, b: string, c: string, d: string, e: string, f: string, i: nat)
    requires |a| == 9 && |b| == 8 && |c| == 5 && |d| == 11 && |e| == 11 && |f| == 14 && i < 58
    ensures (a + b + c + d + e + f)[i] ==
      if i < 9 then a[i]
      else if i < 17 then b[i - 9]
      else if i < 22 then c[i - 17]
      else if i < 33 then d[i - 22]
      else if i < 44 then e[i - 33]
      else f[i - 44]
  {
  }

  lemma AlphabetCode(i: nat)
    requires i < 58
    ensures |ALPHABET| == 58 && ALPHABET[i] as int == Code(i)
  {
    AlphabetIsRuns();
    SixRuns(Letters('1', 9), Letters('A', 8), Letters('J', 5), Letters('P', 11), Letters('a', 11), Letters('m', 14), i);
  }

  lemma AlphabetIncreases()
    ensures |ALPHABET| == 58 && ALPHABET[0] == '1'
    ensures forall i :: 0 <= i < 57 ==> ALPHABET[i] < ALPHABET[i + 1]
  {
    AlphabetCode(0);
    forall i | 0 <= i < 57 ensures ALPHABET[i] < ALPHABET[i + 1] {
      AlphabetCode(i);
      AlphabetCode(i + 1);
    }
  }

  lemma {:induction false} Increasing(i: nat, j: nat)
    requires i < j < |ALPHABET| && forall k :: 0 <= k < |ALPHABET| - 1 ==> ALPHABET[k] < ALPHABET[k + 1]
    ensures ALPHABET[i] < ALPHABET[j]
  {
    if i + 1 < j { Increasing(i, j - 1); }
  }

  lemma {:induction false} IndexFound(k: nat, from: nat)
    requires from <= k < |ALPHABET|
    ensures IndexOf(ALPHABET[k], from) == Some(k)
    decreases k - from
  {
    AlphabetIsGood();
    if from < k { IndexFound(k, from + 1); }
  }

  predicate IsLetter(c: char) { IndexOf(c, 0).Some? }

  ghost predicate AllLetters(s: string) { forall i :: 0 <= i < |s| ==> IsLetter(s[i]) }

  ghost function Numerals(s: string): (d: seq<nat>)
    requires AllLetters(s)
  {
    seq(|s|, i requires 0 <= i < |s| => IndexOf(s[i], 0).value)
  }

  ghost function Word(d: seq<nat>): string
    requires AllDigits(d, 58)
  {
    AlphabetIsGood();
    seq(|d|, i requires 0 <= i < |d| => ALPHABET[d[i]])
  }

  lemma WordNumerals(d: seq<nat>)
    requires AllDigits(d, 58)
    ensures AllLetters(Word(d)) && Numerals(Word(d)) == d
  {
    hide IndexOf;
    AlphabetIsGood();
    forall i | 0 <= i < |d| ensures IndexOf(Word(d)[i], 0) == Some(d[i]) { IndexFound(d[i], 0); }
  }

  lemma NumeralsWord(s: string)
    requires AllLetters(s)
    ensures AllDigits(Numerals(s), 58) && Word(Numerals(s)) == s
  {
    hide IndexOf;
    AlphabetIsGood();
  }

  // ------------------------------------------------------------ what is computed

  /** How often x stands at the start of s. */
  function Leading<T(==)>(s: seq<T>, x: T): (n: nat)
    ensures n <= |s|
    ensures forall i :: 0 <= i < n ==> s[i] == x
    ensures n < |s| ==> s[n] != x
  {
    if s != [] && s[0] == x then 1 + Leading(s[1..], x) else 0
  }

  function Repeat<T>(x: T, n: nat): seq<T> { seq(n, i => x) }

  ghost function Encoded(vch: seq<Byte>): string {
    var z := Leading<nat>(vch, 0);
    DigitsOfSpec(Value(vch[z..], 256), 58);
    Repeat('1', z) + Word(DigitsOf(Value(vch[z..], 256), 58))
  }

  /** Where leading spaces end. */
  function First(s: string, from: nat): (k: nat)
    requires from <= |s|
    ensures from <= k <= |s|
    ensures forall i :: from <= i < k ==> IsSpace(s[i])
    ensures k < |s| ==> !IsSpace(s[k])
    decreases |s| - from
  {
    if from < |s| && IsSpace(s[from]) then First(s, from + 1) else from
  }

  /** Where trailing spaces start. */
  function Last(s: string, to: nat): (k: nat)
    requires to <= |s|
    ensures k <= to
    ensures forall i :: k <= i < to ==> IsSpace(s[i])
    ensures k > 0 ==> !IsSpace(s[k - 1])
  {
    if to > 0 && IsSpace(s[to - 1]) then Last(s, to - 1) else to
  }

  function Trimmed(s: string): string {
    var a, b := First(s, 0), Last(s, |s|);
    if a <= b then s[a..b] else []
  }

  /** Nothing, unless between spaces at the ends there are only letters of the alphabet. */
  ghost function Decoded(psz: string): Option<seq<nat>> {
    var t := Trimmed(psz);
    if !AllLetters(t) then None
    else
      var z := Leading(t, '1');
      Some(Repeat(0, z) + DigitsOf(Value(Numerals(t[z..]), 58), 256))
  }

  // ------------------------------------------------------------ the buffers are large enough

  lemma PowSum(b: nat, c: nat, m: nat, n: nat, k: nat, l: nat)
    requires Pow(b, m) <= Pow(c, k) && Pow(b, n) <= Pow(c, l)
    ensures Pow(b, m + n) <= Pow(c, k + l)
  {
    PowAdd(b, m, n);
    PowAdd(c, k, l);
    MulBound(Pow(b, m), Pow(b, n), Pow(c, k), Pow(c, l));
  }

  lemma {:induction false} PowTimes(b: nat, c: nat, m: nat, k: nat, n: nat)
    requires Pow(b, m) <= Pow(c, k)
    ensures 0 <= m * n && 0 <= k * n && Pow(b, m * n) <= Pow(c, k * n)
  {
    if n > 0 {
      PowTimes(b, c, m, k, n - 1);
      PowSum(b, c, m, m * (n - 1), k, k * (n - 1));
      MulDistrib(m, n - 1, 1);
      MulDistrib(k, n - 1, 1);
    }
  }

  lemma Power(b: nat, m: nat, n: nat, x: nat, y: nat)
    requires Pow(b, m) == x && Pow(b, n) == y
    ensures Pow(b, m + n) == x * y
  {
    PowAdd(b, m, n);
  }

  lemma SmallPowers()
    ensures Pow(256, 1) == 0x100 && Pow(256, 2) == 0x1_0000 && Pow(256, 3) == 0x100_0000
    ensures Pow(256, 5) == 0x100_0000_0000 && Pow(256, 8) == 0x1_0000_0000_0000_0000
    ensures Pow(58, 1) == 58 && Pow(58, 2) == 3364 && Pow(58, 3) == 195112 && Pow(58, 4) == 11316496
    ensures Pow(58, 5) == 656356768 && Pow(58, 7) == 2207984167552 && Pow(58, 11) == 24986644000165537792
  {
    assert Pow(256, 1) == 256 && Pow(58, 1) == 58;
    Power(256, 1, 1, 0x100, 0x100);
    Power(256, 1, 2, 0x100, 0x1_0000);
    Power(256, 2, 3, 0x1_0000, 0x100_0000);
    Power(256, 3, 5, 0x100_0000, 0x100_0000_0000);
    Power(58, 1, 1, 58, 58);
    Power(58, 1, 2, 58, 3364);
    Power(58, 2, 2, 3364, 3364);
    Power(58, 2, 3, 3364, 195112);
    Power(58, 3, 4, 195112, 11316496);
    Power(58, 4, 7, 11316496, 2207984167552);
  }

  lemma EncodeSplit(n: nat) returns (q: nat, r: nat, k: nat)
    ensures n == 8 * q + r && 11 * q + k <= n * 138 / 100 + 1
    ensures (r, k) in {(0, 0), (1, 2), (2, 3), (3, 5), (4, 6), (5, 7), (6, 9), (7, 10)}
  {
    q, r := n / 8, n % 8;
    k := if r == 0 then 0 else if r == 1 then 2 else if r == 2 then 3 else if r == 3 then 5
         else if r == 4 then 6 else if r == 5 then 7 else if r == 6 then 9 else 10;
  }

  /** 138 / 100 letters for each byte: eight bytes fit in eleven letters. */
  lemma EncodeFits(n: nat)
    ensures Pow(256, n) <= Pow(58, n * 138 / 100 + 1)
  {
    SmallPowers();
    hide Pow;
    var q, r, k := EncodeSplit(n);
    FewBytes(r, k);
    PowTimes(256, 58, 8, 11, q);
    PowSum(256, 58, 8 * q, r, 11 * q, k);
    PowMono(58, 11 * q + k, n * 138 / 100 + 1);
  }

  lemma FewBytes(r: nat, k: nat)
    requires (r, k) in {(0, 0), (1, 2), (2, 3), (3, 5), (4, 6), (5, 7), (6, 9), (7, 10)}
    ensures Pow(256, r) <= Pow(58, k)
  {
    SmallPowers();
    assert Pow(256, 0) == Pow(58, 0) == 1;
    hide Pow;
    if r == 4 { PowSum(256, 58, 2, 2, 3, 3); }
    if r == 6 { PowSum(256, 58, 5, 1, 7, 2); }
    if r == 7 { PowSum(256, 58, 5, 2, 7, 3); }
  }

  lemma LargePowers()
    ensures Pow(58, 15) <= Pow(256, 11) && Pow(58, 71) <= Pow(256, 52)
  {
    SmallPowers();
    hide Pow;
    Power(58, 4, 11, 11316496, 24986644000165537792);
    Power(256, 3, 8, 0x100_0000, 0x1_0000_0000_0000_0000);
    var x := 282761256881297307761016832;
    assert Pow(58, 15) == x;
    Power(58, 15, 15, x, x);
    Power(58, 30, 30, x * x, x * x);
    Power(58, 60, 11, x * x * (x * x), 24986644000165537792);
    var y := 0x1_0000_0000_0000_0000;
    Power(256, 8, 8, y, y);
    Power(256, 16, 16, y * y, y * y);
    Power(256, 32, 16, y * y * (y * y), y * y);
    Power(256, 48, 3, y * y * (y * y) * (y * y), 0x100_0000);
    Power(256, 51, 1, y * y * (y * y) * (y * y) * 0x100_0000, 0x100);
  }

  lemma DecodeSplit(n: nat) returns (q: nat, a: nat, c: nat, d: nat)
    ensures n == 71 * q + 15 * a + 4 * c + d
    ensures 52 * q + 11 * a + 3 * c + d <= n * 733 / 1000 + 1
  {
    q := n / 71;
    var m := n % 71;
    a, c, d := m / 15, m % 15 / 4, m % 15 % 4;
    assert a <= 4 && c <= 3 && d <= 3 && 4 * c + d <= 14;
  }

  lemma DecodePowers(q: nat, a: nat, c: nat, d: nat)
    ensures Pow(58, 71 * q + 15 * a + 4 * c + d) <= Pow(256, 52 * q + 11 * a + 3 * c + d)
  {
    LargePowers();
    SmallPowers();
    hide Pow;
    PowTimes(58, 256, 71, 52, q);
    PowTimes(58, 256, 15, 11, a);
    PowTimes(58, 256, 4, 3, c);
    PowTimes(58, 256, 1, 1, d);
    PowSum(58, 256, 71 * q, 15 * a, 52 * q, 11 * a);
    PowSum(58, 256, 71 * q + 15 * a, 4 * c, 52 * q + 11 * a, 3 * c);
    PowSum(58, 256, 71 * q + 15 * a + 4 * c, 1 * d, 52 * q + 11 * a + 3 * c, 1 * d);
  }

  /** 733 / 1000 bytes for each letter: 71 letters fit in 52 bytes. */
  lemma DecodeFits(n: nat)
    ensures Pow(58, n) <= Pow(256, n * 733 / 1000 + 1)
  {
    hide Pow;
    var q, a, c, d := DecodeSplit(n);
    DecodePowers(q, a, c, d);
    PowMono(256, 52 * q + 11 * a + 3 * c + d, n * 733 / 1000 + 1);
  }

  // ------------------------------------------------------------ the two conversions

  method EncodeBase58(vch: seq<Byte>) returns (str: string)
    ensures str == Encoded(vch)
  {
    hide Value, Pow, DigitsOf, Word;
    var zeroes := 0;
    while zeroes < |vch| && vch[zeroes] == 0
      invariant zeroes <= |vch| && forall i :: 0 <= i < zeroes ==> vch[i] == 0
    {
      zeroes := zeroes + 1;
    }
    LeadingIs<nat>(vch, 0, zeroes);
    ghost var rest := vch[zeroes..];
    var n := |vch| - zeroes;
    var size := n * 138 / 100 + 1;
    var b58 := new nat[size](_ => 0);
    ZeroBuffer(b58[..], 58, rest, 256);
    var p := 0;
    while p < n
      invariant 0 <= p <= n && AllDigits(b58[..], 58)
      invariant Value(b58[..], 58) == Value(rest[..p], 256)
    {
      assert vch[zeroes + p] == rest[p];
      EncodeFits(n);
      NextFits(rest, 256, p, Pow(58, size));
      var carry := MulAdd(b58, 58, 256, vch[zeroes + p]);
      assert carry == 0;
      p := p + 1;
    }
    assert rest[..p] == rest;
    var it := SkipZeroes(b58, 58);
    DigitsOfSpec(Value(rest, 256), 58);
    str := Repeat('1', zeroes);
    str := Translate(b58, it, str);
  }

  lemma LeadingIs<T>(s: seq<T>, x: T, n: nat)
    requires n <= |s| && (forall i :: 0 <= i < n ==> s[i] == x) && (n < |s| ==> s[n] != x)
    ensures Leading(s, x) == n
  {
  }

  lemma {:induction false} ZeroValue(s: seq<nat>, base: nat)
    requires forall i :: 0 <= i < |s| ==> s[i] == 0
    ensures Value(s, base) == 0
  {
    if s != [] { ZeroValue(s[..|s| - 1], base); }
  }

  lemma ZeroBuffer(s: seq<nat>, base: nat, rest: seq<nat>, from: nat)
    requires base > 0 && forall i :: 0 <= i < |s| ==> s[i] == 0
    ensures AllDigits(s, base) && Value(s, base) == Value(rest[..0], from)
  {
    ZeroValue(s, base);
    assert rest[..0] == [];
  }

  /** After one more digit the number is still below every bound that the whole is below. */
  lemma NextFits(s: seq<nat>, base: nat, p: nat, limit: nat)
    requires base > 0 && AllDigits(s, base) && p < |s| && Pow(base, |s|) <= limit
    ensures Value(s[..p + 1], base) == Value(s[..p], base) * base + s[p] < limit
  {
    assert s[..p + 1][..p] == s[..p];
    ValueBelow(s[..p + 1], base);
    hide Value, Pow;
    PowMono(base, p + 1, |s|);
  }

  method SkipZeroes(buffer: array<nat>, base: nat) returns (it: nat)
    requires base > 1 && AllDigits(buffer[..], base)
    ensures it <= buffer.Length && buffer[it..] == DigitsOf(Value(buffer[..], base), base)
  {
    hide Value, DigitsOf;
    it := 0;
    assert buffer[0..] == buffer[..];
    while it < buffer.Length && buffer[it] == 0
      invariant it <= buffer.Length && Strip(buffer[it..]) == Strip(buffer[..])
    {
      assert buffer[it..][1..] == buffer[it + 1..];
      it := it + 1;
    }
    StripSpec(buffer[..], base);
  }

  method Translate(b58: array<nat>, start: nat, prefix: string) returns (str: string)
    requires start <= b58.Length && AllDigits(b58[..], 58)
    ensures AllDigits(b58[start..], 58) && str == prefix + Word(b58[start..])
  {
    AlphabetIsGood();
    str := prefix;
    var it := start;
    while it < b58.Length
      invariant start <= it <= b58.Length
      invariant |str| == |prefix| + it - start && str[..|prefix|] == prefix
      invariant forall i :: start <= i < it ==> str[|prefix| + i - start] == ALPHABET[b58[i]]
    {
      str := str + [ALPHABET[b58[it]]];
      it := it + 1;
    }
    assert str == prefix + Word(b58[start..]);
  }

  /** c_str: a string ends at its first NUL. */
  function CStr(s: string): (t: string)
    ensures t <= s && (0 as char) !in t
    ensures |t| < |s| ==> s[|t|] == (0 as char)
  {
    if s == [] || s[0] == (0 as char) then [] else [s[0]] + CStr(s[1..])
  }

  method DecodeBase58(str: string) returns (vch: Option<seq<nat>>)
    ensures vch == Decoded(CStr(str))
  {
    vch := Decode(CStr(str));
  }

  method Decode(psz: string) returns (vch: Option<seq<nat>>)
    ensures vch == Decoded(psz)
  {
    hide Value, Pow, DigitsOf, IndexOf, Decoded;
    var p := 0;
    while p < |psz| && IsSpace(psz[p])
      invariant 0 <= p <= |psz| && forall i :: 0 <= i < p ==> IsSpace(psz[i])
    {
      p := p + 1;
    }
    var start := p;
    while p < |psz| && psz[p] == '1'
      invariant start <= p <= |psz| && forall i :: start <= i < p ==> psz[i] == '1'
    {
      p := p + 1;
    }
    var first := p;
    var b256 := new nat[(|psz| - p) * 733 / 1000 + 1](_ => 0);
    ghost var digits: seq<nat> := [];
    ZeroBuffer(b256[..], 256, digits, 58);
    AlphabetIsGood();
    while p < |psz| && !IsSpace(psz[p])
      invariant first <= p <= |psz| && |digits| == p - first && AllDigits(digits, 58)
      invariant forall i :: first <= i < p ==> IndexOf(psz[i], 0) == Some(digits[i - first]) && !IsSpace(psz[i])
      invariant AllDigits(b256[..], 256) && Value(b256[..], 256) == Value(digits, 58)
    {
      var ch := IndexOf(psz[p], 0);
      if ch.None? {
        NotALetter(psz, start, p);
        return None;
      }
      DecodeNext(digits, ch.value, |psz| - first);
      digits := digits + [ch.value];
      var carry := MulAdd(b256, 256, 58, ch.value);
      assert carry == 0;
      p := p + 1;
    }
    var last := p;
    while p < |psz| && IsSpace(psz[p])
      invariant last <= p <= |psz| && forall i :: last <= i < p ==> IsSpace(psz[i])
    {
      p := p + 1;
    }
    if p < |psz| {
      SpaceInside(psz, start, last, p);
      return None;
    }
    var it := SkipZeroes(b256, 256);
    AllSeen(psz, start, first, last, digits);
    vch := Some(Repeat(0, first - start) + b256[it..]);
  }

  lemma DecodeNext(digits: seq<nat>, d: nat, n: nat)
    requires AllDigits(digits, 58) && d < 58 && |digits| < n
    ensures AllDigits(digits + [d], 58)
    ensures Value(digits + [d], 58) == Value(digits, 58) * 58 + d < Pow(256, n * 733 / 1000 + 1)
  {
    hide Pow;
    ValueAppend(digits, d, 58);
    ValueBelow(digits + [d], 58);
    DecodeFits(n);
    PowMono(58, |digits| + 1, n);
  }

  /** Where trimming ends: spaces, then no space, and the same from the right. */
  lemma TrimIs(psz: string, start: nat, last: nat)
    requires start <= last <= |psz|
    requires forall i :: 0 <= i < start ==> IsSpace(psz[i])
    requires start < |psz| ==> !IsSpace(psz[start])
    requires forall i :: last <= i < |psz| ==> IsSpace(psz[i])
    requires start < last ==> !IsSpace(psz[last - 1])
    ensures Trimmed(psz) == psz[start..last]
  {
    hide IsSpace, First, Last;
    var a, b := First(psz, 0), Last(psz, |psz|);
    assert a == start;
    if start < last { assert b == last; } else { assert last == start == |psz|; }
  }

  /** A character with something other than spaces on both sides, or such itself, stays. */
  lemma StaysInside(psz: string, l: nat, p: nat, r: nat)
    requires l <= p <= r < |psz| && !IsSpace(psz[l]) && !IsSpace(psz[r])
    ensures psz[p] in Trimmed(psz)
  {
    hide IsSpace, First, Last;
    var a, b := First(psz, 0), Last(psz, |psz|);
    assert a <= l && r < b;
    assert psz[a..b][p - a] == psz[p];
  }

  lemma NotALetter(psz: string, start: nat, p: nat)
    requires start <= p < |psz| && !IsSpace(psz[p]) && !IsLetter(psz[p])
    ensures Decoded(psz) == None
  {
    hide IsSpace, Trimmed, IsLetter;
    StaysInside(psz, p, p, p);
  }

  lemma SpaceInside(psz: string, start: nat, last: nat, p: nat)
    requires start <= last < p < |psz| && !IsSpace(psz[p]) && IsSpace(psz[last])
    requires start < |psz| && !IsSpace(psz[start])
    ensures Decoded(psz) == None
  {
    hide IsSpace, Trimmed, IsLetter;
    StaysInside(psz, start, last, p);
    SpaceIsNoLetter(psz[last]);
  }

  lemma SpaceIsNoLetter(c: char)
    requires IsSpace(c)
    ensures !IsLetter(c)
  {
    AlphabetIsGood();
  }

  lemma AllSeen(psz: string, start: nat, first: nat, last: nat, digits: seq<nat>)
    requires start <= first <= last <= |psz| && |digits| == last - first && AllDigits(digits, 58)
    requires forall i :: 0 <= i < start ==> IsSpace(psz[i])
    requires start < |psz| ==> !IsSpace(psz[start])
    requires forall i :: start <= i < first ==> psz[i] == '1'
    requires first < |psz| ==> psz[first] != '1'
    requires forall i :: first <= i < last ==> IndexOf(psz[i], 0) == Some(digits[i - first]) && !IsSpace(psz[i])
    requires forall i :: last <= i < |psz| ==> IsSpace(psz[i])
    ensures Decoded(psz) == Some(Repeat(0, first - start) + DigitsOf(Value(digits, 58), 256))
  {
    hide *;
    var t := psz[start..last];
    forall i | start <= i < last ensures !IsSpace(psz[i]) { if i < first { OneIsNoSpace(); } }
    TrimIs(psz, start, last);
    assert t[first - start..] == psz[first..last];
    SeenLetters(psz, start, first, last, digits);
    assert first < last ==> t[first - start] == psz[first];
    LeadingIs(t, '1', first - start);
    DecodedIs(psz, t, first - start, digits);
  }

  lemma OneIsNoSpace()
    ensures !IsSpace('1')
  {
  }

  lemma DecodedIs(psz: string, t: string, z: nat, digits: seq<nat>)
    requires Trimmed(psz) == t && AllLetters(t) && z == Leading(t, '1') && Numerals(t[z..]) == digits
    ensures Decoded(psz) == Some(Repeat(0, z) + DigitsOf(Value(digits, 58), 256))
  {
    hide Value, DigitsOf, IndexOf, Numerals, Trimmed;
  }

  lemma SeenLetters(psz: string, start: nat, first: nat, last: nat, digits: seq<nat>)
    requires start <= first <= last <= |psz| && |digits| == last - first
    requires forall i :: start <= i < first ==> psz[i] == '1'
    requires forall i :: first <= i < last ==> IndexOf(psz[i], 0) == Some(digits[i - first])
    ensures AllLetters(psz[start..last]) && Numerals(psz[first..last]) == digits
  {
    IndexOfOne();
    hide IndexOf;
    var t, u := psz[start..last], psz[first..last];
    forall i | 0 <= i < |t| ensures IsLetter(t[i]) { assert t[i] == psz[start + i]; }
    forall i | 0 <= i < |u| ensures IndexOf(u[i], 0) == Some(digits[i]) { assert u[i] == psz[first + i]; }
  }

  lemma IndexOfOne()
    ensures IndexOf('1', 0) == Some(0)
  {
    AlphabetIsGood();
  }

  // ------------------------------------------------------------ round trips

  lemma RepeatLeading<T>(x: T, n: nat, s: seq<T>)
    requires s != [] ==> s[0] != x
    ensures Leading(Repeat(x, n) + s, x) == n && (Repeat(x, n) + s)[n..] == s
  {
    LeadingIs(Repeat(x, n) + s, x, n);
  }

  lemma LeadingSplit<T>(s: seq<T>, x: T)
    ensures s == Repeat(x, Leading(s, x)) + s[Leading(s, x)..]
  {
  }

  lemma TrimNothing(t: string)
    requires forall i :: 0 <= i < |t| ==> !IsSpace(t[i])
    ensures Trimmed(t) == t
  {
    TrimIs(t, 0, |t|);
  }

  /** Decoding gives back every byte string. */
  lemma DecodeEncode(vch: seq<Byte>)
    ensures Decoded(Encoded(vch)) == Some(vch)
  {
    hide Value, DigitsOf, IndexOf, Numerals, Word;
    var z := Leading<nat>(vch, 0);
    var v := Value(vch[z..], 256);
    var d := DigitsOf(v, 58);
    DigitsOfSpec(v, 58);
    WordNumerals(d);
    WordStart(d);
    var t := Encoded(vch);
    assert t == Repeat('1', z) + Word(d);
    RepeatLeading('1', z, Word(d));
    EncodedLetters(z, d);
    TrimNothing(t);
    DigitsAreUnique(vch[z..], 256);
    LeadingSplit<nat>(vch, 0);
    assert t[z..] == Word(d) && Numerals(t[z..]) == d;
    DecodedIs(t, t, z, d);
  }

  lemma WordStart(d: seq<nat>)
    requires AllDigits(d, 58) && NoLeadingZero(d)
    ensures |Word(d)| == |d| && (Word(d) != [] ==> Word(d)[0] != '1')
  {
    AlphabetIsGood();
  }

  lemma EncodedLetters(z: nat, d: seq<nat>)
    requires AllDigits(d, 58)
    ensures
      var t := Repeat('1', z) + Word(d);
      AllLetters(t) && forall i :: 0 <= i < |t| ==> !IsSpace(t[i])
  {
    WordNumerals(d);
    IndexOfOne();
    hide IndexOf, Numerals;
    AlphabetIsGood();
    var t := Repeat('1', z) + Word(d);
    forall i | 0 <= i < |t| ensures IsLetter(t[i]) && !IsSpace(t[i]) {
      if i < z { assert t[i] == '1'; } else { assert t[i] == Word(d)[i - z]; }
    }
  }

  /** Encoding gives back every string over the alphabet. */
  lemma EncodeDecode(s: string)
    requires AllLetters(s)
    ensures Decoded(s).Some? && AllDigits(Decoded(s).value, 256)
    ensures Encoded(Decoded(s).value) == s
  {
    hide Value, DigitsOf, IndexOf, Numerals, Word;
    forall i | 0 <= i < |s| ensures !IsSpace(s[i]) { if IsSpace(s[i]) { SpaceIsNoLetter(s[i]); } }
    TrimNothing(s);
    var z := Leading(s, '1');
    var u := s[z..];
    assert AllLetters(u);
    NumeralsWord(u);
    var d := Numerals(u);
    NumeralsStart(u);
    var v := Value(d, 58);
    DigitsOfSpec(v, 256);
    DigitsAreUnique(d, 58);
    var r := DigitsOf(v, 256);
    RepeatLeading(0, z, r);
    LeadingSplit(s, '1');
    DecodedIs(s, s, z, d);
  }

  lemma NumeralsStart(u: string)
    requires AllLetters(u) && (u != [] ==> u[0] != '1')
    ensures NoLeadingZero(Numerals(u))
  {
    AlphabetIsGood();
    hide IndexOf;
  }

  /** Spaces at either end make no difference. */
  lemma SpacesAreIgnored(a: string, s: string, b: string)
    requires AllLetters(s)
    requires (forall i :: 0 <= i < |a| ==> IsSpace(a[i])) && (forall i :: 0 <= i < |b| ==> IsSpace(b[i]))
    ensures Decoded(a + s + b) == Decoded(s)
  {
    forall i | 0 <= i < |s| ensures !IsSpace(s[i]) { if IsSpace(s[i]) { SpaceIsNoLetter(s[i]); } }
    var t := a + s + b;
    hide IsSpace, IsLetter, Trimmed, AllLetters, Numerals, DigitsOf, Value, IndexOf;
    TrimNothing(s);
    if s != [] {
      assert t[|a|] == s[0] && t[|a| + |s| - 1] == s[|s| - 1];
      TrimIs(t, |a|, |a| + |s|);
      assert t[|a|..|a| + |s|] == s;
    } else {
      TrimIs(t, |t|, |t|);
      assert t[|t|..|t|] == s;
    }
  }
}
