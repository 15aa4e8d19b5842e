/**
 The tree over a list of transaction ids: node hashes, the depth-first encoding of a partial
 tree, and its decoding, as functions. `pair` hashes two nodes into their parent.
 */
module MerkleTree {
  import opened Common
  import opened Arithmetic

  type Hash = nat
  type Pairing = (Hash, Hash) -> Hash

  // ------------------------------------------------------------ shape

  /** Number of nodes at a height. */
  function Width(n: nat, height: nat): (w: nat) {
    PowPositive(2, height);
    DivNonNegative(n + Pow(2, height) - 1, Pow(2, height));
    (n + Pow(2, height) - 1) / Pow(2, height)
  }

  lemma DivNonNegative(x: nat, d: nat)
    requires d > 0
    ensures x / d >= 0
  {
    if x / d < 0 { MulMono(x / d, -1, d); }
  }

  /** The first leaf below a node. */
  function Leaf(height: nat, pos: nat): nat { pos * Pow(2, height) }

  /** A position is within the width exactly when a leaf is below it. */
  lemma WidthLeaf(n: nat, height: nat, pos: nat)
    ensures pos < Width(n, height) <==> Leaf(height, pos) < n
  {
    var d, w := Pow(2, height), Width(n, height);
    hide Pow;
    PowPositive(2, height);
    assert w * d <= n + d - 1 < w * d + d;
    if pos < w {
      MulMono(pos + 1, w, d);
      MulDistrib(d, pos, 1);
    } else {
      MulMono(w, pos, d);
    }
  }

  lemma LeafChildren(height: nat, pos: nat)
    requires height > 0
    ensures Leaf(height - 1, 2 * pos) == Leaf(height, pos)
    ensures Leaf(height - 1, 2 * pos + 2) == Leaf(height, pos + 1)
    ensures Leaf(height - 1, 2 * pos) < Leaf(height - 1, 2 * pos + 1) < Leaf(height - 1, 2 * pos + 2)
  {
    var d := Pow(2, height - 1);
    PowPositive(2, height - 1);
    MulAssoc(pos, 2, d);
    MulAssoc(pos + 1, 2, d);
    MulDistrib(d, 2 * pos, 1);
    MulDistrib(d, 2 * pos + 1, 1);
  }

  /** One past the last leaf below a node. */
  function End(n: nat, height: nat, pos: nat): nat {
    if Leaf(height, pos + 1) < n then Leaf(height, pos + 1) else n
  }

  ghost predicate IsNode(n: nat, height: nat, pos: nat) { Leaf(height, pos) < n }

  lemma LeafZero(pos: nat)
    ensures Leaf(0, pos) == pos
  {
    assert Pow(2, 0) == 1;
  }

  lemma HeightBelow(n: nat, height: nat)
    requires Width(n, height) > 1
    ensures height < n
  {
    WidthLeaf(n, height, 1);
    ExponentBelow(height);
  }

  lemma {:induction false} ExponentBelow(e: nat)
    ensures e < Pow(2, e)
  {
    if e > 0 { ExponentBelow(e - 1); }
  }

  /** The least height, from one on, with a single node. */
  function TreeHeight(n: nat, height: nat): (h: nat)
    ensures h >= height && Width(n, h) <= 1
    decreases n - height
  {
    if Width(n, height) > 1 then HeightBelow(n, height); TreeHeight(n, height + 1) else height
  }

  /** With at most 16666 leaves no shift in the traversals leaves 31 bits. */
  lemma {:induction false} HeightIsSmall(n: nat, height: nat)
    requires n <= 0x8000 && height <= 15
    ensures TreeHeight(n, height) <= 15 && Pow(2, TreeHeight(n, height)) <= 0x8000
    decreases 15 - height
  {
    hide Width, Pow;
    TwoPowers();
    if height == 15 {
      WidthLeaf(n, 15, 1);
    } else if Width(n, height) > 1 {
      HeightIsSmall(n, height + 1);
    } else {
      PowMono(2, height, 15);
    }
  }

  // ------------------------------------------------------------ hashes

  /** The hash of a node; an odd last node is paired with itself. */
  ghost function CalcHash(pair: Pairing, height: nat, pos: nat, vTxid: seq<Hash>): Hash
    requires IsNode(|vTxid|, height, pos)
  {
    if height == 0 then LeafZero(pos); vTxid[pos]
    else
      LeafChildren(height, pos);
      var left := CalcHash(pair, height - 1, 2 * pos, vTxid);
      if IsNode(|vTxid|, height - 1, 2 * pos + 1)
      then pair(left, CalcHash(pair, height - 1, 2 * pos + 1, vTxid))
      else pair(left, left)
  }

  // ------------------------------------------------------------ encoding

  ghost predicate AnyMatch(vMatch: seq<bool>, lo: nat, hi: nat) {
    exists p :: lo <= p < hi && p < |vMatch| && vMatch[p]
  }

  /** The transaction ids from lo to hi that are matched. */
  ghost function Picked(vTxid: seq<Hash>, vMatch: seq<bool>, lo: nat, hi: nat): seq<Hash>
    requires hi <= |vTxid| == |vMatch|
    decreases hi - lo
  {
    if lo >= hi then []
    else (if vMatch[lo] then [vTxid[lo]] else []) + Picked(vTxid, vMatch, lo + 1, hi)
  }

  datatype Encoding = Encoding(bits: seq<bool>, hashes: seq<Hash>)

  ghost function Build(pair: Pairing, height: nat, pos: nat, vTxid: seq<Hash>, vMatch: seq<bool>): Encoding
    requires IsNode(|vTxid|, height, pos) && |vMatch| == |vTxid|
  {
    var f := AnyMatch(vMatch, Leaf(height, pos), End(|vTxid|, height, pos));
    if height == 0 || !f then Encoding([f], [CalcHash(pair, height, pos, vTxid)])
    else
      LeafChildren(height, pos);
      var l := Build(pair, height - 1, 2 * pos, vTxid, vMatch);
      if IsNode(|vTxid|, height - 1, 2 * pos + 1)
      then
        var r := Build(pair, height - 1, 2 * pos + 1, vTxid, vMatch);
        Encoding([f] + (l.bits + r.bits), l.hashes + r.hashes)
      else Encoding([f] + l.bits, l.hashes)
  }

  // ------------------------------------------------------------ decoding

  datatype Cursor = Cursor(nBitsUsed: nat, nHashUsed: nat, vMatch: seq<Hash>, fBad: bool)

  /** A node that was read, and where that left the cursor. */
  datatype Found = Found(hash: Hash, cursor: Cursor)

  function Extract(pair: Pairing, n: nat, height: nat, pos: nat, vBits: seq<bool>, vHash: seq<Hash>, c: Cursor): Found
    decreases height
  {
    if c.nBitsUsed >= |vBits| then Found(0, c.(fBad := true))
    else
      var f := vBits[c.nBitsUsed];
      var d := c.(nBitsUsed := c.nBitsUsed + 1);
      if height == 0 || !f then
        if d.nHashUsed >= |vHash| then Found(0, d.(fBad := true))
        else
          var hash := vHash[d.nHashUsed];
          Found(hash,
                d.(nHashUsed := d.nHashUsed + 1, vMatch := if height == 0 && f then d.vMatch + [hash] else d.vMatch))
      else
        var l := Extract(pair, n, height - 1, 2 * pos, vBits, vHash, d);
        if 2 * pos + 1 < Width(n, height - 1) then
          var r := Extract(pair, n, height - 1, 2 * pos + 1, vBits, vHash, l.cursor);
          Found(pair(l.hash, r.hash), r.cursor)
        else Found(pair(l.hash, l.hash), l.cursor)
  }

  const MAX_BLOCK_SIZE: nat := 1000000

  ghost predicate SizesFit(n: nat, vBits: seq<bool>, vHash: seq<Hash>) {
    0 < n <= MAX_BLOCK_SIZE / 60 && |vHash| <= n && |vBits| >= |vHash|
  }

  ghost predicate AllUsed(c: Cursor, vBits: seq<bool>, vHash: seq<Hash>) {
    !c.fBad && (c.nBitsUsed + 7) / 8 == (|vBits| + 7) / 8 && c.nHashUsed == |vHash|
  }

  const START := Cursor(0, 0, [], false)

  /** What ExtractMatches computes before it tests whether everything was used. */
  ghost function Decode(pair: Pairing, n: nat, vBits: seq<bool>, vHash: seq<Hash>): Found {
    Extract(pair, n, TreeHeight(n, 0), 0, vBits, vHash, START)
  }

  // ------------------------------------------------------------ the encoding is not too long

  lemma RootIsNode(n: nat)
    requires n > 0
    ensures IsNode(n, TreeHeight(n, 0), 0)
    ensures End(n, TreeHeight(n, 0), 0) == n && Leaf(TreeHeight(n, 0), 0) == 0
  {
    WidthLeaf(n, TreeHeight(n, 0), 1);
  }

  /** No more hashes than leaves, and no more hashes than bits. */
  lemma {:induction false} BuildSize(pair: Pairing, height: nat, pos: nat, vTxid: seq<Hash>, vMatch: seq<bool>)
    requires IsNode(|vTxid|, height, pos) && |vMatch| == |vTxid|
    ensures
      var e := Build(pair, height, pos, vTxid, vMatch);
      |e.hashes| <= End(|vTxid|, height, pos) - Leaf(height, pos) && |e.hashes| <= |e.bits|
  {
    hide AnyMatch, CalcHash, Leaf;
    var n := |vTxid|;
    if height == 0 {
      LeafZero(pos);
      LeafZero(pos + 1);
    } else {
      LeafChildren(height, pos);
      BuildSize(pair, height - 1, 2 * pos, vTxid, vMatch);
      if IsNode(n, height - 1, 2 * pos + 1) {
        BuildSize(pair, height - 1, 2 * pos + 1, vTxid, vMatch);
      }
    }
  }

  // ------------------------------------------------------------ decoding what was encoded

  lemma {:induction false} PickedSplit(vTxid: seq<Hash>, vMatch: seq<bool>, lo: nat, mid: nat, hi: nat)
    requires lo <= mid <= hi <= |vTxid| == |vMatch|
    ensures Picked(vTxid, vMatch, lo, hi) == Picked(vTxid, vMatch, lo, mid) + Picked(vTxid, vMatch, mid, hi)
    decreases mid - lo
  {
    if lo < mid { PickedSplit(vTxid, vMatch, lo + 1, mid, hi); }
  }

  lemma {:induction false} PickedNone(vTxid: seq<Hash>, vMatch: seq<bool>, lo: nat, hi: nat)
    requires hi <= |vTxid| == |vMatch| && !AnyMatch(vMatch, lo, hi)
    ensures Picked(vTxid, vMatch, lo, hi) == []
    decreases hi - lo
  {
    if lo < hi { PickedNone(vTxid, vMatch, lo + 1, hi); }
  }

  lemma ExtractLeaf(vTxid: seq<Hash>, vMatch: seq<bool>, height: nat, pos: nat)
    requires IsNode(|vTxid|, height, pos) && |vMatch| == |vTxid|
    ensures height == 0 && AnyMatch(vMatch, Leaf(0, pos), End(|vTxid|, 0, pos)) ==>
      Picked(vTxid, vMatch, Leaf(height, pos), End(|vTxid|, height, pos)) == [vTxid[pos]]
    ensures !AnyMatch(vMatch, Leaf(height, pos), End(|vTxid|, height, pos)) ==>
      Picked(vTxid, vMatch, Leaf(height, pos), End(|vTxid|, height, pos)) == []
    ensures height == 0 ==> pos < |vTxid|
  {
    if height == 0 {
      LeafZero(pos);
      LeafZero(pos + 1);
    }
    if !AnyMatch(vMatch, Leaf(height, pos), End(|vTxid|, height, pos)) {
      PickedNone(vTxid, vMatch, Leaf(height, pos), End(|vTxid|, height, pos));
    }
  }

  lemma BuildBoth(pair: Pairing, height: nat, pos: nat, vTxid: seq<Hash>, vMatch: seq<bool>)
    requires height > 0 && IsNode(|vTxid|, height, pos) && |vMatch| == |vTxid|
    requires AnyMatch(vMatch, Leaf(height, pos), End(|vTxid|, height, pos))
    requires IsNode(|vTxid|, height - 1, 2 * pos + 1)
    ensures IsNode(|vTxid|, height - 1, 2 * pos)
    ensures
      var l := Build(pair, height - 1, 2 * pos, vTxid, vMatch);
      var r := Build(pair, height - 1, 2 * pos + 1, vTxid, vMatch);
      Build(pair, height, pos, vTxid, vMatch) == Encoding([true] + (l.bits + r.bits), l.hashes + r.hashes)
    ensures CalcHash(pair, height, pos, vTxid) ==
            pair(CalcHash(pair, height - 1, 2 * pos, vTxid), CalcHash(pair, height - 1, 2 * pos + 1, vTxid))
    ensures Leaf(height - 1, 2 * pos) == Leaf(height, pos) <= Leaf(height - 1, 2 * pos + 1)
    ensures End(|vTxid|, height - 1, 2 * pos) == Leaf(height - 1, 2 * pos + 1)
    ensures End(|vTxid|, height - 1, 2 * pos + 1) == End(|vTxid|, height, pos) >= Leaf(height - 1, 2 * pos + 1)
  {
    LeafChildren(height, pos);
    hide AnyMatch, Leaf;
  }

  lemma BuildOne(pair: Pairing, height: nat, pos: nat, vTxid: seq<Hash>, vMatch: seq<bool>)
    requires height > 0 && IsNode(|vTxid|, height, pos) && |vMatch| == |vTxid|
    requires AnyMatch(vMatch, Leaf(height, pos), End(|vTxid|, height, pos))
    requires !IsNode(|vTxid|, height - 1, 2 * pos + 1)
    ensures IsNode(|vTxid|, height - 1, 2 * pos)
    ensures
      var l := Build(pair, height - 1, 2 * pos, vTxid, vMatch);
      Build(pair, height, pos, vTxid, vMatch) == Encoding([true] + l.bits, l.hashes)
    ensures
      var left := CalcHash(pair, height - 1, 2 * pos, vTxid);
      CalcHash(pair, height, pos, vTxid) == pair(left, left)
    ensures Leaf(height - 1, 2 * pos) == Leaf(height, pos)
    ensures End(|vTxid|, height - 1, 2 * pos) == End(|vTxid|, height, pos)
  {
    LeafChildren(height, pos);
    hide AnyMatch, Leaf;
  }

  ghost function After(c: Cursor, e: Encoding, picked: seq<Hash>): Cursor {
    Cursor(c.nBitsUsed + |e.bits|, c.nHashUsed + |e.hashes|, c.vMatch + picked, c.fBad)
  }

  /** The encoding of a node stands where the cursor is. */
  ghost predicate Stands(e: Encoding, vBits: seq<bool>, vHash: seq<Hash>, c: Cursor) {
    At(vBits, c.nBitsUsed, e.bits) && At(vHash, c.nHashUsed, e.hashes)
  }

  /** Decoding at a node reads exactly what was written for it. */
  lemma {:induction false} ExtractBuilt(pair: Pairing, height: nat, pos: nat, vTxid: seq<Hash>, vMatch: seq<bool>,
                                        vBits: seq<bool>, vHash: seq<Hash>, c: Cursor)
    requires IsNode(|vTxid|, height, pos) && |vMatch| == |vTxid|
    requires Stands(Build(pair, height, pos, vTxid, vMatch), vBits, vHash, c)
    ensures
      Extract(pair, |vTxid|, height, pos, vBits, vHash, c) ==
      Found(CalcHash(pair, height, pos, vTxid),
            After(c, Build(pair, height, pos, vTxid, vMatch),
                  Picked(vTxid, vMatch, Leaf(height, pos), End(|vTxid|, height, pos))))
    decreases height, 1
  {
    if height == 0 || !AnyMatch(vMatch, Leaf(height, pos), End(|vTxid|, height, pos)) {
      LeafBuilt(pair, height, pos, vTxid, vMatch, vBits, vHash, c);
    } else {
      LeafChildren(height, pos);
      WidthNode(|vTxid|, height - 1, 2 * pos + 1);
      if IsNode(|vTxid|, height - 1, 2 * pos + 1) {
        BothBuilt(pair, height, pos, vTxid, vMatch, vBits, vHash, c);
      } else {
        OneBuilt(pair, height, pos, vTxid, vMatch, vBits, vHash, c);
      }
    }
  }

  lemma {:induction false} BothBuilt(pair: Pairing, height: nat, pos: nat, vTxid: seq<Hash>, vMatch: seq<bool>,
                                     vBits: seq<bool>, vHash: seq<Hash>, c: Cursor)
    requires height > 0 && IsNode(|vTxid|, height, pos) && |vMatch| == |vTxid|
    requires AnyMatch(vMatch, Leaf(height, pos), End(|vTxid|, height, pos))
    requires 2 * pos + 1 < Width(|vTxid|, height - 1) && IsNode(|vTxid|, height - 1, 2 * pos + 1)
    requires Stands(Build(pair, height, pos, vTxid, vMatch), vBits, vHash, c)
    ensures
      Extract(pair, |vTxid|, height, pos, vBits, vHash, c) ==
      Found(CalcHash(pair, height, pos, vTxid),
            After(c, Build(pair, height, pos, vTxid, vMatch),
                  Picked(vTxid, vMatch, Leaf(height, pos), End(|vTxid|, height, pos))))
    decreases height, 0
  {
    BuildBoth(pair, height, pos, vTxid, vMatch);
    var m, end := Leaf(height - 1, 2 * pos + 1), End(|vTxid|, height, pos);
    hide *;
    var d := c.(nBitsUsed := c.nBitsUsed + 1);
    var l := Build(pair, height - 1, 2 * pos, vTxid, vMatch);
    var r := Build(pair, height - 1, 2 * pos + 1, vTxid, vMatch);
    var p, q := Picked(vTxid, vMatch, Leaf(height, pos), m), Picked(vTxid, vMatch, m, end);
    StandsBoth(l, r, vBits, vHash, c, p);
    ExtractBuilt(pair, height - 1, 2 * pos, vTxid, vMatch, vBits, vHash, d);
    ExtractBuilt(pair, height - 1, 2 * pos + 1, vTxid, vMatch, vBits, vHash, After(d, l, p));
    PickedSplit(vTxid, vMatch, Leaf(height, pos), m, end);
    AfterBoth(c, l, r, p, q);
    ExtractBoth(pair, |vTxid|, height, pos, vBits, vHash, c);
  }

  lemma {:induction false} OneBuilt(pair: Pairing, height: nat, pos: nat, vTxid: seq<Hash>, vMatch: seq<bool>,
                                    vBits: seq<bool>, vHash: seq<Hash>, c: Cursor)
    requires height > 0 && IsNode(|vTxid|, height, pos) && |vMatch| == |vTxid|
    requires AnyMatch(vMatch, Leaf(height, pos), End(|vTxid|, height, pos))
    requires 2 * pos + 1 >= Width(|vTxid|, height - 1) && !IsNode(|vTxid|, height - 1, 2 * pos + 1)
    requires Stands(Build(pair, height, pos, vTxid, vMatch), vBits, vHash, c)
    ensures
      Extract(pair, |vTxid|, height, pos, vBits, vHash, c) ==
      Found(CalcHash(pair, height, pos, vTxid),
            After(c, Build(pair, height, pos, vTxid, vMatch),
                  Picked(vTxid, vMatch, Leaf(height, pos), End(|vTxid|, height, pos))))
    decreases height, 0
  {
    BuildOne(pair, height, pos, vTxid, vMatch);
    var end := End(|vTxid|, height, pos);
    assert Leaf(height, pos) < end <= |vTxid|;
    hide *;
    var d := c.(nBitsUsed := c.nBitsUsed + 1);
    var l := Build(pair, height - 1, 2 * pos, vTxid, vMatch);
    StandsOne(l, vBits, vHash, c);
    ExtractBuilt(pair, height - 1, 2 * pos, vTxid, vMatch, vBits, vHash, d);
    AfterOne(c, l, Picked(vTxid, vMatch, Leaf(height, pos), end));
    ExtractOne(pair, |vTxid|, height, pos, vBits, vHash, c);
  }

  lemma WidthNode(n: nat, height: nat, pos: nat)
    ensures pos < Width(n, height) <==> IsNode(n, height, pos)
  {
    WidthLeaf(n, height, pos);
  }

  lemma LeafBuilt(pair: Pairing, height: nat, pos: nat, vTxid: seq<Hash>, vMatch: seq<bool>,
                  vBits: seq<bool>, vHash: seq<Hash>, c: Cursor)
    requires IsNode(|vTxid|, height, pos) && |vMatch| == |vTxid|
    requires height == 0 || !AnyMatch(vMatch, Leaf(height, pos), End(|vTxid|, height, pos))
    requires Stands(Build(pair, height, pos, vTxid, vMatch), vBits, vHash, c)
    ensures
      Extract(pair, |vTxid|, height, pos, vBits, vHash, c) ==
      Found(CalcHash(pair, height, pos, vTxid),
            After(c, Build(pair, height, pos, vTxid, vMatch),
                  Picked(vTxid, vMatch, Leaf(height, pos), End(|vTxid|, height, pos))))
  {
    hide CalcHash, Picked, Leaf, Width, AnyMatch;
    var e := Build(pair, height, pos, vTxid, vMatch);
    var f := AnyMatch(vMatch, Leaf(height, pos), End(|vTxid|, height, pos));
    assert e == Encoding([f], [CalcHash(pair, height, pos, vTxid)]);
    assert vBits[c.nBitsUsed] == e.bits[0] == f by {
      assert vBits[c.nBitsUsed..c.nBitsUsed + 1][0] == vBits[c.nBitsUsed];
    }
    assert vHash[c.nHashUsed] == e.hashes[0] by { assert vHash[c.nHashUsed..c.nHashUsed + 1][0] == vHash[c.nHashUsed]; }
    ExtractLeaf(vTxid, vMatch, height, pos);
    assert height == 0 ==> CalcHash(pair, 0, pos, vTxid) == vTxid[pos] by { LeafHash(pair, height, pos, vTxid); }
    assert c.vMatch + [] == c.vMatch;
  }

  lemma LeafHash(pair: Pairing, height: nat, pos: nat, vTxid: seq<Hash>)
    requires IsNode(|vTxid|, height, pos)
    ensures height == 0 ==> pos < |vTxid| && CalcHash(pair, 0, pos, vTxid) == vTxid[pos]
  {
    LeafZero(pos);
  }

  lemma AfterOne(c: Cursor, l: Encoding, p: seq<Hash>)
    ensures After(c.(nBitsUsed := c.nBitsUsed + 1), l, p) == After(c, Encoding([true] + l.bits, l.hashes), p)
  {
  }

  lemma StandsBoth(l: Encoding, r: Encoding, vBits: seq<bool>, vHash: seq<Hash>, c: Cursor, p: seq<Hash>)
    requires Stands(Encoding([true] + (l.bits + r.bits), l.hashes + r.hashes), vBits, vHash, c)
    ensures Stands(l, vBits, vHash, c.(nBitsUsed := c.nBitsUsed + 1))
    ensures Stands(r, vBits, vHash, After(c.(nBitsUsed := c.nBitsUsed + 1), l, p))
    ensures c.nBitsUsed < |vBits| && vBits[c.nBitsUsed]
  {
    AtConcat(vBits, c.nBitsUsed, [true], l.bits + r.bits);
    AtConcat(vBits, c.nBitsUsed + 1, l.bits, r.bits);
    AtConcat(vHash, c.nHashUsed, l.hashes, r.hashes);
    assert vBits[c.nBitsUsed..c.nBitsUsed + 1][0];
  }

  lemma StandsOne(l: Encoding, vBits: seq<bool>, vHash: seq<Hash>, c: Cursor)
    requires Stands(Encoding([true] + l.bits, l.hashes), vBits, vHash, c)
    ensures Stands(l, vBits, vHash, c.(nBitsUsed := c.nBitsUsed + 1))
    ensures c.nBitsUsed < |vBits| && vBits[c.nBitsUsed]
  {
    AtConcat(vBits, c.nBitsUsed, [true], l.bits);
    assert vBits[c.nBitsUsed..c.nBitsUsed + 1][0];
  }

  lemma AfterBoth(c: Cursor, l: Encoding, r: Encoding, p: seq<Hash>, q: seq<Hash>)
    ensures After(After(c.(nBitsUsed := c.nBitsUsed + 1), l, p), r, q) ==
            After(c, Encoding([true] + (l.bits + r.bits), l.hashes + r.hashes), p + q)
  {
    assert (c.vMatch + p) + q == c.vMatch + (p + q);
  }

  lemma ExtractBoth(pair: Pairing, n: nat, height: nat, pos: nat, vBits: seq<bool>, vHash: seq<Hash>, c: Cursor)
    requires height > 0 && c.nBitsUsed < |vBits| && vBits[c.nBitsUsed] && 2 * pos + 1 < Width(n, height - 1)
    ensures
      var l := Extract(pair, n, height - 1, 2 * pos, vBits, vHash, c.(nBitsUsed := c.nBitsUsed + 1));
      var r := Extract(pair, n, height - 1, 2 * pos + 1, vBits, vHash, l.cursor);
      Extract(pair, n, height, pos, vBits, vHash, c) == Found(pair(l.hash, r.hash), r.cursor)
  {
    hide Width;
  }

  lemma ExtractOne(pair: Pairing, n: nat, height: nat, pos: nat, vBits: seq<bool>, vHash: seq<Hash>, c: Cursor)
    requires height > 0 && c.nBitsUsed < |vBits| && vBits[c.nBitsUsed] && 2 * pos + 1 >= Width(n, height - 1)
    ensures
      var l := Extract(pair, n, height - 1, 2 * pos, vBits, vHash, c.(nBitsUsed := c.nBitsUsed + 1));
      Extract(pair, n, height, pos, vBits, vHash, c) == Found(pair(l.hash, l.hash), l.cursor)
  {
    hide Width;
  }
}
