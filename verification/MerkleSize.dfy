/** How many bits a partial tree takes: the remark of one less than two for each hash, and when it is right. */
module MerkleSize {
  import opened Arithmetic
  import opened MerkleTree
  import opened MerkleProofs

  /** The nodes above a match, from a node down, that have one child only. */
  ghost function Singles(n: nat, vMatch: seq<bool>, height: nat, pos: nat): nat
    requires IsNode(n, height, pos)
  {
    if height == 0 || !AnyMatch(vMatch, Leaf(height, pos), End(n, height, pos)) then 0
    else
      LeafChildren(height, pos);
      if IsNode(n, height - 1, 2 * pos + 1)
      then Singles(n, vMatch, height - 1, 2 * pos) + Singles(n, vMatch, height - 1, 2 * pos + 1)
      else 1 + Singles(n, vMatch, height - 1, 2 * pos)
  }

  lemma {:induction false} BitsExactly(pair: Pairing, height: nat, pos: nat, vTxid: seq<Hash>, vMatch: seq<bool>)
    requires IsNode(|vTxid|, height, pos) && |vMatch| == |vTxid|
    ensures
      var e := Build(pair, height, pos, vTxid, vMatch);
      |e.bits| == 2 * |e.hashes| - 1 + Singles(|vTxid|, vMatch, height, pos)
  {
    hide AnyMatch, CalcHash, Leaf;
    if height > 0 {
      LeafChildren(height, pos);
      BitsExactly(pair, height - 1, 2 * pos, vTxid, vMatch);
      if IsNode(|vTxid|, height - 1, 2 * pos + 1) {
        BitsExactly(pair, height - 1, 2 * pos + 1, vTxid, vMatch);
      }
    }
  }

  /** A match lies below the last node of a level with an odd number of nodes below it. */
  ghost predicate Lone(n: nat, vMatch: seq<bool>, h: nat, p: nat) {
    0 < h && IsNode(n, h, p) && !IsNode(n, h - 1, 2 * p + 1) && AnyMatch(vMatch, Leaf(h, p), n)
  }

  ghost predicate LoneUpTo(n: nat, vMatch: seq<bool>, height: nat) {
    exists h: nat, p: nat :: h <= height && Lone(n, vMatch, h, p)
  }

  lemma LeafMono(h: nat, p: nat, q: nat)
    requires p <= q
    ensures Leaf(h, p) <= Leaf(h, q)
  {
    PowPositive(2, h);
    MulMono(p, q, Pow(2, h));
  }

  /** The last node of a level starts at or behind any node of a higher level. */
  lemma EdgeBelow(n: nat, h: nat, p: nat, height: nat, pos: nat)
    requires h <= height && IsNode(n, height, pos) && !IsNode(n, h, p + 1)
    ensures Leaf(height, pos) <= Leaf(h, p)
  {
    var k := height - h;
    var q := pos * Pow(2, k);
    PowAdd(2, k, h);
    MulAssoc(pos, Pow(2, k), Pow(2, h));
    assert Leaf(height, pos) == Leaf(h, q);
    hide Leaf, Pow;
    if p + 1 <= q { LeafMono(h, p + 1, q); } else { LeafMono(h, q, p); }
  }

  lemma LoneIsLast(n: nat, vMatch: seq<bool>, h: nat, p: nat)
    requires Lone(n, vMatch, h, p)
    ensures !IsNode(n, h, p + 1)
  {
    LeafChildren(h, p);
  }

  /** Without a match below the last node of a level there is none below a last node further down. */
  lemma NoneBelow(n: nat, vMatch: seq<bool>, height: nat, pos: nat)
    requires IsNode(n, height, pos) && !AnyMatch(vMatch, Leaf(height, pos), n)
    ensures !LoneUpTo(n, vMatch, height)
  {
    hide Leaf;
    forall h: nat, p: nat | h <= height ensures !Lone(n, vMatch, h, p) {
      if Lone(n, vMatch, h, p) {
        LoneIsLast(n, vMatch, h, p);
        EdgeBelow(n, h, p, height, pos);
      }
    }
  }

  /** A last node with two children is not lone, so what is lone is further down. */
  lemma OneDown(n: nat, vMatch: seq<bool>, height: nat, pos: nat)
    requires height > 0 && !IsNode(n, height, pos + 1) && IsNode(n, height - 1, 2 * pos + 1) && IsNode(n, height, pos)
    ensures LoneUpTo(n, vMatch, height) <==> LoneUpTo(n, vMatch, height - 1)
  {
    hide Leaf;
    forall p: nat ensures !Lone(n, vMatch, height, p) {
      if Lone(n, vMatch, height, p) {
        LoneIsLast(n, vMatch, height, p);
        if p < pos { LeafMono(height, p + 1, pos); }
        if pos < p { LeafMono(height, pos + 1, p); }
      }
    }
    hide Lone;
    if LoneUpTo(n, vMatch, height) {
      var h: nat, p: nat :| h <= height && Lone(n, vMatch, h, p);
      assert h <= height - 1;
    }
  }

  lemma {:induction false} SinglesInside(n: nat, vMatch: seq<bool>, height: nat, pos: nat)
    requires IsNode(n, height, pos) && IsNode(n, height, pos + 1)
    ensures Singles(n, vMatch, height, pos) == 0
  {
    hide AnyMatch, Leaf;
    if height > 0 {
      LeafChildren(height, pos);
      SinglesInside(n, vMatch, height - 1, 2 * pos);
      SinglesInside(n, vMatch, height - 1, 2 * pos + 1);
    }
  }

  lemma {:induction false} SinglesOnEdge(n: nat, vMatch: seq<bool>, height: nat, pos: nat)
    requires IsNode(n, height, pos) && !IsNode(n, height, pos + 1)
    ensures Singles(n, vMatch, height, pos) > 0 <==> LoneUpTo(n, vMatch, height)
    ensures Singles(n, vMatch, height, pos) <= height
  {
    hide AnyMatch, Leaf, LoneUpTo;
    if !AnyMatch(vMatch, Leaf(height, pos), n) {
      NoneBelow(n, vMatch, height, pos);
    } else if height == 0 {
      NoneAtLeaves(n, vMatch);
    } else {
      LeafChildren(height, pos);
      if IsNode(n, height - 1, 2 * pos + 1) {
        SinglesInside(n, vMatch, height - 1, 2 * pos);
        SinglesOnEdge(n, vMatch, height - 1, 2 * pos + 1);
        OneDown(n, vMatch, height, pos);
      } else {
        SinglesOnEdge(n, vMatch, height - 1, 2 * pos);
        LoneHere(n, vMatch, height, pos);
      }
    }
  }

  lemma NoneAtLeaves(n: nat, vMatch: seq<bool>)
    ensures !LoneUpTo(n, vMatch, 0)
  {
  }

  lemma LoneHere(n: nat, vMatch: seq<bool>, h: nat, p: nat)
    requires Lone(n, vMatch, h, p)
    ensures LoneUpTo(n, vMatch, h)
  {
  }

  /** The bits are at most one less than two for each hash if and only if no match lies below the
      last node of a level above an odd number of nodes; and they are never more than the height
      of the tree beyond that. */
  lemma BitsBound(pair: Pairing, vTxid: seq<Hash>, vMatch: seq<bool>)
    requires vTxid != [] && |vMatch| == |vTxid|
    ensures
      var e, height := Encode(pair, vTxid, vMatch), TreeHeight(|vTxid|, 0);
      && (|e.bits| <= 2 * |e.hashes| - 1 <==> !LoneUpTo(|vTxid|, vMatch, height))
      && |e.bits| <= 2 * |e.hashes| - 1 + height
  {
    var n, height := |vTxid|, TreeHeight(|vTxid|, 0);
    RootIsNode(n);
    WidthLeaf(n, height, 1);
    hide Singles, LoneUpTo, Build, Leaf, Width;
    BitsExactly(pair, height, 0, vTxid, vMatch);
    SinglesOnEdge(n, vMatch, height, 0);
  }

  /** Three transactions, of which the last is matched: four bits for two hashes. */
  lemma RemarkFails(pair: Pairing, a: Hash, b: Hash, c: Hash)
    ensures
      var e := Encode(pair, [a, b, c], [false, false, true]);
      |e.bits| > 2 * |e.hashes| - 1
  {
    var vMatch := [false, false, true];
    BitsBound(pair, [a, b, c], vMatch);
    assert Pow(2, 0) == 1 && Pow(2, 1) == 2 && Pow(2, 2) == 4;
    assert Leaf(1, 1) == 2 && Leaf(0, 3) == 3 && Leaf(0, 1) == 1;
    WidthLeaf(3, 0, 1);
    assert vMatch[2];
    hide Leaf, Width, Encode;
    assert Lone(3, vMatch, 1, 1);
    LoneAbove(3, vMatch, 1, TreeHeight(3, 0));
  }

  lemma LoneAbove(n: nat, vMatch: seq<bool>, h: nat, height: nat)
    requires h <= height && exists p: nat :: Lone(n, vMatch, h, p)
    ensures LoneUpTo(n, vMatch, height)
  {
  }
}
