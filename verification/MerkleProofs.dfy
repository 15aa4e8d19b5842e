/** What the encoding of a partial tree guarantees, and the level-by-level tree of a block. */
module MerkleProofs {
  import opened Common
  import opened Arithmetic
  import opened Bits
  import opened MerkleTree

  ghost function Root(pair: Pairing, vTxid: seq<Hash>): Hash
    requires vTxid != []
  {
    RootIsNode(|vTxid|);
    CalcHash(pair, TreeHeight(|vTxid|, 0), 0, vTxid)
  }

  ghost function Encode(pair: Pairing, vTxid: seq<Hash>, vMatch: seq<bool>): Encoding
    requires vTxid != [] && |vMatch| == |vTxid|
  {
    RootIsNode(|vTxid|);
    Build(pair, TreeHeight(|vTxid|, 0), 0, vTxid, vMatch)
  }

  ghost predicate Accepted(pair: Pairing, n: nat, vBits: seq<bool>, vHash: seq<Hash>) {
    SizesFit(n, vBits, vHash) && AllUsed(Decode(pair, n, vBits, vHash).cursor, vBits, vHash)
  }

  /** A partial tree whose bits went through bytes passes every check and yields the root of
      the whole tree and exactly the matched transactions, in their order. */
  lemma EncodeDecode(pair: Pairing, vTxid: seq<Hash>, vMatch: seq<bool>, vBits: seq<bool>)
    requires 0 < |vTxid| <= MAX_BLOCK_SIZE / 60 && |vMatch| == |vTxid|
    requires Padded(vBits, Encode(pair, vTxid, vMatch).bits)
    ensures
      var e := Encode(pair, vTxid, vMatch);
      var d := Decode(pair, |vTxid|, vBits, e.hashes);
      && Accepted(pair, |vTxid|, vBits, e.hashes)
      && d.hash == Root(pair, vTxid)
      && d.cursor.vMatch == Picked(vTxid, vMatch, 0, |vTxid|)
  {
    var n := |vTxid|;
    RootIsNode(n);
    var h := TreeHeight(n, 0);
    BuildSize(pair, h, 0, vTxid, vMatch);
    hide TreeHeight, Build, CalcHash, Extract, Picked, IsNode, End, Leaf;
    var e := Encode(pair, vTxid, vMatch);
    assert vBits[0..|e.bits|] == e.bits && e.hashes[0..|e.hashes|] == e.hashes;
    ExtractBuilt(pair, h, 0, vTxid, vMatch, vBits, e.hashes, START);
    var picked := Picked(vTxid, vMatch, 0, n);
    assert [] + picked == picked;
  }

  // ------------------------------------------------------------ soundness

  ghost predicate Injective(pair: Pairing) {
    forall a, b, c, d :: pair(a, b) == pair(c, d) ==> a == c && b == d
  }

  /** The hashes are those of vTxid at strictly increasing positions from lo to hi. */
  ghost predicate TakenAt(found: seq<Hash>, vTxid: seq<Hash>, at: seq<nat>, lo: nat, hi: nat) {
    && |at| == |found|
    && (forall i :: 0 <= i < |at| ==> lo <= at[i] < hi && at[i] < |vTxid| && vTxid[at[i]] == found[i])
    && (forall i, j :: 0 <= i < j < |at| ==> at[i] < at[j])
  }

  lemma TakenJoin(f: seq<Hash>, g: seq<Hash>, vTxid: seq<Hash>, a: seq<nat>, b: seq<nat>, lo: nat, mid: nat, hi: nat)
    requires lo <= mid <= hi && TakenAt(f, vTxid, a, lo, mid) && TakenAt(g, vTxid, b, mid, hi)
    ensures TakenAt(f + g, vTxid, a + b, lo, hi)
  {
  }

  lemma {:induction false} BadStays(pair: Pairing, n: nat, height: nat, pos: nat, vBits: seq<bool>, vHash: seq<Hash>,
                                    c: Cursor)
    ensures c.vMatch <= Extract(pair, n, height, pos, vBits, vHash, c).cursor.vMatch
    ensures c.fBad ==> Extract(pair, n, height, pos, vBits, vHash, c).cursor.fBad
    decreases height
  {
    hide Width;
    if c.nBitsUsed < |vBits| && height > 0 && vBits[c.nBitsUsed] {
      var d := c.(nBitsUsed := c.nBitsUsed + 1);
      BadStays(pair, n, height - 1, 2 * pos, vBits, vHash, d);
      var l := Extract(pair, n, height - 1, 2 * pos, vBits, vHash, d);
      if 2 * pos + 1 < Width(n, height - 1) {
        BadStays(pair, n, height - 1, 2 * pos + 1, vBits, vHash, l.cursor);
      }
    }
  }

  /** What decoding a node adds to the matches. */
  ghost function Added(pair: Pairing, n: nat, height: nat, pos: nat, vBits: seq<bool>, vHash: seq<Hash>,
                       c: Cursor): seq<Hash> {
    BadStays(pair, n, height, pos, vBits, vHash, c);
    Extract(pair, n, height, pos, vBits, vHash, c).cursor.vMatch[|c.vMatch|..]
  }

  /** A node that decodes to its true hash adds only leaves below it. */
  lemma {:induction false} NodeSound(pair: Pairing, height: nat, pos: nat, vTxid: seq<Hash>, vBits: seq<bool>,
                                     vHash: seq<Hash>, c: Cursor)
    returns (at: seq<nat>)
    requires Injective(pair) && IsNode(|vTxid|, height, pos)
    requires !Extract(pair, |vTxid|, height, pos, vBits, vHash, c).cursor.fBad
    requires Extract(pair, |vTxid|, height, pos, vBits, vHash, c).hash == CalcHash(pair, height, pos, vTxid)
    ensures TakenAt(Added(pair, |vTxid|, height, pos, vBits, vHash, c), vTxid, at, Leaf(height, pos),
                    End(|vTxid|, height, pos))
    decreases height
  {
    var n := |vTxid|;
    if height == 0 || !vBits[c.nBitsUsed] {
      at := LeafSound(pair, height, pos, vTxid, vBits, vHash, c);
    } else {
      WidthNode(n, height - 1, 2 * pos + 1);
      LeafChildren(height, pos);
      var d := c.(nBitsUsed := c.nBitsUsed + 1);
      BadStays(pair, n, height - 1, 2 * pos, vBits, vHash, d);
      var l := Extract(pair, n, height - 1, 2 * pos, vBits, vHash, d);
      var end, m := End(n, height, pos), Leaf(height - 1, 2 * pos + 1);
      if IsNode(n, height - 1, 2 * pos + 1) {
        HashBoth(pair, height, pos, vTxid);
        ExtractBoth(pair, n, height, pos, vBits, vHash, c);
        BadStays(pair, n, height - 1, 2 * pos + 1, vBits, vHash, l.cursor);
        EndsBoth(n, height, pos);
        AddedBoth(pair, n, height, pos, vBits, vHash, c);
        hide *;
        Split(pair, CalcHash(pair, height - 1, 2 * pos, vTxid), CalcHash(pair, height - 1, 2 * pos + 1, vTxid), l.hash,
              Extract(pair, n, height - 1, 2 * pos + 1, vBits, vHash, l.cursor).hash);
        var a := NodeSound(pair, height - 1, 2 * pos, vTxid, vBits, vHash, d);
        var b := NodeSound(pair, height - 1, 2 * pos + 1, vTxid, vBits, vHash, l.cursor);
        TakenJoin(Added(pair, n, height - 1, 2 * pos, vBits, vHash, d),
                  Added(pair, n, height - 1, 2 * pos + 1, vBits, vHash, l.cursor), vTxid, a, b, Leaf(height, pos), m,
                    end);
        at := a + b;
      } else {
        HashOne(pair, height, pos, vTxid);
        ExtractOne(pair, n, height, pos, vBits, vHash, c);
        assert End(n, height - 1, 2 * pos) == end;
        AddedOne(pair, n, height, pos, vBits, vHash, c);
        hide *;
        Split(pair, CalcHash(pair, height - 1, 2 * pos, vTxid), CalcHash(pair, height - 1, 2 * pos, vTxid), l.hash,
              l.hash);
        at := NodeSound(pair, height - 1, 2 * pos, vTxid, vBits, vHash, d);
      }
    }
  }

  lemma Split(pair: Pairing, a: Hash, b: Hash, c: Hash, d: Hash)
    requires Injective(pair) && pair(a, b) == pair(c, d)
    ensures a == c && b == d
  {
  }

  lemma LeafSound(pair: Pairing, height: nat, pos: nat, vTxid: seq<Hash>, vBits: seq<bool>, vHash: seq<Hash>, c: Cursor)
    returns (at: seq<nat>)
    requires IsNode(|vTxid|, height, pos) && c.nBitsUsed < |vBits| && (height == 0 || !vBits[c.nBitsUsed])
    requires !Extract(pair, |vTxid|, height, pos, vBits, vHash, c).cursor.fBad
    requires Extract(pair, |vTxid|, height, pos, vBits, vHash, c).hash == CalcHash(pair, height, pos, vTxid)
    ensures TakenAt(Added(pair, |vTxid|, height, pos, vBits, vHash, c), vTxid, at, Leaf(height, pos),
                    End(|vTxid|, height, pos))
  {
    hide Width;
    at := if height == 0 && vBits[c.nBitsUsed] then [pos] else [];
    LeafHash(pair, height, pos, vTxid);
    if height == 0 {
      LeafZero(pos);
      LeafZero(pos + 1);
    }
  }

  lemma EndsBoth(n: nat, height: nat, pos: nat)
    requires height > 0 && IsNode(n, height - 1, 2 * pos + 1)
    ensures Leaf(height - 1, 2 * pos) == Leaf(height, pos) <= Leaf(height - 1, 2 * pos + 1)
    ensures End(n, height - 1, 2 * pos) == Leaf(height - 1, 2 * pos + 1)
    ensures End(n, height - 1, 2 * pos + 1) == End(n, height, pos) >= Leaf(height - 1, 2 * pos + 1)
  {
    LeafChildren(height, pos);
    hide Leaf;
  }

  lemma AddedBoth(pair: Pairing, n: nat, height: nat, pos: nat, vBits: seq<bool>, vHash: seq<Hash>, c: Cursor)
    requires height > 0 && c.nBitsUsed < |vBits| && vBits[c.nBitsUsed] && 2 * pos + 1 < Width(n, height - 1)
    ensures
      var d := c.(nBitsUsed := c.nBitsUsed + 1);
      var l := Extract(pair, n, height - 1, 2 * pos, vBits, vHash, d);
      Added(pair, n, height, pos, vBits, vHash, c) ==
      Added(pair, n, height - 1, 2 * pos, vBits, vHash, d) +
        Added(pair, n, height - 1, 2 * pos + 1, vBits, vHash, l.cursor)
  {
    var d := c.(nBitsUsed := c.nBitsUsed + 1);
    ExtractBoth(pair, n, height, pos, vBits, vHash, c);
    BadStays(pair, n, height - 1, 2 * pos, vBits, vHash, d);
    BadStays(pair, n, height - 1, 2 * pos + 1, vBits, vHash,
             Extract(pair, n, height - 1, 2 * pos, vBits, vHash, d).cursor);
    hide Extract, Width;
  }

  lemma AddedOne(pair: Pairing, n: nat, height: nat, pos: nat, vBits: seq<bool>, vHash: seq<Hash>, c: Cursor)
    requires height > 0 && c.nBitsUsed < |vBits| && vBits[c.nBitsUsed] && 2 * pos + 1 >= Width(n, height - 1)
    ensures Added(pair, n, height, pos, vBits, vHash, c) ==
            Added(pair, n, height - 1, 2 * pos, vBits, vHash, c.(nBitsUsed := c.nBitsUsed + 1))
  {
    ExtractOne(pair, n, height, pos, vBits, vHash, c);
    hide Extract, Width;
  }

  lemma HashBoth(pair: Pairing, height: nat, pos: nat, vTxid: seq<Hash>)
    requires height > 0 && IsNode(|vTxid|, height, pos) && IsNode(|vTxid|, height - 1, 2 * pos + 1)
    ensures IsNode(|vTxid|, height - 1, 2 * pos)
    ensures CalcHash(pair, height, pos, vTxid) ==
            pair(CalcHash(pair, height - 1, 2 * pos, vTxid), CalcHash(pair, height - 1, 2 * pos + 1, vTxid))
  {
    LeafChildren(height, pos);
  }

  lemma HashOne(pair: Pairing, height: nat, pos: nat, vTxid: seq<Hash>)
    requires height > 0 && IsNode(|vTxid|, height, pos) && !IsNode(|vTxid|, height - 1, 2 * pos + 1)
    ensures IsNode(|vTxid|, height - 1, 2 * pos)
    ensures CalcHash(pair, height, pos, vTxid) ==
            pair(CalcHash(pair, height - 1, 2 * pos, vTxid), CalcHash(pair, height - 1, 2 * pos, vTxid))
  {
    LeafChildren(height, pos);
  }

  /** Any partial tree, honest or not, that is accepted with the root of a list of the same
      length yields only transactions of that list, in strictly increasing position. */
  lemma DecodeIsSound(pair: Pairing, vTxid: seq<Hash>, vBits: seq<bool>, vHash: seq<Hash>) returns (at: seq<nat>)
    requires Injective(pair) && vTxid != []
    requires Accepted(pair, |vTxid|, vBits, vHash)
    requires Decode(pair, |vTxid|, vBits, vHash).hash == Root(pair, vTxid)
    ensures TakenAt(Decode(pair, |vTxid|, vBits, vHash).cursor.vMatch, vTxid, at, 0, |vTxid|)
  {
    RootIsNode(|vTxid|);
    hide Extract, CalcHash, TreeHeight, IsNode;
    at := NodeSound(pair, TreeHeight(|vTxid|, 0), 0, vTxid, vBits, vHash, START);
    var m := Decode(pair, |vTxid|, vBits, vHash).cursor.vMatch;
    assert m[0..] == m;
  }

  // ------------------------------------------------------------ the tree of a block, level by level

  /** The parents of one level; an odd last node is paired with itself. */
  ghost function Parents(pair: Pairing, s: seq<Hash>): seq<Hash> {
    seq((|s| + 1) / 2,
        i requires 0 <= i < (|s| + 1) / 2 => pair(s[2 * i], if 2 * i + 1 < |s| then s[2 * i + 1] else s[|s| - 1]))
  }

  ghost function Level(pair: Pairing, vTxid: seq<Hash>, height: nat): seq<Hash> {
    if height == 0 then vTxid else Parents(pair, Level(pair, vTxid, height - 1))
  }

  lemma WidthHalves(n: nat, height: nat)
    ensures Width(n, height + 1) == (Width(n, height) + 1) / 2
  {
    hide Width;
    var w, v := Width(n, height), Width(n, height + 1);
    HalfWidth(n, height, (w + 1) / 2);
    if w > 0 { HalfWidth(n, height, (w + 1) / 2 - 1); }
    if v > 0 { HalfWidth(n, height, v - 1); }
    HalfWidth(n, height, v);
  }

  lemma HalfWidth(n: nat, height: nat, pos: nat)
    ensures pos < Width(n, height + 1) <==> 2 * pos < Width(n, height)
  {
    hide Width;
    WidthLeaf(n, height + 1, pos);
    WidthLeaf(n, height, 2 * pos);
    LeafChildren(height + 1, pos);
  }

  /** Hashing level by level and hashing by recursion agree at every node. */
  lemma {:induction false} LevelIsCalcHash(pair: Pairing, vTxid: seq<Hash>, height: nat, pos: nat)
    requires IsNode(|vTxid|, height, pos)
    ensures |Level(pair, vTxid, height)| == Width(|vTxid|, height)
    ensures pos < Width(|vTxid|, height) && Level(pair, vTxid, height)[pos] == CalcHash(pair, height, pos, vTxid)
    decreases height
  {
    hide *;
    if height == 0 {
      LevelZero(pair, vTxid, pos);
    } else {
      BelowNode(|vTxid|, height, pos);
      LevelIsCalcHash(pair, vTxid, height - 1, 2 * pos);
      if IsNode(|vTxid|, height - 1, 2 * pos + 1) {
        LevelIsCalcHash(pair, vTxid, height - 1, 2 * pos + 1);
      }
      LevelStep(pair, vTxid, height, pos);
    }
  }

  lemma LevelZero(pair: Pairing, vTxid: seq<Hash>, pos: nat)
    requires IsNode(|vTxid|, 0, pos)
    ensures |Level(pair, vTxid, 0)| == Width(|vTxid|, 0)
    ensures pos < Width(|vTxid|, 0) && Level(pair, vTxid, 0)[pos] == CalcHash(pair, 0, pos, vTxid)
  {
    hide Width, CalcHash;
    LeafHash(pair, 0, pos, vTxid);
    WidthZero(|vTxid|);
  }

  lemma BelowNode(n: nat, height: nat, pos: nat)
    requires height > 0 && IsNode(n, height, pos)
    ensures IsNode(n, height - 1, 2 * pos)
  {
    LeafChildren(height, pos);
  }

  lemma LevelStep(pair: Pairing, vTxid: seq<Hash>, height: nat, pos: nat)
    requires height > 0 && IsNode(|vTxid|, height, pos) && IsNode(|vTxid|, height - 1, 2 * pos)
    requires |Level(pair, vTxid, height - 1)| == Width(|vTxid|, height - 1) > 2 * pos
    requires Level(pair, vTxid, height - 1)[2 * pos] == CalcHash(pair, height - 1, 2 * pos, vTxid)
    requires IsNode(|vTxid|, height - 1, 2 * pos + 1) ==>
      2 * pos + 1 < Width(|vTxid|, height - 1) &&
      Level(pair, vTxid, height - 1)[2 * pos + 1] == CalcHash(pair, height - 1, 2 * pos + 1, vTxid)
    ensures |Level(pair, vTxid, height)| == Width(|vTxid|, height)
    ensures pos < Width(|vTxid|, height) && Level(pair, vTxid, height)[pos] == CalcHash(pair, height, pos, vTxid)
  {
    hide Width, IsNode, Parents, CalcHash;
    var s := Level(pair, vTxid, height - 1);
    assert Level(pair, vTxid, height) == Parents(pair, s);
    hide Level;
    WidthHalves(|vTxid|, height - 1);
    WidthNode(|vTxid|, height - 1, 2 * pos + 1);
    ParentAt(pair, s, pos);
    if IsNode(|vTxid|, height - 1, 2 * pos + 1) {
      HashBoth(pair, height, pos, vTxid);
    } else {
      HashOne(pair, height, pos, vTxid);
    }
  }

  lemma ParentAt(pair: Pairing, s: seq<Hash>, pos: nat)
    requires 2 * pos < |s|
    ensures |Parents(pair, s)| == (|s| + 1) / 2
    ensures Parents(pair, s)[pos] == pair(s[2 * pos], if 2 * pos + 1 < |s| then s[2 * pos + 1] else s[2 * pos])
  {
  }

  lemma WidthZero(n: nat)
    ensures Width(n, 0) == n
  {
    assert Pow(2, 0) == 1;
  }

  /** The last two of an even number of nodes are the same. */
  ghost predicate Twins(s: seq<Hash>) { |s| >= 2 && |s| % 2 == 0 && s[|s| - 2] == s[|s| - 1] }

  /** The duplicated-transaction malleability: repeating the last of an odd number of
      transactions leaves every level above, and so the root, as it was, and is what the
      mutation flag reports. */
  lemma {:induction false} DuplicateKeepsLevels(pair: Pairing, vTxid: seq<Hash>, height: nat)
    requires |vTxid| % 2 == 1 && height > 0
    ensures Level(pair, vTxid + [vTxid[|vTxid| - 1]], height) == Level(pair, vTxid, height)
    ensures Twins(Level(pair, vTxid + [vTxid[|vTxid| - 1]], 0))
    decreases height
  {
    var dup := vTxid + [vTxid[|vTxid| - 1]];
    if height == 1 {
      assert Level(pair, dup, 0) == dup && Level(pair, vTxid, 0) == vTxid;
      assert Parents(pair, dup) == Parents(pair, vTxid);
    } else {
      DuplicateKeepsLevels(pair, vTxid, height - 1);
    }
  }
}
