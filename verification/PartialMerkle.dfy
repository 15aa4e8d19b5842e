/** The partial Merkle tree object and the level-by-level tree of a block. */
module PartialMerkle {
  import opened Common
  import opened Arithmetic
  import opened Bits
  import opened MerkleTree
  import opened MerkleProofs

  class PartialMerkleTree {
    const pair: Pairing
    var nTransactions: nat
    var vBits: seq<bool>
    var vHash: seq<Hash>
    var fBad: bool

    /** What is on the wire, read into a new object. */
    constructor Read(pair: Pairing, nTransactions: nat, vHash: seq<Hash>, vBytes: seq<Byte>)
      ensures this.pair == pair && this.nTransactions == nTransactions && this.vHash == vHash && !fBad
      ensures |vBits| == 8 * |vBytes|
      ensures forall p :: 0 <= p < |vBits| ==> (vBits[p] <==> Bit(vBytes[p / 8], p % 8))
    {
      this.pair := pair;
      this.nTransactions := nTransactions;
      this.vHash := vHash;
      var bits := UnpackBits(vBytes);
      vBits := bits;
      fBad := false;
    }

    method WriteBytes() returns (vBytes: seq<Byte>)
      ensures Packed(vBytes, vBits)
    {
      vBytes := PackBits(vBits);
    }

    /** From the transactions of a block and the mask of those to prove. */
    constructor Build(pair: Pairing, vTxid: seq<Hash>, vMatch: seq<bool>)
      requires vTxid != [] && |vMatch| == |vTxid|
      ensures this.pair == pair && nTransactions == |vTxid| && !fBad
      ensures vBits == Encode(pair, vTxid, vMatch).bits && vHash == Encode(pair, vTxid, vMatch).hashes
    {
      hide MerkleTree.Build, TreeHeight, Leaf;
      this.pair := pair;
      nTransactions := |vTxid|;
      fBad := false;
      vBits := [];
      vHash := [];
      new;
      var nHeight := Height(nTransactions);
      RootIsNode(|vTxid|);
      TraverseAndBuild(nHeight, 0, vTxid, vMatch);
    }

    method NodeHash(height: nat, pos: nat, vTxid: seq<Hash>) returns (hash: Hash)
      requires nTransactions == |vTxid| && IsNode(|vTxid|, height, pos)
      ensures hash == CalcHash(pair, height, pos, vTxid)
      decreases height
    {
      hide Width, CalcHash;
      if height == 0 {
        LeafHash(pair, height, pos, vTxid);
        return vTxid[pos];
      }
      BelowNode(|vTxid|, height, pos);
      WidthNode(nTransactions, height - 1, 2 * pos + 1);
      var left := NodeHash(height - 1, 2 * pos, vTxid);
      var right := left;
      if 2 * pos + 1 < Width(nTransactions, height - 1) {
        right := NodeHash(height - 1, 2 * pos + 1, vTxid);
        HashBoth(pair, height, pos, vTxid);
      } else {
        HashOne(pair, height, pos, vTxid);
      }
      return pair(left, right);
    }

    method ParentOfMatch(height: nat, pos: nat, vMatch: seq<bool>) returns (f: bool)
      requires nTransactions == |vMatch|
      ensures f == AnyMatch(vMatch, Leaf(height, pos), End(nTransactions, height, pos))
    {
      hide Pow;
      f := false;
      var p := Leaf(height, pos);
      while p < Leaf(height, pos + 1) && p < nTransactions
        invariant Leaf(height, pos) <= p
        invariant Leaf(height, pos) < p ==> p <= End(nTransactions, height, pos)
        invariant f == AnyMatch(vMatch, Leaf(height, pos), p)
        decreases nTransactions - p
      {
        MatchStep(vMatch, Leaf(height, pos), p);
        f := f || vMatch[p];
        p := p + 1;
      }
      MatchEmpty(vMatch, Leaf(height, pos), End(nTransactions, height, pos), p);
    }

    static lemma MatchStep(vMatch: seq<bool>, lo: nat, p: nat)
      requires lo <= p < |vMatch|
      ensures AnyMatch(vMatch, lo, p + 1) <==> AnyMatch(vMatch, lo, p) || vMatch[p]
    {
    }

    static lemma MatchEmpty(vMatch: seq<bool>, lo: nat, end: nat, p: nat)
      requires p == end || (p == lo && end <= lo)
      ensures AnyMatch(vMatch, lo, p) <==> AnyMatch(vMatch, lo, end)
    {
    }

    method TraverseAndBuild(height: nat, pos: nat, vTxid: seq<Hash>, vMatch: seq<bool>)
      requires nTransactions == |vTxid| == |vMatch| && IsNode(|vTxid|, height, pos)
      modifies this`vBits, this`vHash
      ensures vBits == old(vBits) + MerkleTree.Build(pair, height, pos, vTxid, vMatch).bits
      ensures vHash == old(vHash) + MerkleTree.Build(pair, height, pos, vTxid, vMatch).hashes
      decreases height
    {
      hide Width, CalcHash, Leaf, AnyMatch;
      var fParentOfMatch := ParentOfMatch(height, pos, vMatch);
      vBits := vBits + [fParentOfMatch];
      if height == 0 || !fParentOfMatch {
        var hash := NodeHash(height, pos, vTxid);
        vHash := vHash + [hash];
      } else {
        BelowNode(|vTxid|, height, pos);
        WidthNode(nTransactions, height - 1, 2 * pos + 1);
        TraverseAndBuild(height - 1, 2 * pos, vTxid, vMatch);
        if 2 * pos + 1 < Width(nTransactions, height - 1) {
          TraverseAndBuild(height - 1, 2 * pos + 1, vTxid, vMatch);
          BuildBoth(pair, height, pos, vTxid, vMatch);
        } else {
          BuildOne(pair, height, pos, vTxid, vMatch);
        }
      }
    }

    ghost function At(nBitsUsed: nat, nHashUsed: nat, vMatch: seq<Hash>): Cursor
      reads this`fBad
    {
      Cursor(nBitsUsed, nHashUsed, vMatch, fBad)
    }

    method TraverseAndExtract(height: nat, pos: nat, nBits: nat, nHashes: nat, matched: seq<Hash>)
      returns (hash: Hash, nBitsUsed: nat, nHashUsed: nat, vMatch: seq<Hash>)
      modifies this`fBad
      ensures
        Found(hash, At(nBitsUsed, nHashUsed, vMatch)) ==
        Extract(pair, nTransactions, height, pos, vBits, vHash, old(At(nBits, nHashes, matched)))
      ensures old(fBad) ==> fBad
      decreases height
    {
      hide Width;
      nBitsUsed, nHashUsed, vMatch := nBits, nHashes, matched;
      if nBitsUsed >= |vBits| {
        fBad := true;
        hash := 0;
        return;
      }
      var fParentOfMatch := vBits[nBitsUsed];
      nBitsUsed := nBitsUsed + 1;
      if height == 0 || !fParentOfMatch {
        if nHashUsed >= |vHash| {
          fBad := true;
          hash := 0;
          return;
        }
        hash := vHash[nHashUsed];
        nHashUsed := nHashUsed + 1;
        if height == 0 && fParentOfMatch {
          vMatch := vMatch + [hash];
        }
      } else {
        var left, right;
        left, nBitsUsed, nHashUsed, vMatch := TraverseAndExtract(height - 1, 2 * pos, nBitsUsed, nHashUsed, vMatch);
        if 2 * pos + 1 < Width(nTransactions, height - 1) {
          right, nBitsUsed, nHashUsed, vMatch :=
            TraverseAndExtract(height - 1, 2 * pos + 1, nBitsUsed, nHashUsed, vMatch);
        } else {
          right := left;
        }
        hash := pair(left, right);
      }
    }

    /** Zero, unless everything in the object is used up by the tree it describes. */
    method ExtractMatches() returns (hash: Hash, vMatch: seq<Hash>)
      modifies this`fBad
      ensures
        var d := Decode(pair, nTransactions, vBits, vHash);
        hash == if !old(fBad) && Accepted(pair, nTransactions, vBits, vHash) then d.hash else 0
      ensures !SizesFit(nTransactions, vBits, vHash) ==> vMatch == []
      ensures SizesFit(nTransactions, vBits, vHash) && !old(fBad) ==>
        vMatch == Decode(pair, nTransactions, vBits, vHash).cursor.vMatch
      ensures old(fBad) ==> fBad
    {
      hide Extract, TreeHeight;
      vMatch := [];
      if nTransactions == 0 {
        return 0, vMatch;
      }
      if nTransactions > MAX_BLOCK_SIZE / 60 {
        return 0, vMatch;
      }
      if |vHash| > nTransactions {
        return 0, vMatch;
      }
      if |vBits| < |vHash| {
        return 0, vMatch;
      }
      var nHeight := Height(nTransactions);
      var nBitsUsed, nHashUsed;
      hash, nBitsUsed, nHashUsed, vMatch := TraverseAndExtract(nHeight, 0, 0, 0, vMatch);
      if fBad {
        return 0, vMatch;
      }
      if (nBitsUsed + 7) / 8 != (|vBits| + 7) / 8 {
        return 0, vMatch;
      }
      if nHashUsed != |vHash| {
        return 0, vMatch;
      }
    }
  }

  method Height(nTransactions: nat) returns (nHeight: nat)
    ensures nHeight == TreeHeight(nTransactions, 0)
  {
    hide Width;
    nHeight := 0;
    while Width(nTransactions, nHeight) > 1
      invariant TreeHeight(nTransactions, nHeight) == TreeHeight(nTransactions, 0)
      decreases nTransactions - nHeight
    {
      HeightBelow(nTransactions, nHeight);
      nHeight := nHeight + 1;
    }
  }

  // ------------------------------------------------------------ CBlock::BuildMerkleTree

  /** The levels below a height, from the transactions up. */
  ghost function LevelsBelow(pair: Pairing, vTxid: seq<Hash>, height: nat): seq<Hash> {
    if height == 0 then [] else LevelsBelow(pair, vTxid, height - 1) + Level(pair, vTxid, height - 1)
  }

  ghost predicate TwinsBelow(pair: Pairing, vTxid: seq<Hash>, height: nat) {
    exists h :: 0 <= h < height && Twins(Level(pair, vTxid, h))
  }

  /** The level that the root is on. */
  ghost function TopLevel(vTxid: seq<Hash>): nat { if vTxid == [] then 0 else TreeHeight(|vTxid|, 0) }

  method BuildMerkleTree(pair: Pairing, vTxid: seq<Hash>) returns (vMerkleTree: seq<Hash>, mutated: bool, root: Hash)
    ensures vMerkleTree == LevelsBelow(pair, vTxid, TopLevel(vTxid) + 1)
    ensures mutated <==> TwinsBelow(pair, vTxid, TopLevel(vTxid))
    ensures root == if vTxid == [] then 0 else Root(pair, vTxid)
  {
    hide Level, Parents, Twins;
    vMerkleTree := vTxid;
    var j := 0;
    mutated := false;
    ghost var height := 0;
    var nSize := |vTxid|;
    LevelStart(pair, vTxid);
    while nSize > 1
      invariant 0 <= j <= |vMerkleTree|
      invariant vMerkleTree[..j] == LevelsBelow(pair, vTxid, height) && vMerkleTree[j..] == Level(pair, vTxid, height)
      invariant nSize == |Level(pair, vTxid, height)| && (nSize == 0 <==> vTxid == [])
      invariant forall h :: 0 <= h < height ==> |Level(pair, vTxid, h)| > 1
      invariant mutated <==> TwinsBelow(pair, vTxid, height)
      decreases nSize
    {
      ghost var level := Level(pair, vTxid, height);
      assert vMerkleTree[..j + nSize] == vMerkleTree;
      var twins;
      vMerkleTree, twins := AppendParents(pair, vMerkleTree, j, nSize);
      LevelUp(pair, vTxid, height);
      assert vMerkleTree[..j + nSize] == LevelsBelow(pair, vTxid, height) + level;
      mutated := mutated || twins;
      j := j + nSize;
      height := height + 1;
      nSize := (nSize + 1) / 2;
    }
    assert vMerkleTree == vMerkleTree[..j] + vMerkleTree[j..];
    assert vTxid != [] ==> vMerkleTree[j..] == [vMerkleTree[j]];
    root := if vMerkleTree == [] then 0 else vMerkleTree[|vMerkleTree| - 1];
    assert vMerkleTree == LevelsBelow(pair, vTxid, height + 1);
    if vTxid == [] {
      NoLevels(pair, height);
    } else {
      RootsAgree(pair, vTxid, height);
    }
  }

  lemma LevelStart(pair: Pairing, vTxid: seq<Hash>)
    ensures Level(pair, vTxid, 0) == vTxid && LevelsBelow(pair, vTxid, 0) == []
    ensures !TwinsBelow(pair, vTxid, 0)
  {
  }

  lemma NoLevels(pair: Pairing, height: nat)
    requires forall h :: 0 <= h < height ==> |Level(pair, [], h)| > 1
    ensures height == 0
  {
    assert |Level(pair, [], 0)| == 0;
  }

  lemma LevelUp(pair: Pairing, vTxid: seq<Hash>, height: nat)
    ensures Level(pair, vTxid, height + 1) == Parents(pair, Level(pair, vTxid, height))
    ensures |Level(pair, vTxid, height + 1)| == (|Level(pair, vTxid, height)| + 1) / 2
    ensures TwinsBelow(pair, vTxid, height + 1) <==>
      TwinsBelow(pair, vTxid, height) || Twins(Level(pair, vTxid, height))
  {
    hide Twins;
  }

  /** The inner loop: the parents of the last nSize nodes are appended. */
  method AppendParents(pair: Pairing, tree: seq<Hash>, j: nat, nSize: nat)
    returns (vMerkleTree: seq<Hash>, mutated: bool)
    requires j + nSize == |tree| && nSize > 1
    ensures vMerkleTree == tree + Parents(pair, tree[j..])
    ensures mutated <==> Twins(tree[j..])
  {
    vMerkleTree := tree;
    mutated := false;
    ghost var s := tree[j..];
    var i := 0;
    while i < nSize
      invariant 0 <= i <= nSize + 1 && i % 2 == 0
      invariant |vMerkleTree| == j + nSize + i / 2 && vMerkleTree[..j + nSize] == tree
      invariant forall k :: 0 <= k < i / 2 ==> vMerkleTree[j + nSize + k] == Parents(pair, s)[k]
      invariant mutated <==> i >= nSize && Twins(s)
    {
      var i2 := if i + 1 < nSize - 1 then i + 1 else nSize - 1;
      assert vMerkleTree[j + i] == vMerkleTree[..j + nSize][j + i] == s[i];
      assert vMerkleTree[j + i2] == vMerkleTree[..j + nSize][j + i2] == s[i2];
      if i2 == i + 1 && i2 + 1 == nSize && vMerkleTree[j + i] == vMerkleTree[j + i2] {
        mutated := true;
      }
      ParentAt(pair, s, i / 2);
      vMerkleTree := vMerkleTree + [pair(vMerkleTree[j + i], vMerkleTree[j + i2])];
      i := i + 2;
    }
    assert vMerkleTree[j + nSize..] == Parents(pair, s);
  }

  /** The two roots are the same number, and the levels of the block's tree are the nodes that
      a partial tree of the block is made of. */
  lemma RootsAgree(pair: Pairing, vTxid: seq<Hash>, height: nat)
    requires vTxid != []
    requires |Level(pair, vTxid, height)| <= 1 && forall h :: 0 <= h < height ==> |Level(pair, vTxid, h)| > 1
    ensures height == TreeHeight(|vTxid|, 0)
    ensures |Level(pair, vTxid, height)| == 1 && Level(pair, vTxid, height)[0] == Root(pair, vTxid)
  {
    hide Level, CalcHash, Width, IsNode;
    forall h ensures h >= 0 ==> |Level(pair, vTxid, h)| == Width(|vTxid|, h) {
      if h >= 0 {
        ZeroIsNode(|vTxid|, h);
        LevelIsCalcHash(pair, vTxid, h, 0);
      }
    }
    HeightIs(|vTxid|, 0, height);
    ZeroIsNode(|vTxid|, height);
    LevelIsCalcHash(pair, vTxid, height, 0);
  }

  lemma ZeroIsNode(n: nat, height: nat)
    requires n > 0
    ensures IsNode(n, height, 0)
  {
  }

  lemma {:induction false} HeightIs(n: nat, from: nat, height: nat)
    requires from <= height && Width(n, height) <= 1 && forall h :: from <= h < height ==> Width(n, h) > 1
    ensures TreeHeight(n, from) == height
    decreases height - from
  {
    hide Width;
    if from < height { HeightIs(n, from + 1, height); }
  }
}
