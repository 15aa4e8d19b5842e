/** What the root of a block says about its transactions, and what the mutation flag is for. */
module MerkleRoots {
  import opened Arithmetic
  import opened MerkleTree
  import opened MerkleProofs
  import opened PartialMerkle

  // ------------------------------------------------------------ roots without twins

  /** Nodes without twins at the end are determined by their parents. */
  lemma ParentsDetermine(pair: Pairing, s: seq<Hash>, t: seq<Hash>)
    requires Injective(pair) && !Twins(s) && !Twins(t) && Parents(pair, s) == Parents(pair, t)
    ensures s == t
  {
    var n := (|s| + 1) / 2;
    assert |Parents(pair, s)| == n && (|t| + 1) / 2 == n;
    forall i | 0 <= i < n
      ensures 2 * i < |s| && 2 * i < |t| && s[2 * i] == t[2 * i]
      ensures 2 * i + 1 < |s| <==> 2 * i + 1 < |t|
      ensures 2 * i + 1 < |s| ==> s[2 * i + 1] == t[2 * i + 1]
    {
      ParentAt(pair, s, i);
      ParentAt(pair, t, i);
    }
    hide Parents, Twins;
    SameLength(s, t, n);
    forall j | 0 <= j < |s| ensures s[j] == t[j] {
      assert j == 2 * (j / 2) || j == 2 * (j / 2) + 1;
    }
  }

  lemma SameLength(s: seq<Hash>, t: seq<Hash>, n: nat)
    requires (|s| + 1) / 2 == n && (|t| + 1) / 2 == n
    requires forall i :: 0 <= i < n ==> (2 * i + 1 < |s| <==> 2 * i + 1 < |t|)
    ensures |s| == |t|
  {
    if n > 0 { assert 2 * (n - 1) + 1 < |s| <==> 2 * (n - 1) + 1 < |t|; }
  }

  lemma {:induction false} LevelsDetermine(pair: Pairing, a: seq<Hash>, b: seq<Hash>, height: nat)
    requires Injective(pair) && !TwinsBelow(pair, a, height) && !TwinsBelow(pair, b, height)
    requires Level(pair, a, height) == Level(pair, b, height)
    ensures a == b
  {
    hide Parents, Twins;
    if height > 0 {
      ParentsDetermine(pair, Level(pair, a, height - 1), Level(pair, b, height - 1));
      LevelsDetermine(pair, a, b, height - 1);
    }
  }

  lemma TopIsRoot(pair: Pairing, vTxid: seq<Hash>)
    requires vTxid != []
    ensures Level(pair, vTxid, TopLevel(vTxid)) == [Root(pair, vTxid)]
  {
    var height := TreeHeight(|vTxid|, 0);
    ZeroIsNode(|vTxid|, height);
    LevelIsCalcHash(pair, vTxid, height, 0);
    hide Level, CalcHash, Width;
  }

  /** Two lists with trees of the same height and the same root, of which the mutation flag is set for
      neither, are the same. */
  lemma RootDetermines(pair: Pairing, a: seq<Hash>, b: seq<Hash>)
    requires Injective(pair) && a != [] && b != [] && TopLevel(a) == TopLevel(b) && Root(pair, a) == Root(pair, b)
    requires !TwinsBelow(pair, a, TopLevel(a)) && !TwinsBelow(pair, b, TopLevel(b))
    ensures a == b
  {
    TopIsRoot(pair, a);
    TopIsRoot(pair, b);
    hide Level, TwinsBelow, TopLevel, Root, Injective;
    LevelsDetermine(pair, a, b, TopLevel(a));
  }

  // ------------------------------------------------------------ repeated subtrees

  lemma ParentsAppend(pair: Pairing, s: seq<Hash>, t: seq<Hash>)
    requires |s| % 2 == 0
    ensures Parents(pair, s + t) == Parents(pair, s) + Parents(pair, t)
  {
    var m := |s| / 2;
    var p, q := Parents(pair, s + t), Parents(pair, s) + Parents(pair, t);
    assert |p| == |q|;
    forall i | 0 <= i < |p| ensures p[i] == q[i] {
      ParentAt(pair, s + t, i);
      if i < m { ParentAt(pair, s, i); } else { ParentAt(pair, t, i - m); }
    }
  }

  /** n leaves are so many whole subtrees of height h. */
  predicate Subtrees(n: nat, h: nat, count: nat) { n == count * Pow(2, h) }

  lemma Halve(n: nat, count: nat, h: nat)
    requires h > 0 && Subtrees(n, h, count)
    ensures Subtrees(n, h - 1, 2 * count)
  {
    var d := Pow(2, h - 1);
    assert Pow(2, h) == 2 * d;
    hide Pow;
    MulAssoc(count, 2, d);
  }

  lemma Whole(n: nat, count: nat)
    requires Subtrees(n, 0, count)
    ensures n == count
  {
  }

  /** Whole subtrees can be hashed apart from what follows. */
  lemma {:induction false} LevelAppend(pair: Pairing, a: seq<Hash>, b: seq<Hash>, h: nat, count: nat)
    requires Subtrees(|a|, h, count)
    ensures Level(pair, a + b, h) == Level(pair, a, h) + Level(pair, b, h) && |Level(pair, a, h)| == count
  {
    hide *;
    if h == 0 {
      Whole(|a|, count);
      LevelOfZero(pair, a);
      LevelOfZero(pair, b);
      LevelOfZero(pair, a + b);
    } else {
      Halve(|a|, count, h);
      LevelAppend(pair, a, b, h - 1, 2 * count);
      LevelOf(pair, a, h);
      LevelOf(pair, b, h);
      LevelOf(pair, a + b, h);
      ParentsAppend(pair, Level(pair, a, h - 1), Level(pair, b, h - 1));
      ParentsCount(pair, Level(pair, a, h - 1));
    }
  }

  lemma LevelOfZero(pair: Pairing, vTxid: seq<Hash>)
    ensures Level(pair, vTxid, 0) == vTxid
  {
  }

  lemma LevelOf(pair: Pairing, vTxid: seq<Hash>, h: nat)
    requires h > 0
    ensures Level(pair, vTxid, h) == Parents(pair, Level(pair, vTxid, h - 1))
  {
  }

  lemma ParentsCount(pair: Pairing, s: seq<Hash>)
    ensures |Parents(pair, s)| == (|s| + 1) / 2
  {
  }

  lemma {:induction false} LevelPlus(pair: Pairing, vTxid: seq<Hash>, h: nat, k: nat)
    ensures Level(pair, Level(pair, vTxid, h), k) == Level(pair, vTxid, h + k)
  {
    hide Parents;
    if k > 0 { LevelPlus(pair, vTxid, h, k - 1); }
  }

  function WithLast(s: seq<Hash>, n: nat): seq<Hash>
    requires n <= |s|
  {
    s + s[|s| - n..]
  }

  /** Repeating the last subtree of a level with an odd number of whole subtrees leaves every level
      above as it was, and the flag sees it on that level. */
  lemma DuplicateSubtree(pair: Pairing, vTxid: seq<Hash>, h: nat, count: nat, height: nat)
    requires Subtrees(|vTxid|, h, count) && count % 2 == 1 && height > h
    ensures 0 < Pow(2, h) <= |vTxid|
    ensures Level(pair, WithLast(vTxid, Pow(2, h)), height) == Level(pair, vTxid, height)
    ensures Twins(Level(pair, WithLast(vTxid, Pow(2, h)), h)) && |Level(pair, vTxid, h)| == count
  {
    hide *;
    CutSubtree(|vTxid|, h, count);
    SubtreeLevels(pair, vTxid, h, count);
    AboveSubtree(pair, vTxid, WithLast(vTxid, Pow(2, h)), h, height);
  }

  lemma AboveSubtree(pair: Pairing, vTxid: seq<Hash>, dup: seq<Hash>, h: nat, height: nat)
    requires height > h && |Level(pair, vTxid, h)| % 2 == 1
    requires var s := Level(pair, vTxid, h); Level(pair, dup, h) == s + [s[|s| - 1]]
    ensures Level(pair, dup, height) == Level(pair, vTxid, height) && Twins(Level(pair, dup, h))
  {
    hide *;
    var s := Level(pair, vTxid, h);
    var k: nat := height - h;
    DuplicateKeepsLevels(pair, s, k);
    LevelOfZero(pair, s + [s[|s| - 1]]);
    LevelPlus(pair, vTxid, h, k);
    LevelPlus(pair, dup, h, k);
  }

  lemma CutSubtree(n: nat, h: nat, count: nat)
    requires Subtrees(n, h, count) && count > 0
    ensures 0 < Pow(2, h) <= n && Subtrees(n - Pow(2, h), h, count - 1) && Subtrees(Pow(2, h), h, 1)
  {
    PowPositive(2, h);
    var d := Pow(2, h);
    hide Pow;
    MulMono(1, count, d);
    MulSub(d, count, 1);
  }

  lemma SubtreeLevels(pair: Pairing, vTxid: seq<Hash>, h: nat, count: nat)
    requires Subtrees(|vTxid|, h, count) && count > 0
    ensures 0 < Pow(2, h) <= |vTxid|
    ensures
      var s := Level(pair, vTxid, h);
      |s| == count && Level(pair, WithLast(vTxid, Pow(2, h)), h) == s + [s[|s| - 1]]
  {
    hide *;
    var d := Pow(2, h);
    CutSubtree(|vTxid|, h, count);
    var a, l := vTxid[..|vTxid| - d], vTxid[|vTxid| - d..];
    LastIs(vTxid, d);
    LevelAppend(pair, a, l, h, count - 1);
    LevelAppend(pair, l, [], h, 1);
    LevelAppend(pair, vTxid, l, h, count);
    OneMoreLast(Level(pair, a, h), Level(pair, l, h));
  }

  lemma LastIs(s: seq<Hash>, n: nat)
    requires 0 < n <= |s|
    ensures s[..|s| - n] + s[|s| - n..] == s && WithLast(s, n) == s + s[|s| - n..] && |s[|s| - n..]| == n
  {
  }

  lemma OneMoreLast(s: seq<Hash>, t: seq<Hash>)
    requires |t| == 1
    ensures s + t + t == s + t + [(s + t)[|s + t| - 1]]
  {
  }

  /** So the root stays, when there is more than one subtree. */
  lemma DuplicateKeepsRoot(pair: Pairing, vTxid: seq<Hash>, h: nat, count: nat)
    requires Subtrees(|vTxid|, h, count) && count % 2 == 1 && count > 1
    ensures 0 < Pow(2, h) <= |vTxid|
    ensures
      var dup := WithLast(vTxid, Pow(2, h));
      && TopLevel(dup) == TopLevel(vTxid) && Root(pair, dup) == Root(pair, vTxid)
      && TwinsBelow(pair, dup, TopLevel(dup))
  {
    DuplicateSubtree(pair, vTxid, h, count, h + 1);
    var dup, top := WithLast(vTxid, Pow(2, h)), TopLevel(vTxid);
    LevelSizes(pair, vTxid);
    LevelSizes(pair, dup);
    hide Pow, Level, Width, Root, Twins, Subtrees;
    assert h < top;
    DuplicateSubtree(pair, vTxid, h, count, top);
    WidthGrows(|vTxid|, |dup|);
    HeightIs(|dup|, 0, top);
    TopIsRoot(pair, vTxid);
    TopIsRoot(pair, dup);
  }

  /** Level sizes are widths, which are above one exactly below the top. */
  lemma LevelSizes(pair: Pairing, vTxid: seq<Hash>)
    requires vTxid != []
    ensures forall h: nat :: |Level(pair, vTxid, h)| == Width(|vTxid|, h) > 0
    ensures forall h: nat :: h < TopLevel(vTxid) <==> Width(|vTxid|, h) > 1
  {
    hide Level, CalcHash, Width;
    forall h: nat ensures |Level(pair, vTxid, h)| == Width(|vTxid|, h) > 0 {
      ZeroIsNode(|vTxid|, h);
      LevelIsCalcHash(pair, vTxid, h, 0);
    }
    forall h: nat ensures h < TreeHeight(|vTxid|, 0) <==> Width(|vTxid|, h) > 1 {
      if h < TreeHeight(|vTxid|, 0) { BelowTop(|vTxid|, 0, h); } else { AboveTop(|vTxid|, TreeHeight(|vTxid|, 0), h); }
    }
  }

  lemma {:induction false} BelowTop(n: nat, from: nat, h: nat)
    requires from <= h < TreeHeight(n, from)
    ensures Width(n, h) > 1
    decreases h - from
  {
    hide Width;
    if from < h { BelowTop(n, from + 1, h); }
  }

  lemma {:induction false} AboveTop(n: nat, top: nat, h: nat)
    requires Width(n, top) <= 1 && top <= h
    ensures Width(n, h) <= 1
    decreases h - top
  {
    hide Width;
    if top < h {
      WidthHalves(n, top);
      AboveTop(n, top + 1, h);
    }
  }

  lemma WidthGrows(m: nat, n: nat)
    requires m <= n
    ensures forall h: nat :: Width(m, h) <= Width(n, h)
  {
    hide Width;
    forall h: nat ensures Width(m, h) <= Width(n, h) {
      if Width(m, h) > Width(n, h) {
        WidthLeaf(m, h, Width(n, h));
        WidthLeaf(n, h, Width(n, h));
        assert false;
      }
    }
  }
}
