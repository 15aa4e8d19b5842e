/** The tree of blocks with its skip pointers, and the active chain as an index over heights. */
module BlockChain {
  import opened Arithmetic
  import opened SkipHeights

  // ------------------------------------------------------------ blocks

  class BlockIndex {
    const hash: int
    const pprev: BlockIndex?
    const nHeight: nat
    const pskip: BlockIndex?

    ghost predicate Linked()
      decreases nHeight, 0
    {
      && (pprev == null ==> nHeight == 0)
      && (pprev != null ==>
            && nHeight == pprev.nHeight + 1
            && pprev.Linked()
            && pskip == pprev.AncestorAt(GetSkipHeight(nHeight)))
    }

    /** The ancestor at a height, walking parent by parent. */
    ghost function AncestorAt(height: nat): (b: BlockIndex)
      requires Linked() && height <= nHeight
      ensures b.nHeight == height && b.Linked()
      decreases nHeight, 1
    {
      if height == nHeight then this else pprev.AncestorAt(height)
    }

    constructor Genesis(hash: int)
      ensures Linked() && pprev == null && nHeight == 0 && this.hash == hash
    {
      this.hash := hash;
      pprev := null;
      nHeight := 0;
      pskip := null;
    }

    /** A new block on top of another, with the pointer that BuildSkip gives it. */
    constructor Child(hash: int, parent: BlockIndex)
      requires parent.Linked()
      ensures Linked() && pprev == parent && this.hash == hash
    {
      var skip, _ := parent.GetAncestor(GetSkipHeight(parent.nHeight + 1));
      this.hash := hash;
      pprev := parent;
      nHeight := parent.nHeight + 1;
      pskip := skip;
    }

    /** Follows skip pointers where they do not lead too far, and still arrives where the walk
        over parents does, after no more steps than the square of the height's binary digits. */
    method GetAncestor(height: int) returns (r: BlockIndex?, ghost nSteps: nat)
      requires Linked()
      ensures r == if 0 <= height <= nHeight then AncestorAt(height) else null
      ensures IsFew(nSteps, nHeight)
    {
      nSteps := 0;
      if height > nHeight || height < 0 {
        NoStepsAreFew(nHeight);
        return null, 0;
      }
      WalksAreShort(nHeight, height);
      hide GetSkipHeight, BlockIndex.Linked, BlockIndex.AncestorAt, WalkSteps, Next, IsFew;
      assert WalkSteps(height, height) == 0 by { StepsNone(height); }
      var walk: BlockIndex := this;
      Itself();
      var heightWalk := nHeight;
      while heightWalk > height
        invariant walk.Linked() && height <= heightWalk == walk.nHeight && walk.AncestorAt(height) == AncestorAt(height)
        invariant nSteps + WalkSteps(heightWalk, height) == WalkSteps(nHeight, height)
      {
        OneStep(heightWalk, height);
        var heightSkip := GetSkipHeight(heightWalk);
        var heightSkipPrev := GetSkipHeight(heightWalk - 1);
        walk.Back(height);
        if heightSkip == height ||
           (heightSkip > height && !(heightSkipPrev < heightSkip - 2 && heightSkipPrev >= height)) {
          AncestorOf(walk.pprev, heightSkip, height);
          walk := walk.pskip;
          heightWalk := heightSkip;
        } else {
          walk := walk.pprev;
          heightWalk := heightWalk - 1;
        }
        nSteps := nSteps + 1;
      }
      walk.Itself();
      return walk, nSteps;
    }

    lemma Back(h: nat)
      requires Linked() && h < nHeight
      ensures pprev != null && pprev.Linked() && pprev.nHeight == nHeight - 1 && AncestorAt(h) == pprev.AncestorAt(h)
      ensures pskip == pprev.AncestorAt(GetSkipHeight(nHeight))
    {
      hide GetSkipHeight;
    }

    lemma Itself()
      requires Linked()
      ensures AncestorAt(nHeight) == this
      ensures pprev == null <==> nHeight == 0
      ensures pprev != null ==> pprev.Linked() && pprev.nHeight == nHeight - 1
    {
      hide GetSkipHeight;
    }
  }

  /** An ancestor of an ancestor is an ancestor. */
  lemma {:induction false} AncestorOf(b: BlockIndex, high: nat, low: nat)
    requires b.Linked() && low <= high <= b.nHeight
    ensures b.AncestorAt(high).AncestorAt(low) == b.AncestorAt(low)
    decreases b.nHeight
  {
    if high < b.nHeight { AncestorOf(b.pprev, high, low); }
  }

  /** All blocks from the genesis to a block. */
  ghost function Path(b: BlockIndex): (s: seq<BlockIndex?>)
    requires b.Linked()
    ensures |s| == b.nHeight + 1 && forall h :: 0 <= h < |s| ==> s[h] == b.AncestorAt(h)
  {
    seq(b.nHeight + 1, h requires 0 <= h <= b.nHeight => b.AncestorAt(h))
  }

  // ------------------------------------------------------------ the active chain

  class Chain {
    var vChain: seq<BlockIndex?>

    /** Empty, or the whole path to the last block. */
    ghost predicate Valid()
      reads this
    {
      vChain != [] ==>
        var tip := vChain[|vChain| - 1];
        tip != null && tip.Linked() && vChain == Path(tip)
    }

    constructor ()
      ensures Valid() && vChain == []
    {
      vChain := [];
    }

    function Tip(): BlockIndex?
      reads this
    {
      if |vChain| < 1 then null else vChain[|vChain| - 1]
    }

    function Height(): int
      reads this
    {
      |vChain| - 1
    }

    /** The height is the tip's, and -1 without one; every height up to it has the tip's ancestor. */
    lemma HeightIsTips()
      requires Valid()
      ensures Tip() == null <==> Height() == -1
      ensures Tip() != null ==>
        Tip().Linked() && Tip().nHeight == Height() && forall h: nat :: h <= Height() ==> At(h) == Tip().AncestorAt(h)
      ensures forall h :: h < 0 || h > Height() ==> At(h) == null
    {
    }

    /** Two chains that are not empty are equal if and only if their lengths and their tips are. */
    lemma EqualByTips(other: Chain)
      requires Valid() && other.Valid() && vChain != [] && other.vChain != []
      ensures vChain == other.vChain <==>
        |vChain| == |other.vChain| && vChain[|vChain| - 1] == other.vChain[|other.vChain| - 1]
    {
      hide Path;
    }

    function At(nHeight: int): BlockIndex?
      reads this
    {
      if nHeight < 0 || nHeight >= |vChain| then null else vChain[nHeight]
    }

    predicate Contains(b: BlockIndex)
      reads this
    {
      At(b.nHeight) == b
    }

    /** The block after one in the chain; nothing for the tip or a block that is not in it. */
    method Next(b: BlockIndex) returns (r: BlockIndex?)
      requires Valid() && b.Linked()
      ensures r != null <==> Contains(b) && b != Tip()
      ensures r != null ==> r.Linked() && r.pprev == b && Contains(r)
    {
      hide BlockIndex.Linked, BlockIndex.AncestorAt, Path;
      if Contains(b) {
        r := At(b.nHeight + 1);
        if r != null {
          ghost var tip := Tip();
          StepDown(tip, b.nHeight + 1);
        }
      } else {
        r := null;
      }
    }

    /** Although it stops at the first slot that is right already, the whole path is in place. */
    method SetTip(tip: BlockIndex?)
      requires Valid() && (tip != null ==> tip.Linked())
      modifies this
      ensures Valid() && vChain == (if tip == null then [] else Path(tip))
    {
      if tip == null {
        vChain := [];
        return;
      }
      hide BlockIndex.Linked, BlockIndex.AncestorAt, Path;
      ghost var was := vChain;
      var n := tip.nHeight + 1;
      vChain := if n <= |vChain| then vChain[..n] else vChain + seq(n - |vChain|, i => null);
      ghost var resized := vChain;
      var p: BlockIndex? := tip;
      tip.Itself();
      while p != null && vChain[p.nHeight] != p
        invariant |vChain| == n && Filled(vChain, resized, p, tip)
        decreases if p == null then 0 else p.nHeight + 1
      {
        FillNext(vChain, resized, p, tip);
        vChain := vChain[p.nHeight := p];
        p := p.pprev;
      }
      FilledAll(was, resized, vChain, p, tip);
    }

    /** Slots above p are right, and those up to p are as they were. */
    static ghost predicate Filled(chain: seq<BlockIndex?>, resized: seq<BlockIndex?>, p: BlockIndex?, tip: BlockIndex) {
      && tip.Linked() && |chain| == |resized| == tip.nHeight + 1
      && (p != null ==> p.Linked() && p.nHeight <= tip.nHeight && tip.AncestorAt(p.nHeight) == p)
      && (forall h :: (if p == null then 0 else p.nHeight + 1) <= h < |chain| ==> chain[h] == tip.AncestorAt(h))
      && (p != null ==> forall h :: 0 <= h <= p.nHeight ==> chain[h] == resized[h])
    }

    static lemma FillNext(chain: seq<BlockIndex?>, resized: seq<BlockIndex?>, p: BlockIndex?, tip: BlockIndex)
      requires p != null && Filled(chain, resized, p, tip)
      ensures p.nHeight < |chain| && Filled(chain[p.nHeight := p], resized, p.pprev, tip)
      ensures p.pprev != null ==> p.pprev.nHeight < p.nHeight
    {
      hide BlockIndex.Linked, BlockIndex.AncestorAt;
      StepDown(tip, p.nHeight);
      p.Itself();
    }

    static lemma FilledAll(was: seq<BlockIndex?>, resized: seq<BlockIndex?>, chain: seq<BlockIndex?>, p: BlockIndex?,
                           tip: BlockIndex)
      requires Filled(chain, resized, p, tip) && (p != null ==> chain[p.nHeight] == p)
      requires resized == if |chain| <= |was| then was[..|chain|] else was + seq(|chain| - |was|, i => null)
      requires was != [] ==> var last := was[|was| - 1]; last != null && last.Linked() && was == Path(last)
      ensures tip.Linked() && chain == Path(tip) && chain[|chain| - 1] == tip
    {
      hide BlockIndex.Linked, BlockIndex.AncestorAt, Path;
      tip.Itself();
      if p != null {
        assert resized[p.nHeight] == p;
        Prefix(was, resized, p, tip);
      }
      assert chain == Path(tip);
    }

    static lemma StepDown(tip: BlockIndex?, h: nat)
      requires tip != null && tip.Linked() && h <= tip.nHeight
      ensures
        var b := tip.AncestorAt(h);
        if b.pprev == null then h == 0 else h > 0 && tip.AncestorAt(h - 1) == b.pprev
    {
      hide BlockIndex.Linked, BlockIndex.AncestorAt;
      var b := tip.AncestorAt(h);
      b.Itself();
      if h > 0 {
        AncestorOf(tip, h, h - 1);
        b.Back(h - 1);
        b.pprev.Itself();
      }
    }

    /** Slots up to one that already holds the right block hold its ancestors. */
    static lemma Prefix(was: seq<BlockIndex?>, resized: seq<BlockIndex?>, p: BlockIndex, tip: BlockIndex)
      requires p.Linked() && tip.Linked() && p.nHeight <= tip.nHeight && tip.AncestorAt(p.nHeight) == p
      requires p.nHeight < |was| && p.nHeight < |resized| && was[p.nHeight] == p
      requires forall h :: 0 <= h < |was| && h < |resized| ==> resized[h] == was[h]
      requires var last := was[|was| - 1]; last != null && last.Linked() && was == Path(last)
      ensures forall h :: 0 <= h <= p.nHeight ==> resized[h] == tip.AncestorAt(h)
    {
      hide BlockIndex.Linked, BlockIndex.AncestorAt, Path;
      var last := was[|was| - 1];
      forall h | 0 <= h <= p.nHeight ensures resized[h] == tip.AncestorAt(h) {
        AncestorOf(last, p.nHeight, h);
        AncestorOf(tip, p.nHeight, h);
      }
    }

    /** The highest block of the chain among a block and its ancestors. */
    method FindFork(b: BlockIndex) returns (r: BlockIndex?)
      requires Valid() && b.Linked()
      ensures r != null ==> r.Linked() && Contains(r) && r.nHeight <= b.nHeight && b.AncestorAt(r.nHeight) == r
      ensures forall h: nat :: (if r == null then 0 else r.nHeight + 1) <= h <= b.nHeight ==> !Contains(b.AncestorAt(h))
    {
      hide BlockIndex.Linked, BlockIndex.AncestorAt, Path;
      r := b;
      b.Itself();
      if b.nHeight > Height() {
        ghost var nSteps;
        r, nSteps := b.GetAncestor(Height());
      }
      while r != null && !Contains(r)
        invariant r != null ==> r.Linked() && r.nHeight <= b.nHeight && b.AncestorAt(r.nHeight) == r
        invariant forall h: nat :: (if r == null then 0 else r.nHeight + 1) <= h <= b.nHeight ==>
          !Contains(b.AncestorAt(h))
        decreases if r == null then 0 else r.nHeight + 1
      {
        StepDown(b, r.nHeight);
        r := r.pprev;
      }
    }

    /** What was written are the hashes of the entries, and the genesis is not among them yet. */
    static ghost predicate Entries(start: BlockIndex, vHave: seq<int>) {
      && start.Linked()
      && forall i :: 0 <= i < |vHave| ==> EntryIs(start, vHave, i) && EntryHeight(start.nHeight, i) > 0
    }

    static ghost predicate EntryIs(start: BlockIndex, vHave: seq<int>, i: nat)
      requires start.Linked() && i < |vHave|
    {
      vHave[i] == start.AncestorAt(EntryHeight(start.nHeight, i)).hash
    }

    /** The entries are at the heights of EntryHeight, up to the first at the genesis. */
    static ghost predicate IsLocator(start: BlockIndex, vHave: seq<int>)
      requires start.Linked()
    {
      && vHave != []
      && forall i :: 0 <= i < |vHave| ==>
        EntryIs(start, vHave, i) && (EntryHeight(start.nHeight, i) == 0 <==> i == |vHave| - 1)
    }

    static lemma EntriesNext(start: BlockIndex, vHave: seq<int>, p: BlockIndex)
      requires Entries(start, vHave) && p == start.AncestorAt(EntryHeight(start.nHeight, |vHave|))
      ensures EntryHeight(start.nHeight, |vHave|) > 0 ==> Entries(start, vHave + [p.hash])
      ensures EntryHeight(start.nHeight, |vHave|) == 0 ==> IsLocator(start, vHave + [p.hash])
    {
      hide BlockIndex.Linked, BlockIndex.AncestorAt, EntryHeight;
      var after := vHave + [p.hash];
      forall i | 0 <= i < |vHave| ensures EntryIs(start, after, i) {
        assert EntryIs(start, vHave, i);
      }
    }

    /** The index over the chain where it has the block, and the skip list elsewhere. */
    method BackTo(p: BlockIndex, nHeight: nat) returns (r: BlockIndex)
      requires Valid() && p.Linked() && nHeight <= p.nHeight
      ensures r == p.AncestorAt(nHeight)
    {
      hide BlockIndex.Linked, BlockIndex.AncestorAt, Path;
      if Contains(p) {
        InChain(p, nHeight);
        r := At(nHeight);
      } else {
        ghost var nSteps;
        r, nSteps := p.GetAncestor(nHeight);
      }
    }

    /** The blocks of a locator, from a block (or the tip) down to the genesis: always further
        back, by twice as much at each step after the first ten. */
    method GetLocator(from: BlockIndex?) returns (vHave: seq<int>)
      requires Valid() && (from != null ==> from.Linked())
      ensures
        var start := if from == null then Tip() else from;
        if start == null then vHave == []
        else
          && start.Linked() && IsLocator(start, vHave)
          && (forall l: nat :: start.nHeight < Pow(2, l) ==> |vHave| <= 11 + l)
    {
      hide Pow, BlockIndex.Linked, BlockIndex.AncestorAt, Path, Entries, IsLocator, EntryHeight;
      vHave := [];
      var start := if from == null then Tip() else from;
      if start == null {
        return;
      }
      var nStep := 1;
      var p: BlockIndex := start;
      StartLocator(start);
      while true
        invariant Entries(start, vHave) && start.Linked() && p.Linked()
        invariant p == start.AncestorAt(EntryHeight(start.nHeight, |vHave|))
        invariant p.nHeight == EntryHeight(start.nHeight, |vHave|)
        invariant nStep == (if |vHave| <= 10 then 1 else Pow(2, |vHave| - 10)) && nStep >= 1
        decreases p.nHeight
      {
        ghost var before := vHave;
        EntriesNext(start, vHave, p);
        vHave := vHave + [p.hash];
        if p.nHeight == 0 {
          LocatorIs(start, vHave);
          return;
        }
        var nHeight := if p.nHeight - nStep < 0 then 0 else p.nHeight - nStep;
        EntryNext(start.nHeight, |before|, nStep);
        AncestorOf(start, p.nHeight, nHeight);
        p := BackTo(p, nHeight);
        if |vHave| > 10 {
          PowZero();
          PowTwice(|vHave| - 11);
          nStep := nStep * 2;
        }
      }
    }

    static lemma StartLocator(start: BlockIndex)
      requires start.Linked()
      ensures Entries(start, []) && EntryHeight(start.nHeight, 0) == start.nHeight
      ensures start.AncestorAt(start.nHeight) == start
    {
      start.Itself();
    }

    static lemma LocatorIs(start: BlockIndex, vHave: seq<int>)
      requires start.Linked() && IsLocator(start, vHave)
      ensures forall l: nat :: start.nHeight < Pow(2, l) ==> |vHave| <= 11 + l
    {
      hide BlockIndex.Linked, BlockIndex.AncestorAt, EntryIs;
      LocatorLength(start.nHeight, |vHave|);
    }

    lemma InChain(p: BlockIndex, h: nat)
      requires Valid() && p.Linked() && Contains(p) && h <= p.nHeight
      ensures At(h) == p.AncestorAt(h)
    {
      var tip := vChain[|vChain| - 1];
      AncestorOf(tip, p.nHeight, h);
    }
  }

  // ------------------------------------------------------------ how long a locator gets

  /** The steps back after the first n entries, if none was cut short. */
  ghost function Steps(n: nat): nat { if n <= 11 then n else Pow(2, n - 10) + 9 }

  /** The height of entry n of a locator. */
  ghost function EntryHeight(start: nat, n: nat): (h: nat)
    ensures h <= start
  {
    if Steps(n) <= start then start - Steps(n) else 0
  }

  lemma PowZero()
    ensures Pow(2, 0) == 1
  {
  }

  lemma PowTwice(e: nat)
    ensures Pow(2, e + 1) == 2 * Pow(2, e)
  {
  }

  lemma EntryNext(start: nat, n: nat, nStep: int)
    requires EntryHeight(start, n) > 0
    requires nStep == (if n <= 10 then 1 else Pow(2, n - 10)) && nStep >= 1
    ensures EntryHeight(start, n + 1) ==
      (if EntryHeight(start, n) - nStep < 0 then 0 else EntryHeight(start, n) - nStep)
  {
    hide Pow;
    PowZero();
    PowTwice(0);
    if n >= 11 { PowTwice(n - 10); }
  }

  /** The entries lie strictly lower and lower. */
  lemma {:induction false} EntriesDescend(start: nat, m: nat, n: nat)
    requires m < n && EntryHeight(start, m) > 0
    ensures EntryHeight(start, n) < EntryHeight(start, m)
  {
    var nStep := if n - 1 <= 10 then 1 else Pow(2, n - 1 - 10);
    if n - 1 > 10 { PowPositive(2, n - 1 - 10); }
    hide Pow, EntryHeight;
    if m < n - 1 { EntriesDescend(start, m, n - 1); }
    if EntryHeight(start, n - 1) > 0 { EntryNext(start, n - 1, nStep); } else { StaysAtGenesis(start, n - 1); }
  }

  lemma StaysAtGenesis(start: nat, n: nat)
    requires EntryHeight(start, n) == 0
    ensures EntryHeight(start, n + 1) == 0
  {
    hide Pow;
    PowTwice(0);
    PowZero();
    PowTwice(1);
    if n >= 12 { PowTwice(n - 10); }
  }

  lemma LocatorLength(start: nat, n: nat)
    requires n > 0 && EntryHeight(start, n - 1) == 0 && (n > 1 ==> EntryHeight(start, n - 2) > 0)
    ensures forall l: nat :: start < Pow(2, l) ==> n <= 11 + l
  {
    hide Pow;
    PowZero();
    PowTwice(0);
    forall l: nat | start < Pow(2, l) ensures n <= 11 + l {
      if n >= 14 && l < n - 12 { PowMono(2, l, n - 12); }
      if n < 14 && l < 2 { PowMono(2, l, 1); }
    }
  }
}
