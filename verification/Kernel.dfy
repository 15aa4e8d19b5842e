/** The stake modifier: up to 64 rounds, each choosing one recent block that gives one bit. */
module Kernel {
  import opened Arithmetic
  import opened Bits

  /** An entry of the block index with its parents; Null is the null pointer. */
  datatype BlockIndex = Null | Block(hash: nat, nTime: nat, nHeight: nat, fProofOfStake: bool,
                                     fGenerated: bool, nStakeModifier: nat, pprev: BlockIndex)

  /** What the computation reads besides the chain: the block index, the hash of a proof hash and
      a modifier, the height that switches the hashed value, and the modifier of the first block. */
  datatype Node = Node(mapBlockIndex: map<nat, BlockIndex>, hash: (nat, nat) -> nat, nUpgrade: int, nFirstModifier: nat)

  const MODIFIER_INTERVAL: nat := 60
  const MODIFIER_INTERVAL_RATIO: nat := 3
  const ROUNDS: nat := 64

  // ------------------------------------------------------------ interval sections

  function Section(nSection: nat): (a: nat)
    requires nSection < ROUNDS
    ensures 0 < a <= MODIFIER_INTERVAL
  {
    SectionBound(63 + (63 - nSection) * (MODIFIER_INTERVAL_RATIO - 1));
    MODIFIER_INTERVAL * 63 / (63 + (63 - nSection) * (MODIFIER_INTERVAL_RATIO - 1))
  }

  lemma SectionBound(d: nat)
    requires 63 <= d <= 189
    ensures 0 < 60 * 63 / d <= 60
  {
    var q := 60 * 63 / d;
    assert 60 * 63 == q * d + 60 * 63 % d;
    assert q == 0 ==> q * d == 0;
    if q > 60 { MulMono(61, q, d); }
  }

  /** Sections get longer and longer, from a third of the modifier interval to the whole of it: section n is
      the most seconds of which 189 - 2n go into 63 intervals. */
  lemma SectionLaw(n: nat)
    requires n < ROUNDS
    ensures (189 - 2 * n) * Section(n) <= 63 * 60 < (189 - 2 * n) * (Section(n) + 1)
    ensures n == 0 ==> MODIFIER_INTERVAL_RATIO * Section(n) == MODIFIER_INTERVAL
    ensures n == ROUNDS - 1 ==> Section(n) == MODIFIER_INTERVAL
  {
    var d := 63 + (63 - n) * (MODIFIER_INTERVAL_RATIO - 1);
    assert d == 189 - 2 * n;
    DivMod(63 * MODIFIER_INTERVAL, d, Section(n), 63 * MODIFIER_INTERVAL % d);
  }

  lemma SectionsGrow(m: nat, n: nat)
    requires m <= n < ROUNDS
    ensures Section(m) <= Section(n)
  {
    SectionLaw(m);
    SectionLaw(n);
    hide Section;
    if Section(m) > Section(n) {
      MulMono(Section(n) + 1, Section(m), 189 - 2 * n);
      MulMono(189 - 2 * n, 189 - 2 * m, Section(m));
    }
  }

  function Sections(n: nat): (a: nat)
    requires n <= ROUNDS
    ensures a >= n
  {
    if n == 0 then 0 else Sections(n - 1) + Section(n - 1)
  }

  method GetStakeModifierSelectionInterval() returns (nSelectionInterval: nat)
    ensures nSelectionInterval == Sections(ROUNDS)
  {
    hide Section;
    nSelectionInterval := 0;
    for nSection := 0 to ROUNDS
      invariant nSelectionInterval == Sections(nSection)
    {
      nSelectionInterval := nSelectionInterval + Section(nSection);
    }
  }

  // ------------------------------------------------------------ candidates

  datatype Candidate = Candidate(time: nat, hash: nat)

  function Depth(p: BlockIndex): nat { if p.Null? then 0 else 1 + Depth(p.pprev) }

  /** The blocks from p back to the first one older than `start`, as pairs of time and hash. */
  function Walk(p: BlockIndex, start: int): seq<Candidate> {
    if p.Null? || p.nTime < start then [] else [Candidate(p.nTime, p.hash)] + Walk(p.pprev, start)
  }

  /** Every block from p back is the one its hash names in the index. */
  predicate Indexed(p: BlockIndex, m: map<nat, BlockIndex>) {
    p.Null? || (p.hash in m && m[p.hash] == p && Indexed(p.pprev, m))
  }

  /** The index maps the hash of the candidate to a block with that hash and time. */
  predicate Names(c: Candidate, m: map<nat, BlockIndex>) {
    c.hash in m && m[c.hash].Block? && m[c.hash].hash == c.hash && m[c.hash].nTime == c.time
  }

  predicate Known(v: seq<Candidate>, m: map<nat, BlockIndex>) { forall i :: 0 <= i < |v| ==> Names(v[i], m) }

  lemma {:induction false} WalkDepths(p: BlockIndex, start: int, m: map<nat, BlockIndex>, i: nat)
    requires Indexed(p, m) && i < |Walk(p, start)|
    ensures
      var c := Walk(p, start)[i];
      Names(c, m) && Depth(m[c.hash]) == Depth(p) - i && c.time >= start
  {
    if i > 0 { WalkDepths(p.pprev, start, m, i - 1); }
  }

  /** Blocks at different depths have different hashes. */
  lemma WalkIsDistinct(p: BlockIndex, start: int, m: map<nat, BlockIndex>)
    requires Indexed(p, m)
    ensures Distinct(Walk(p, start)) && Known(Walk(p, start), m)
  {
    forall i | 0 <= i < |Walk(p, start)| ensures Names(Walk(p, start)[i], m) { WalkDepths(p, start, m, i); }
    forall i, j | 0 <= i < j < |Walk(p, start)| ensures Walk(p, start)[i].hash != Walk(p, start)[j].hash {
      WalkDepths(p, start, m, i);
      WalkDepths(p, start, m, j);
    }
  }

  function Reversed(s: seq<Candidate>): seq<Candidate> { seq(|s|, i requires 0 <= i < |s| => s[|s| - 1 - i]) }

  predicate Before(a: Candidate, b: Candidate) { a.time < b.time || (a.time == b.time && a.hash <= b.hash) }

  function Insert(c: Candidate, s: seq<Candidate>): seq<Candidate> {
    if s == [] || Before(c, s[0]) then [c] + s else [s[0]] + Insert(c, s[1..])
  }

  /** The standard library's sort of pairs. */
  function Sort(s: seq<Candidate>): seq<Candidate> {
    if s == [] then [] else Insert(s[0], Sort(s[1..]))
  }

  predicate Sorted(s: seq<Candidate>) { forall i, j :: 0 <= i < j < |s| ==> Before(s[i], s[j]) }

  predicate Distinct(s: seq<Candidate>) { forall i, j :: 0 <= i < j < |s| ==> s[i].hash != s[j].hash }

  /** Neither at nor after c. */
  predicate Below(c: Candidate, x: Candidate) { Before(c, x) && c.hash != x.hash }

  lemma Prepend(c: Candidate, t: seq<Candidate>)
    requires Sorted(t) && Distinct(t) && forall x :: x in t ==> Below(c, x)
    ensures Sorted([c] + t) && Distinct([c] + t)
  {
    hide Before;
    var u := [c] + t;
    forall i, j | 0 <= i < j < |u| ensures Before(u[i], u[j]) && u[i].hash != u[j].hash {
      assert u[j] == t[j - 1] && t[j - 1] in t;
      assert i > 0 ==> u[i] == t[i - 1];
    }
  }

  lemma {:induction false} InsertHas(c: Candidate, s: seq<Candidate>, x: Candidate)
    ensures x in Insert(c, s) <==> x == c || x in s
    ensures |Insert(c, s)| == |s| + 1
  {
    hide Before;
    if s != [] && !Before(c, s[0]) { InsertHas(c, s[1..], x); }
  }

  lemma {:induction false} InsertKeeps(c: Candidate, s: seq<Candidate>)
    requires Sorted(s) && Distinct(s) && forall x :: x in s ==> x.hash != c.hash
    ensures Sorted(Insert(c, s)) && Distinct(Insert(c, s))
  {
    if s == [] || Before(c, s[0]) {
      forall x | x in s ensures Below(c, x) {
        var j :| 0 <= j < |s| && s[j] == x;
        assert j == 0 || Before(s[0], s[j]);
      }
      Prepend(c, s);
    } else {
      InsertKeeps(c, s[1..]);
      forall x | x in Insert(c, s[1..]) ensures Below(s[0], x) {
        InsertHas(c, s[1..], x);
        if x != c {
          var j :| 0 < j < |s| && s[j] == x;
          assert Before(s[0], s[j]);
        }
      }
      Prepend(s[0], Insert(c, s[1..]));
    }
  }

  lemma {:induction false} SortHas(s: seq<Candidate>, x: Candidate)
    ensures x in Sort(s) <==> x in s
    ensures |Sort(s)| == |s|
  {
    hide Insert;
    if s != [] {
      SortHas(s[1..], x);
      InsertHas(s[0], Sort(s[1..]), x);
    }
  }

  lemma {:induction false} SortOrders(s: seq<Candidate>)
    requires Distinct(s)
    ensures Sorted(Sort(s)) && Distinct(Sort(s))
  {
    hide Insert, Before;
    if s != [] {
      SortOrders(s[1..]);
      forall x | x in Sort(s[1..]) ensures x.hash != s[0].hash { SortHas(s[1..], x); }
      InsertKeeps(s[0], Sort(s[1..]));
    }
  }

  // ------------------------------------------------------------ choosing one block

  /** Each entry of the index has the hash it is stored under. */
  predicate Mapped(m: map<nat, BlockIndex>) { forall h :: h in m ==> m[h].Block? && m[h].hash == h }

  /** The hash that block b is selected by; a proof-of-stake block's is divided by 2^32. */
  function SelectionHash(node: Node, fModifierV2: bool, b: BlockIndex, nStakeModifierPrev: nat): nat
    requires b.Block?
  {
    var hashProof := if fModifierV2 then b.hash else if b.fProofOfStake then 0 else b.hash;
    var hashSelection := node.hash(hashProof, nStakeModifierPrev);
    if b.fProofOfStake then hashSelection / 0x1_0000_0000 else hashSelection
  }

  /** The rule in force is that of the first candidate's height. */
  predicate ModifierV2(node: Node, v: seq<Candidate>) {
    v != [] && v[0].hash in node.mapBlockIndex && node.mapBlockIndex[v[0].hash].Block?
    && node.mapBlockIndex[v[0].hash].nHeight >= node.nUpgrade
  }

  function Key(node: Node, v: seq<Candidate>, prev: nat, i: nat): nat
    requires i < |v| && Mapped(node.mapBlockIndex)
  {
    var h := v[i].hash;
    if h in node.mapBlockIndex then SelectionHash(node, ModifierV2(node, v), node.mapBlockIndex[h], prev) else 0
  }

  lemma KeyIs(node: Node, v: seq<Candidate>, prev: nat, i: nat)
    requires Mapped(node.mapBlockIndex) && Known(v, node.mapBlockIndex) && i < |v|
    ensures
      var first, b := node.mapBlockIndex[v[0].hash], node.mapBlockIndex[v[i].hash];
      Key(node, v, prev, i) == SelectionHash(node, first.nHeight >= node.nUpgrade, b, prev)
  {
    assert Names(v[0], node.mapBlockIndex) && Names(v[i], node.mapBlockIndex);
  }

  /** 2^224 and 2^256 */
  const TWO_224 := 0x1_00000000_00000000_00000000_00000000_00000000_00000000_00000000
  const TWO_256 := 0x1_00000000 * TWO_224

  /** A block is selected by the hash of its own hash, and a proof-of-stake block under the old rule by that
      of zero; what a proof-of-stake block is compared with is 2^32 times smaller, so it goes before any
      proof-of-work block whose selection hash is 2^224 or more. */
  lemma StakeIsFavoured(node: Node, fModifierV2: bool, a: BlockIndex, b: BlockIndex, prev: nat)
    requires a.Block? && b.Block? && a.fProofOfStake && !b.fProofOfStake
    ensures SelectionHash(node, fModifierV2, b, prev) == node.hash(b.hash, prev)
    ensures
      var x, y := node.hash(if fModifierV2 then a.hash else 0, prev), SelectionHash(node, fModifierV2, a, prev);
      0x1_0000_0000 * y <= x < 0x1_0000_0000 * (y + 1)
    ensures node.hash(if fModifierV2 then a.hash else 0, prev) < TWO_256 <= 0x1_0000_0000 * node.hash(b.hash, prev) ==>
      SelectionHash(node, fModifierV2, a, prev) < SelectionHash(node, fModifierV2, b, prev)
  {
    var x := node.hash(if fModifierV2 then a.hash else 0, prev);
    var y := node.hash(b.hash, prev);
    if x < TWO_256 <= 0x1_0000_0000 * y { assert x / 0x1_0000_0000 < y; }
  }

  /** But not before every one: whatever its own hash is, it goes first if and only if the other's is at
      least 2^224. */
  lemma FavouredFrom(y: nat)
    ensures (forall x: nat :: x < TWO_256 ==> x / 0x1_0000_0000 < y) <==> y >= TWO_224
  {
    if y < TWO_224 {
      var x := 0x1_0000_0000 * y;
      assert x < TWO_256 && x / 0x1_0000_0000 == y;
    }
  }

  /** Under the old rule all proof-of-stake blocks are equal. */
  lemma OldRuleIgnoresStake(node: Node, a: BlockIndex, b: BlockIndex, prev: nat)
    requires a.Block? && b.Block? && a.fProofOfStake && b.fProofOfStake
    ensures SelectionHash(node, false, a, prev) == SelectionHash(node, false, b, prev)
  {
  }

  /** One of the first n candidates is not selected yet. */
  ghost predicate Open(v: seq<Candidate>, selected: map<nat, BlockIndex>, n: nat)
    requires n <= |v|
  {
    exists i :: 0 <= i < n && v[i].hash !in selected
  }

  /** The search goes past candidate j. */
  ghost predicate Passes(node: Node, v: seq<Candidate>, selected: map<nat, BlockIndex>, stop: int, j: nat)
    requires j < |v| && Mapped(node.mapBlockIndex)
  {
    v[j].hash in node.mapBlockIndex && (Open(v, selected, j) ==> node.mapBlockIndex[v[j].hash].nTime <= stop)
  }

  /** Candidate k is the first with the least key among the unselected ones of the first n. */
  ghost predicate FirstLeast(node: Node, v: seq<Candidate>, selected: map<nat, BlockIndex>, prev: nat, n: nat, k: nat)
    requires k < n <= |v| && Mapped(node.mapBlockIndex)
  {
    && v[k].hash !in selected
    && forall j :: 0 <= j < n && v[j].hash !in selected ==>
      Key(node, v, prev, k) <= Key(node, v, prev, j) && (j < k ==> Key(node, v, prev, k) < Key(node, v, prev, j))
  }

  /** The first candidate from i on that the search does not go past. */
  ghost function ScanEnd(node: Node, v: seq<Candidate>, selected: map<nat, BlockIndex>, stop: int, i: nat): (n: nat)
    requires i <= |v| && Mapped(node.mapBlockIndex)
    ensures i <= n <= |v|
    ensures forall j :: i <= j < n ==> Passes(node, v, selected, stop, j)
    ensures n < |v| ==> !Passes(node, v, selected, stop, n)
    decreases |v| - i
  {
    if i == |v| || !Passes(node, v, selected, stop, i) then i else ScanEnd(node, v, selected, stop, i + 1)
  }

  lemma {:induction false} ScanEndsAt(node: Node, v: seq<Candidate>, selected: map<nat, BlockIndex>, stop: int, i: nat,
                                      n: nat)
    requires i <= n <= |v| && Mapped(node.mapBlockIndex)
    requires forall j :: i <= j < n ==> Passes(node, v, selected, stop, j)
    requires n < |v| ==> !Passes(node, v, selected, stop, n)
    ensures ScanEnd(node, v, selected, stop, i) == n
    decreases n - i
  {
    hide Passes;
    if i < n { ScanEndsAt(node, v, selected, stop, i + 1, n); }
  }

  /** Block b is the first with the least key among the unselected ones of the first n. */
  ghost predicate Finds(node: Node, v: seq<Candidate>, selected: map<nat, BlockIndex>, prev: nat, n: nat, b: BlockIndex)
    requires n <= |v| && Mapped(node.mapBlockIndex)
  {
    exists k: nat :: FindsAt(node, v, selected, prev, n, b, k)
  }

  ghost predicate FindsAt(node: Node, v: seq<Candidate>, selected: map<nat, BlockIndex>, prev: nat, n: nat,
                          b: BlockIndex, k: nat)
    requires n <= |v| && Mapped(node.mapBlockIndex)
  {
    k < n && FirstLeast(node, v, selected, prev, n, k) && v[k].hash in node.mapBlockIndex
      && b == node.mapBlockIndex[v[k].hash]
  }

  method SelectBlockFromCandidates(node: Node, v: seq<Candidate>, mapSelectedBlocks: map<nat, BlockIndex>,
                                   nSelectionIntervalStop: int, nStakeModifierPrev: nat)
    returns (fSelected: bool, pindexSelected: BlockIndex)
    requires Mapped(node.mapBlockIndex)
    ensures
      var n := ScanEnd(node, v, mapSelectedBlocks, nSelectionIntervalStop, 0);
      && (fSelected <==> (n == |v| || v[n].hash in node.mapBlockIndex) && Open(v, mapSelectedBlocks, n))
      && (fSelected ==> Finds(node, v, mapSelectedBlocks, nStakeModifierPrev, n, pindexSelected))
  {
    hide SelectionHash, ScanEnd;
    var m := node.mapBlockIndex;
    ghost var k, n: nat := 0, 0;
    var fModifierV2, fFirstRun := false, true;
    var hashBest := 0;
    fSelected, pindexSelected := false, Null;
    for i := 0 to |v|
      invariant n == i
      invariant fFirstRun <==> i == 0
      invariant i > 0 ==> fModifierV2 == ModifierV2(node, v)
      invariant forall j :: 0 <= j < i ==> Passes(node, v, mapSelectedBlocks, nSelectionIntervalStop, j)
      invariant fSelected <==> Open(v, mapSelectedBlocks, i)
      invariant fSelected ==>
        k < i && FirstLeast(node, v, mapSelectedBlocks, nStakeModifierPrev, i, k)
        && v[k].hash in m && pindexSelected == m[v[k].hash] && hashBest == Key(node, v, nStakeModifierPrev, k)
    {
      if v[i].hash !in m {
        ScanEndsAt(node, v, mapSelectedBlocks, nSelectionIntervalStop, 0, i);
        fSelected := false;
        return;
      }
      var pindex := m[v[i].hash];
      if fSelected && pindex.nTime > nSelectionIntervalStop { break; }
      if fFirstRun {
        fModifierV2 := pindex.nHeight >= node.nUpgrade;
        fFirstRun := false;
      }
      n := i + 1;
      if pindex.hash in mapSelectedBlocks { continue; }
      var hashSelection := SelectionHash(node, fModifierV2, pindex, nStakeModifierPrev);
      assert hashSelection == Key(node, v, nStakeModifierPrev, i);
      if fSelected && hashSelection < hashBest {
        hashBest := hashSelection;
        pindexSelected := pindex;
        k := i;
      } else if !fSelected {
        fSelected := true;
        hashBest := hashSelection;
        pindexSelected := pindex;
        k := i;
      }
    }
    ScanEndsAt(node, v, mapSelectedBlocks, nSelectionIntervalStop, 0, n);
    hide FirstLeast, Passes, Open;
    assert fSelected ==> FindsAt(node, v, mapSelectedBlocks, nStakeModifierPrev, n, pindexSelected, k);
  }

  // ------------------------------------------------------------ the rounds

  /** Candidate k is not among the picks. */
  predicate Free(picks: seq<nat>, k: nat) { k !in picks }

  /** Candidate k is what a round that stops at `stop` must pick: the first with the least key
      among the free candidates up to that time or, when there are none, the first free one. */
  ghost predicate Chosen(node: Node, v: seq<Candidate>, prev: nat, picks: seq<nat>, stop: int, k: nat)
    requires Mapped(node.mapBlockIndex)
  {
    && k < |v| && Free(picks, k)
    && (v[k].time > stop ==> forall j: nat :: j < |v| && Free(picks, j) ==> v[j].time > stop && k <= j)
    && forall j: nat :: j < |v| && Free(picks, j) && v[j].time <= stop ==> Ahead(node, v, prev, k, j)
  }

  predicate Ahead(node: Node, v: seq<Candidate>, prev: nat, k: nat, j: nat)
    requires k < |v| && j < |v| && Mapped(node.mapBlockIndex)
  {
    Key(node, v, prev, k) <= Key(node, v, prev, j) && (j < k ==> Key(node, v, prev, k) < Key(node, v, prev, j))
  }

  lemma ChosenIsUnique(node: Node, v: seq<Candidate>, prev: nat, picks: seq<nat>, stop: int, k: nat, l: nat)
    requires Mapped(node.mapBlockIndex)
    requires Chosen(node, v, prev, picks, stop, k) && Chosen(node, v, prev, picks, stop, l)
    ensures k == l
  {
    hide Key, Free;
    assert v[k].time > stop || Ahead(node, v, prev, l, k);
    assert v[l].time > stop || Ahead(node, v, prev, k, l);
  }

  /** The selected map holds the hashes of the picks. */
  ghost predicate Holds(v: seq<Candidate>, selected: map<nat, BlockIndex>, picks: seq<nat>) {
    forall j: nat :: j < |v| ==> (v[j].hash in selected <==> !Free(picks, j))
  }

  /** What the search finds is what the round must pick. */
  lemma SearchIsChosen(node: Node, v: seq<Candidate>, selected: map<nat, BlockIndex>, picks: seq<nat>, stop: int,
                       prev: nat, n: nat, k: nat)
    requires Mapped(node.mapBlockIndex) && Known(v, node.mapBlockIndex) && Sorted(v) && Holds(v, selected, picks)
    requires k < n <= |v| && FirstLeast(node, v, selected, prev, n, k)
    requires forall j :: 0 <= j < n ==> Passes(node, v, selected, stop, j)
    requires n < |v| ==> !Passes(node, v, selected, stop, n)
    ensures Chosen(node, v, prev, picks, stop, k)
  {
    hide Key, Free;
    forall j: nat | j < |v| && Free(picks, j) && v[j].time <= stop
      ensures v[k].time <= stop && Ahead(node, v, prev, k, j)
    {
      if j >= n { LateAfter(node, v, selected, stop, n, j); }
      EarlyBefore(node, v, selected, stop, n, k, j);
    }
    if v[k].time > stop {
      forall j: nat | j < |v| && Free(picks, j) ensures k <= j {
        if j < k { PassedIn(node, v, selected, stop, j, k); }
      }
    }
  }

  lemma LateAfter(node: Node, v: seq<Candidate>, selected: map<nat, BlockIndex>, stop: int, n: nat, j: nat)
    requires Mapped(node.mapBlockIndex) && Known(v, node.mapBlockIndex) && Sorted(v) && n <= j < |v|
    requires !Passes(node, v, selected, stop, n)
    ensures v[j].time > stop
  {
    assert Names(v[n], node.mapBlockIndex);
    assert n == j || Before(v[n], v[j]);
  }

  lemma EarlyBefore(node: Node, v: seq<Candidate>, selected: map<nat, BlockIndex>, stop: int, n: nat, k: nat, j: nat)
    requires Mapped(node.mapBlockIndex) && Known(v, node.mapBlockIndex) && Sorted(v) && k < n <= |v| && j < n
    requires forall i :: 0 <= i < n ==> Passes(node, v, selected, stop, i)
    requires v[j].hash !in selected && v[j].time <= stop
    ensures v[k].time <= stop
  {
    if j < k { PassedIn(node, v, selected, stop, j, k); }
    if k < j { assert Before(v[k], v[j]); }
  }

  /** Behind an unselected candidate the search only passes those up to the stop time. */
  lemma PassedIn(node: Node, v: seq<Candidate>, selected: map<nat, BlockIndex>, stop: int, j: nat, k: nat)
    requires Mapped(node.mapBlockIndex) && Known(v, node.mapBlockIndex) && j < k < |v|
    requires Passes(node, v, selected, stop, k) && v[j].hash !in selected
    ensures v[k].time <= stop
  {
    assert Open(v, selected, k);
    assert Names(v[k], node.mapBlockIndex);
  }

  // ------------------------------------------------------------ the modifier

  /** The first block from p back that generated a modifier, or Null. */
  function LastGenerated(p: BlockIndex): BlockIndex {
    if p.Null? || p.fGenerated then p else LastGenerated(p.pprev)
  }

  datatype LastModifier = LastModifier(ok: bool, nStakeModifier: nat, nModifierTime: nat)

  method GetLastStakeModifier(p: BlockIndex) returns (r: LastModifier)
    ensures r.ok <==> LastGenerated(p).Block?
    ensures r.ok ==> r.nStakeModifier == LastGenerated(p).nStakeModifier && r.nModifierTime == LastGenerated(p).nTime
  {
    if p.Null? { return LastModifier(false, 0, 0); }
    var pindex := p;
    while pindex.pprev.Block? && !pindex.fGenerated
      invariant pindex.Block? && LastGenerated(pindex) == LastGenerated(p)
      decreases Depth(pindex)
    {
      pindex := pindex.pprev;
    }
    if !pindex.fGenerated { return LastModifier(false, 0, 0); }
    return LastModifier(true, pindex.nStakeModifier, pindex.nTime);
  }

  function IntervalStart(p: BlockIndex): int
    requires p.Block?
  {
    p.nTime / MODIFIER_INTERVAL * MODIFIER_INTERVAL
  }

  function SelectionStart(p: BlockIndex): int
    requires p.Block?
  {
    IntervalStart(p) - Sections(ROUNDS)
  }

  /** The candidates in the order of their times. */
  function Timeline(p: BlockIndex): seq<Candidate>
    requires p.Block?
  {
    Sort(Reversed(Walk(p, SelectionStart(p))))
  }

  lemma TimelineIsSound(p: BlockIndex, m: map<nat, BlockIndex>)
    requires p.Block? && Indexed(p, m)
    ensures Sorted(Timeline(p)) && Distinct(Timeline(p)) && Known(Timeline(p), m)
    ensures forall i, j :: 0 <= i < j < |Timeline(p)| ==>
      var a, b := Timeline(p)[i], Timeline(p)[j];
      a.time < b.time || (a.time == b.time && a.hash < b.hash)
    ensures |Timeline(p)| == |Walk(p, SelectionStart(p))|
    ensures forall c :: c in Timeline(p) <==> c in Walk(p, SelectionStart(p))
  {
    var w := Walk(p, SelectionStart(p));
    WalkIsDistinct(p, SelectionStart(p), m);
    var r := Reversed(w);
    hide Walk, SelectionStart, Sort, Sorted, Names;
    forall i | 0 <= i < |w| ensures w[i] == r[|w| - 1 - i] {}
    SortOrders(r);
    forall c ensures c in Sort(r) <==> c in w { SortHas(r, c); }
    SortHas(r, Candidate(0, 0));
    forall i | 0 <= i < |Sort(r)| ensures Names(Sort(r)[i], m) { assert Sort(r)[i] in w; }
    InOrder(Sort(r));
  }

  lemma InOrder(v: seq<Candidate>)
    requires Sorted(v) && Distinct(v)
    ensures forall i, j :: 0 <= i < j < |v| ==>
      v[i].time < v[j].time || (v[i].time == v[j].time && v[i].hash < v[j].hash)
  {
    forall i, j | 0 <= i < j < |v| ensures v[i].time < v[j].time || (v[i].time == v[j].time && v[i].hash < v[j].hash) {
      assert Before(v[i], v[j]) && v[i].hash != v[j].hash;
    }
  }

  /** The picks are those of min(64, n) rounds over the n candidates, each stopping one section
      later than the one before. */
  ghost predicate Selection(node: Node, p: BlockIndex, prev: nat, picks: seq<nat>)
    requires p.Block? && Mapped(node.mapBlockIndex)
  {
    && |picks| == (if |Timeline(p)| < ROUNDS then |Timeline(p)| else ROUNDS)
    && SelectionSoFar(node, p, Timeline(p), prev, picks)
  }

  ghost predicate SelectionSoFar(node: Node, p: BlockIndex, v: seq<Candidate>, prev: nat, picks: seq<nat>)
    requires p.Block? && Mapped(node.mapBlockIndex) && |picks| <= ROUNDS
  {
    forall r :: 0 <= r < |picks| ==>
      Chosen(node, v, prev, picks[..r], SelectionStart(p) + Sections(r + 1), picks[r])
  }

  /** Bit r is the entropy bit of pick r, and there are no others. */
  ghost predicate EntropyBits(v: seq<Candidate>, picks: seq<nat>, x: nat) {
    x < Pow(2, ROUNDS) && forall r: nat :: Bit(x, r) <==> r < |picks| && picks[r] < |v| && v[picks[r]].hash % 2 == 1
  }

  lemma {:induction false} SelectionIsUnique(node: Node, p: BlockIndex, v: seq<Candidate>, prev: nat, a: seq<nat>,
                                             b: seq<nat>)
    requires p.Block? && Mapped(node.mapBlockIndex) && |a| == |b| <= ROUNDS
    requires SelectionSoFar(node, p, v, prev, a) && SelectionSoFar(node, p, v, prev, b)
    ensures a == b
  {
    hide Chosen, SelectionStart;
    if |a| > 0 {
      var n := |a| - 1;
      forall r | 0 <= r < n ensures a[..n][..r] == a[..r] && b[..n][..r] == b[..r] {}
      SelectionIsUnique(node, p, v, prev, a[..n], b[..n]);
      ChosenIsUnique(node, v, prev, a[..n], SelectionStart(p) + Sections(n + 1), a[n], b[n]);
    }
  }

  lemma {:induction false} BitsDetermine(x: nat, y: nat, k: nat)
    requires x < Pow(2, k) && y < Pow(2, k) && forall i: nat :: Bit(x, i) <==> Bit(y, i)
    ensures x == y
  {
    if k > 0 {
      forall i: nat ensures Bit(x / 2, i) <==> Bit(y / 2, i) {
        assert Bit(x, i + 1) <==> Bit(y, i + 1);
      }
      BitsDetermine(x / 2, y / 2, k - 1);
      assert Bit(x, 0) <==> Bit(y, 0);
    }
  }

  /** Two nodes that follow the rules for the same chain get the same modifier. */
  lemma ModifierIsUnique(node: Node, p: BlockIndex, prev: nat, a: seq<nat>, b: seq<nat>, x: nat, y: nat)
    requires p.Block? && Mapped(node.mapBlockIndex)
    requires Selection(node, p, prev, a) && EntropyBits(Timeline(p), a, x)
    requires Selection(node, p, prev, b) && EntropyBits(Timeline(p), b, y)
    ensures a == b && x == y
  {
    SelectionIsUnique(node, p, Timeline(p), prev, a, b);
    hide Selection, Bit, Pow;
    BitsDetermine(x, y, ROUNDS);
  }

  lemma PicksDiffer(node: Node, p: BlockIndex, v: seq<Candidate>, prev: nat, picks: seq<nat>)
    requires p.Block? && Mapped(node.mapBlockIndex) && |picks| <= ROUNDS && SelectionSoFar(node, p, v, prev, picks)
    ensures forall q, r :: 0 <= q < r < |picks| ==> picks[q] != picks[r] && picks[r] < |v|
    ensures |picks| > 0 ==> picks[0] < |v|
  {
    hide Ahead, SelectionStart, Key;
    forall q, r | 0 <= q < r < |picks| ensures picks[q] != picks[r] && picks[r] < |v| {
      assert Free(picks[..r], picks[r]);
      assert picks[..r][q] == picks[q];
    }
  }

  /** The last round stops where the modifier interval of the previous block begins. */
  lemma LastStop(p: BlockIndex)
    requires p.Block?
    ensures SelectionStart(p) + Sections(ROUNDS) == IntervalStart(p) <= p.nTime
    ensures Walk(p, SelectionStart(p)) != []
  {
    hide Sections;
  }

  /** Fewer picks than candidates leave one free. */
  lemma {:induction false} OneIsFree(picks: seq<nat>, n: nat) returns (k: nat)
    requires |picks| < n
    ensures k < n && Free(picks, k)
  {
    if n - 1 !in picks { return n - 1; }
    var i :| 0 <= i < |picks| && picks[i] == n - 1;
    var rest := picks[..i] + picks[i + 1..];
    k := OneIsFree(rest, n - 1);
  }

  lemma RoundFinds(node: Node, v: seq<Candidate>, selected: map<nat, BlockIndex>, picks: seq<nat>, stop: int, n: nat)
    requires Mapped(node.mapBlockIndex) && Known(v, node.mapBlockIndex) && Holds(v, selected, picks) && |picks| < |v|
    requires n <= |v| && (n < |v| ==> !Passes(node, v, selected, stop, n))
    ensures Open(v, selected, n) && (n == |v| || v[n].hash in node.mapBlockIndex)
  {
    var k := OneIsFree(picks, |v|);
    assert v[k].hash !in selected;
    if n < |v| { assert Names(v[n], node.mapBlockIndex); }
  }

  lemma BitAdded(v: seq<Candidate>, picks: seq<nat>, x: nat, k: nat)
    requires EntropyBits(v, picks, x) && |picks| < ROUNDS && k < |v|
    ensures EntropyBits(v, picks + [k], BitOr(x, v[k].hash % 2 * Pow(2, |picks|)))
  {
    var r := |picks|;
    var y := v[k].hash % 2 * Pow(2, r);
    PowStrict(2, r, ROUNDS);
    OrBound(x, y, ROUNDS);
    hide Pow, BitOr, Bit;
    forall q: nat ensures Bit(BitOr(x, y), q) <==> Bit(x, q) || (q == r && v[k].hash % 2 == 1) {
      BitOfOr(x, y, q);
      BitOfPow(r, q);
      BitOfZero(q);
    }
  }

  lemma HoldsMore(v: seq<Candidate>, selected: map<nat, BlockIndex>, picks: seq<nat>, k: nat, b: BlockIndex)
    requires Holds(v, selected, picks) && Distinct(v) && k < |v|
    ensures Holds(v, selected[v[k].hash := b], picks + [k])
  {
    forall j: nat | j < |v| ensures v[j].hash == v[k].hash <==> j == k {}
  }

  lemma SelectionMore(node: Node, p: BlockIndex, v: seq<Candidate>, prev: nat, picks: seq<nat>, k: nat)
    requires p.Block? && Mapped(node.mapBlockIndex) && |picks| < ROUNDS && SelectionSoFar(node, p, v, prev, picks)
    requires Chosen(node, v, prev, picks, SelectionStart(p) + Sections(|picks| + 1), k)
    ensures SelectionSoFar(node, p, v, prev, picks + [k])
  {
    hide Chosen, SelectionStart, Sections;
    var after := picks + [k];
    forall r | 0 <= r < |after| ensures after[..r] == picks[..r] {}
    assert picks[..|picks|] == picks;
  }

  datatype NextModifier = NextModifier(ok: bool, nStakeModifier: nat, fGenerated: bool)

  /** The first block gets a fixed modifier; a block in the same interval as the last generation
      keeps the last modifier; any other gets a new one, and no round fails. */
  method ComputeNextStakeModifier(node: Node, pindexPrev: BlockIndex) returns (r: NextModifier, ghost picks: seq<nat>)
    requires Mapped(node.mapBlockIndex) && Indexed(pindexPrev, node.mapBlockIndex)
    ensures pindexPrev.Null? ==> r == NextModifier(true, 0, true)
    ensures pindexPrev.Block? && pindexPrev.nHeight == 0 ==> r == NextModifier(true, node.nFirstModifier, true)
    ensures pindexPrev.Block? && pindexPrev.nHeight != 0 ==>
      var last := LastGenerated(pindexPrev);
      if last.Null? then !r.ok && !r.fGenerated
      else if last.nTime / MODIFIER_INTERVAL >= pindexPrev.nTime / MODIFIER_INTERVAL then
        r == NextModifier(true, last.nStakeModifier, false)
      else
        r.ok && r.fGenerated && Selection(node, pindexPrev, last.nStakeModifier, picks)
        && EntropyBits(Timeline(pindexPrev), picks, r.nStakeModifier)
  {
    hide ScanEnd, Sections, Section, Sort, Selection, SelectionSoFar, Chosen, Holds, EntropyBits, Pow, Passes,
      FirstLeast, Open, Known, Sorted, Distinct, Bit;
    picks := [];
    if pindexPrev.Null? { return NextModifier(true, 0, true), picks; }
    if pindexPrev.nHeight == 0 { return NextModifier(true, node.nFirstModifier, true), picks; }
    var last := GetLastStakeModifier(pindexPrev);
    var failed := NextModifier(false, 0, false);
    if !last.ok { return failed, picks; }
    var prev := last.nStakeModifier;
    if last.nModifierTime / MODIFIER_INTERVAL >= pindexPrev.nTime / MODIFIER_INTERVAL {
      return NextModifier(true, prev, false), picks;
    }
    var nSelectionInterval := GetStakeModifierSelectionInterval();
    var nSelectionIntervalStart := pindexPrev.nTime / MODIFIER_INTERVAL * MODIFIER_INTERVAL - nSelectionInterval;
    var v := CollectCandidates(pindexPrev, nSelectionIntervalStart);
    v := Sort(Reversed(v));
    TimelineIsSound(pindexPrev, node.mapBlockIndex);
    var nStakeModifierNew := 0;
    var nSelectionIntervalStop := nSelectionIntervalStart;
    var mapSelectedBlocks: map<nat, BlockIndex> := map[];
    NoRounds(node, pindexPrev, v, prev);
    var nRounds := if ROUNDS < |v| then ROUNDS else |v|;
    for nRound := 0 to nRounds
      invariant |picks| == nRound && SelectionSoFar(node, pindexPrev, v, prev, picks)
      invariant nSelectionIntervalStop == SelectionStart(pindexPrev) + Sections(nRound)
      invariant Holds(v, mapSelectedBlocks, picks)
      invariant EntropyBits(v, picks, nStakeModifierNew)
    {
      NextStop(nRound);
      nSelectionIntervalStop := nSelectionIntervalStop + Section(nRound);
      var fSelected, pindex := SelectBlockFromCandidates(node, v, mapSelectedBlocks, nSelectionIntervalStop, prev);
      ghost var n := ScanEnd(node, v, mapSelectedBlocks, nSelectionIntervalStop, 0);
      RoundFinds(node, v, mapSelectedBlocks, picks, nSelectionIntervalStop, n);
      if !fSelected { return failed, picks; }
      ghost var k: nat :| FindsAt(node, v, mapSelectedBlocks, prev, n, pindex, k);
      SearchIsChosen(node, v, mapSelectedBlocks, picks, nSelectionIntervalStop, prev, n, k);
      assert pindex.hash == v[k].hash;
      BitAdded(v, picks, nStakeModifierNew, k);
      nStakeModifierNew := BitOr(nStakeModifierNew, pindex.hash % 2 * Pow(2, nRound));
      HoldsMore(v, mapSelectedBlocks, picks, k, pindex);
      mapSelectedBlocks := mapSelectedBlocks[pindex.hash := pindex];
      SelectionMore(node, pindexPrev, v, prev, picks, k);
      picks := picks + [k];
    }
    IsSelection(node, pindexPrev, prev, picks);
    return NextModifier(true, nStakeModifierNew, true), picks;
  }

  lemma NextStop(r: nat)
    requires r < ROUNDS
    ensures Sections(r + 1) == Sections(r) + Section(r)
  {
  }

  lemma NoRounds(node: Node, p: BlockIndex, v: seq<Candidate>, prev: nat)
    requires p.Block? && Mapped(node.mapBlockIndex)
    ensures SelectionSoFar(node, p, v, prev, []) && Holds(v, map[], []) && EntropyBits(v, [], 0) && Sections(0) == 0
  {
    PowPositive(2, ROUNDS);
    hide Pow;
    forall r: nat ensures !Bit(0, r) { BitOfZero(r); }
  }

  lemma IsSelection(node: Node, p: BlockIndex, prev: nat, picks: seq<nat>)
    requires p.Block? && Mapped(node.mapBlockIndex)
    requires |picks| == (if |Timeline(p)| < ROUNDS then |Timeline(p)| else ROUNDS)
    requires SelectionSoFar(node, p, Timeline(p), prev, picks)
    ensures Selection(node, p, prev, picks)
  {
    hide Timeline, SelectionSoFar;
  }

  method CollectCandidates(pindexPrev: BlockIndex, nSelectionIntervalStart: int) returns (v: seq<Candidate>)
    ensures v == Walk(pindexPrev, nSelectionIntervalStart)
  {
    v := [];
    var pindex := pindexPrev;
    while pindex.Block? && pindex.nTime >= nSelectionIntervalStart
      invariant Walk(pindexPrev, nSelectionIntervalStart) == v + Walk(pindex, nSelectionIntervalStart)
      decreases Depth(pindex)
    {
      v := v + [Candidate(pindex.nTime, pindex.hash)];
      pindex := pindex.pprev;
    }
  }

  // ------------------------------------------------------------ the modifier of a kernel

  /** chainActive[nHeight] */
  function At(vChain: seq<BlockIndex>, nHeight: int): BlockIndex {
    if 0 <= nHeight < |vChain| then vChain[nHeight] else Null
  }

  predicate ByHeight(vChain: seq<BlockIndex>) {
    forall h :: 0 <= h < |vChain| ==> vChain[h].Block? && vChain[h].nHeight == h
  }

  /** A block that generated a modifier at least a selection interval after `from`. */
  predicate LateEnough(b: BlockIndex, from: BlockIndex)
    requires from.Block?
  {
    b.Block? && b.fGenerated && b.nTime >= from.nTime + Sections(ROUNDS)
  }

  datatype KernelModifier = KernelModifier(ok: bool, nStakeModifier: nat, nStakeModifierHeight: nat,
                                           nStakeModifierTime: nat)

  /** The modifier is that of the first block of the active chain above the kernel's that was
      generated a selection interval or more after it; without one the call fails. */
  method GetKernelStakeModifier(node: Node, vChain: seq<BlockIndex>, hashBlockFrom: nat) returns (r: KernelModifier)
    requires Mapped(node.mapBlockIndex) && ByHeight(vChain)
    ensures hashBlockFrom !in node.mapBlockIndex ==> !r.ok
    ensures hashBlockFrom in node.mapBlockIndex ==>
      var from := node.mapBlockIndex[hashBlockFrom];
      (r.ok <==> exists h :: from.nHeight < h < |vChain| && LateEnough(vChain[h], from))
    ensures r.ok ==>
      var from, h := node.mapBlockIndex[hashBlockFrom], r.nStakeModifierHeight;
      && from.nHeight < h < |vChain| && LateEnough(vChain[h], from)
      && r.nStakeModifier == vChain[h].nStakeModifier && r.nStakeModifierTime == vChain[h].nTime
      && forall g :: from.nHeight < g < h ==> !LateEnough(vChain[g], from)
    ensures r.ok ==>
      var b := vChain[r.nStakeModifierHeight];
      b.fGenerated && b.nTime >= node.mapBlockIndex[hashBlockFrom].nTime + Sections(ROUNDS)
    ensures hashBlockFrom in node.mapBlockIndex ==>
      var from := node.mapBlockIndex[hashBlockFrom];
      forall g :: from.nHeight < g < (if r.ok then r.nStakeModifierHeight else |vChain|) && vChain[g].fGenerated ==>
        vChain[g].nTime < from.nTime + Sections(ROUNDS)
  {
    hide Sections, Section;
    if hashBlockFrom !in node.mapBlockIndex { return KernelModifier(false, 0, 0, 0); }
    var pindexFrom := node.mapBlockIndex[hashBlockFrom];
    var nStakeModifierHeight: nat, nStakeModifierTime: nat := pindexFrom.nHeight, pindexFrom.nTime;
    var nInterval := GetStakeModifierSelectionInterval();
    var pindex := pindexFrom;
    var pindexNext := At(vChain, pindexFrom.nHeight + 1);
    ghost var from := pindexFrom;
    while nStakeModifierTime < pindexFrom.nTime + nInterval
      invariant pindex.Block? && pindex.nHeight >= from.nHeight && pindexNext == At(vChain, pindex.nHeight + 1)
      invariant pindex == from || (from.nHeight < pindex.nHeight < |vChain| && pindex == vChain[pindex.nHeight])
      invariant pindex == from ==> nStakeModifierTime == from.nTime
      invariant forall g :: from.nHeight < g < pindex.nHeight ==> !LateEnough(vChain[g], from)
      invariant nStakeModifierTime >= from.nTime + nInterval ==>
        pindex != from && nStakeModifierHeight == pindex.nHeight && nStakeModifierTime == pindex.nTime
          && LateEnough(pindex, from)
      invariant nStakeModifierTime < from.nTime + nInterval && pindex != from ==> !LateEnough(pindex, from)
      decreases |vChain| - pindex.nHeight
    {
      if pindexNext.Null? { return KernelModifier(false, 0, nStakeModifierHeight, nStakeModifierTime); }
      pindex := pindexNext;
      pindexNext := At(vChain, pindexNext.nHeight + 1);
      if pindex.fGenerated {
        nStakeModifierHeight := pindex.nHeight;
        nStakeModifierTime := pindex.nTime;
      }
    }
    return KernelModifier(true, pindex.nStakeModifier, nStakeModifierHeight, nStakeModifierTime);
  }

  // ------------------------------------------------------------ which rule is in force

  /** The rule as the comment has it: the lowest candidate is high enough, and so all are. */
  predicate LowestIsUpgraded(node: Node, v: seq<Candidate>)
    requires Known(v, node.mapBlockIndex)
  {
    v != [] && forall i :: 0 <= i < |v| ==> Upgraded(node, v[i])
  }

  predicate Upgraded(node: Node, c: Candidate)
    requires Names(c, node.mapBlockIndex)
  {
    node.mapBlockIndex[c.hash].nHeight >= node.nUpgrade
  }

  /** The two rules differ if and only if the earliest candidate is high enough and some candidate
      is not. */
  lemma RulesDiffer(node: Node, v: seq<Candidate>)
    requires Known(v, node.mapBlockIndex)
    ensures (ModifierV2(node, v) <==> LowestIsUpgraded(node, v)) <==>
      !(v != [] && Upgraded(node, v[0]) && exists i :: 0 <= i < |v| && !Upgraded(node, v[i]))
  {
    if v != [] { assert Names(v[0], node.mapBlockIndex); }
  }

  /** Heights count the parents, and every block is later than its parent. */
  predicate Rising(p: BlockIndex) {
    p.Null? || p.pprev.Null? || (p.nHeight == p.pprev.nHeight + 1 && p.pprev.nTime < p.nTime && Rising(p.pprev))
  }

  /** The last of a walk is the earliest and the lowest. */
  lemma {:induction false} WalkRises(p: BlockIndex, start: int, m: map<nat, BlockIndex>, i: nat)
    requires Indexed(p, m) && Rising(p) && i < |Walk(p, start)|
    ensures Names(Walk(p, start)[i], m)
    ensures
      var w := Walk(p, start);
      var last := w[|w| - 1];
      && Names(last, m) && m[last.hash].nHeight <= m[w[i].hash].nHeight && last.time <= w[i].time
      && (last.time == w[i].time ==> i == |w| - 1)
    decreases p
  {
    WalkDepths(p, start, m, i);
    var w := Walk(p, start);
    if |w| > 1 {
      assert w[1..] == Walk(p.pprev, start);
      WalkRises(p.pprev, start, m, if i > 0 then i - 1 else 0);
      assert Names(w[1], m) && m[w[1].hash] == p.pprev by { WalkDepths(p, start, m, 1); }
    }
  }

  /** Where times rise with heights, the rules agree. */
  lemma RisingAgrees(node: Node, p: BlockIndex)
    requires p.Block? && Indexed(p, node.mapBlockIndex) && Rising(p)
    ensures Known(Timeline(p), node.mapBlockIndex)
    ensures ModifierV2(node, Timeline(p)) <==> LowestIsUpgraded(node, Timeline(p))
  {
    var m := node.mapBlockIndex;
    var w, v := Walk(p, SelectionStart(p)), Timeline(p);
    TimelineIsSound(p, m);
    LastStop(p);
    hide Walk, Timeline, SelectionStart, Indexed, Rising;
    assert v != [];
    assert v[0] in w;
    var last := w[|w| - 1];
    assert last in v;
    FirstIsLast(p, SelectionStart(p), m, v);
    forall c | c in v && Upgraded(node, v[0]) ensures Names(c, m) && Upgraded(node, c) {
      var i :| 0 <= i < |w| && w[i] == c;
      WalkRises(p, SelectionStart(p), m, i);
    }
  }

  lemma FirstIsLast(p: BlockIndex, start: int, m: map<nat, BlockIndex>, v: seq<Candidate>)
    requires Indexed(p, m) && Rising(p) && v != [] && Sorted(v) && Walk(p, start) != []
    requires forall c :: c in v <==> c in Walk(p, start)
    ensures v[0] == Walk(p, start)[|Walk(p, start)| - 1]
  {
    var w := Walk(p, start);
    hide Walk, Indexed, Rising;
    var last := w[|w| - 1];
    assert last in v && v[0] in w;
    var i :| 0 <= i < |w| && w[i] == v[0];
    WalkRises(p, start, m, i);
    var j :| 0 <= j < |v| && v[j] == last;
    assert j == 0 || Before(v[0], v[j]);
  }

  // ------------------------------------------------------------ a chain on which the rules differ

  /** How many of the first n blocks from p back are earlier than t, and how many there are. */
  function Earlier(p: BlockIndex, n: nat, t: nat): nat {
    if p.Null? || n == 0 then 0 else (if p.nTime < t then 1 else 0) + Earlier(p.pprev, n - 1, t)
  }

  function Span(p: BlockIndex, n: nat): nat { if p.Null? || n == 0 then 0 else 1 + Span(p.pprev, n - 1) }

  /** Every block is later than the median of the eleven before it. */
  predicate AfterMedians(p: BlockIndex) {
    p.Null? || ((p.pprev.Null? || 2 * Earlier(p.pprev, 11, p.nTime) > Span(p.pprev, 11)) && AfterMedians(p.pprev))
  }

  function BlockAt(hash: nat, nTime: nat, nHeight: nat, pprev: BlockIndex): BlockIndex {
    Block(hash, nTime, nHeight, false, true, 0, pprev)
  }

  /** Five blocks, of which the fourth is earlier than the third; x is where the selection starts. */
  function Dip(x: nat, tip: nat): BlockIndex
    requires x >= 10
  {
    BlockAt(4, tip, 4, BlockAt(3, x, 3, BlockAt(2, x + 5, 2, BlockAt(1, x - 5, 1, BlockAt(0, x - 10, 0, Null)))))
  }

  function DipNode(p: BlockIndex): Node
    requires p.Block? && p.pprev.Block? && p.pprev.pprev.Block? && p.pprev.pprev.pprev.Block?
    requires p.pprev.pprev.pprev.pprev.Block?
  {
    var p3 := p.pprev;
    var p2 := p3.pprev;
    var p1 := p2.pprev;
    Node(map[0 := p1.pprev, 1 := p1, 2 := p2, 3 := p3, 4 := p], (a, b) => 0, 3, 0)
  }

  /** On a chain that keeps to the rule of the median, the earliest candidate need not be the lowest:
      the code takes the new rule, although a candidate is below the switch. */
  lemma LowestNeedNotBeFirst() returns (node: Node, p: BlockIndex)
    ensures p.Block? && Mapped(node.mapBlockIndex) && Indexed(p, node.mapBlockIndex) && AfterMedians(p)
    ensures Known(Timeline(p), node.mapBlockIndex)
    ensures ModifierV2(node, Timeline(p)) && !LowestIsUpgraded(node, Timeline(p))
  {
    var sections := Sections(ROUNDS);
    var tip, x := 60 * (sections + 1), 59 * sections + 60;
    p := Dip(x, tip);
    node := DipNode(p);
    DipStart(x, tip);
    DipIsChain(x, tip);
    DipWalk(x, tip);
    TimelineIsSound(p, node.mapBlockIndex);
    LastStop(p);
    var v := Timeline(p);
    hide Timeline, Dip, DipNode, Sections, SelectionStart, Walk, Indexed, AfterMedians;
    DipFirst(x, tip, v);
    assert Candidate(x + 5, 2) in v;
  }

  lemma DipStart(x: nat, tip: nat)
    requires x == 59 * Sections(ROUNDS) + 60 && tip == 60 * (Sections(ROUNDS) + 1)
    ensures SelectionStart(Dip(x, tip)) == x && Dip(x, tip).Block? && x >= 10 && tip > x + 5
  {
    hide Sections;
  }

  lemma CountStep(p: BlockIndex, n: nat, t: nat)
    requires p.Block? && n > 0
    ensures Earlier(p, n, t) == (if p.nTime < t then 1 else 0) + Earlier(p.pprev, n - 1, t)
    ensures Span(p, n) == 1 + Span(p.pprev, n - 1)
  {
  }

  lemma DipIsChain(x: nat, tip: nat)
    requires x >= 10 && tip > x + 5
    ensures
      var p := Dip(x, tip);
      Mapped(DipNode(p).mapBlockIndex) && Indexed(p, DipNode(p).mapBlockIndex) && AfterMedians(p)
  {
    var p := Dip(x, tip);
    var p3 := p.pprev;
    var p2 := p3.pprev;
    var p1 := p2.pprev;
    var p0 := p1.pprev;
    var m := DipNode(p).mapBlockIndex;
    assert Indexed(p0, m) && Indexed(p1, m);
    assert Indexed(p3, m);
    assert Earlier(Null, 7, tip) == Earlier(Null, 8, x) == Earlier(Null, 9, x + 5) == Earlier(Null, 10, x - 5) == 0;
    assert Span(Null, 7) == Span(Null, 8) == Span(Null, 9) == Span(Null, 10) == 0;
    CountStep(p0, 11, x - 5);
    CountStep(p1, 11, x + 5);
    CountStep(p0, 10, x + 5);
    CountStep(p2, 11, x);
    CountStep(p1, 10, x);
    CountStep(p0, 9, x);
    CountStep(p3, 11, tip);
    CountStep(p2, 10, tip);
    CountStep(p1, 9, tip);
    CountStep(p0, 8, tip);
    hide Earlier, Span;
    assert AfterMedians(p0) && AfterMedians(p1);
    assert AfterMedians(p3);
  }

  lemma DipWalk(x: nat, tip: nat)
    requires x >= 10 && tip > x + 5
    ensures Walk(Dip(x, tip), x) == [Candidate(tip, 4), Candidate(x, 3), Candidate(x + 5, 2)]
  {
    var p := Dip(x, tip);
    assert Walk(p.pprev.pprev.pprev, x) == [];
    assert Walk(p.pprev.pprev, x) == [Candidate(x + 5, 2)];
    assert Walk(p.pprev, x) == [Candidate(x, 3), Candidate(x + 5, 2)];
  }

  lemma DipFirst(x: nat, tip: nat, v: seq<Candidate>)
    requires x >= 10 && tip > x + 5 && Sorted(v) && v != []
    requires forall c :: c in v <==> c in [Candidate(tip, 4), Candidate(x, 3), Candidate(x + 5, 2)]
    ensures v[0] == Candidate(x, 3)
    ensures DipNode(Dip(x, tip)).mapBlockIndex[3].nHeight == 3 && DipNode(Dip(x, tip)).mapBlockIndex[2].nHeight == 2
    ensures DipNode(Dip(x, tip)).nUpgrade == 3
  {
    assert Candidate(x, 3) in v && v[0] in v;
    var j :| 0 <= j < |v| && v[j] == Candidate(x, 3);
    assert j == 0 || Before(v[0], v[j]);
  }
}
