/**
 Block assembly: the transactions of the memory pool are ranked, those that spend outputs of
 others in the pool wait for them, and the best that fit are put in the block.
 */
module Miner {
  import opened Common
  import opened Coins
  import opened BlockView

  /** What a node knows and is told: the pool, the chain, the limits, the ranks, and the checks
      that are not modelled here. */
  datatype Setup = Setup(
    pool: map<Txid, Tx>,
    chain: View,
    nHeight: int,
    nMaxSizeArg: nat,
    nPrioritySizeArg: nat,
    nMinSizeArg: nat,
    priority: Txid -> real,
    feeRate: Txid -> int,
    priorityDelta: Txid -> real,
    feeDelta: Txid -> int,
    minRelayFee: int,
    allowFree: real -> bool,
    p2shSigOps: (Tx, View) -> nat,
    checkInputs: (Tx, View) -> bool,
    unspendable: seq<Byte> -> bool)
  {
    /** Every transaction is filed under its hash and spends no output twice; and where an input is
        neither in the chain nor in the pool, none before the first such is from the pool, because
        that would leave a waiting list with an entry that is gone. */
    ghost predicate Valid() {
      && (forall k :: k in pool ==> pool[k].hash == k && DistinctInputs(pool[k]))
      && (forall k, i :: Ranked(k) && 0 <= i < |pool[k].vin| && Missing(k, i) ==> MissingFirst(k, i))
    }

    predicate Ranked(k: Txid) { k in pool && !pool[k].fCoinBase && !pool[k].fCoinStake && pool[k].fFinal }

    predicate Missing(k: Txid, i: nat)
      requires k in pool && i < |pool[k].vin|
    {
      !HaveCoins(chain, pool[k].vin[i].hash) && pool[k].vin[i].hash !in pool
    }

    /** The first input up to i that is missing comes after inputs from the chain only. */
    ghost predicate MissingFirst(k: Txid, i: nat)
      requires k in pool && i < |pool[k].vin|
    {
      exists j :: 0 <= j <= i && Missing(k, j) && forall l :: 0 <= l < j ==> HaveCoins(chain, pool[k].vin[l].hash)
    }

    /** A transaction that is ranked, with no input missing. */
    ghost predicate Eligible(k: Txid) { Ranked(k) && forall i :: 0 <= i < |pool[k].vin| ==> !Missing(k, i) }

    /** The transactions that k waits for. */
    function DependsOn(k: Txid): set<Txid>
      requires k in pool
    {
      set i | 0 <= i < |pool[k].vin| && !HaveCoins(chain, pool[k].vin[i].hash) :: pool[k].vin[i].hash
    }

    function MaxSize(): nat {
      var m := if nMaxSizeArg < 999000 then nMaxSizeArg else 999000;
      if m < 1000 then 1000 else m
    }

    function PrioritySize(): nat { if nPrioritySizeArg < MaxSize() then nPrioritySizeArg else MaxSize() }

    function MinSize(): nat { if nMinSizeArg < MaxSize() then nMinSizeArg else MaxSize() }
  }

  /** A block has room for its header at least and stays a thousand bytes below the protocol's limit; in
      between it is as big as configured, and neither of the other sizes is bigger. */
  lemma SizeLimits(s: Setup)
    ensures 1000 <= s.MaxSize() <= 1000000 - 1000 && s.PrioritySize() <= s.MaxSize() && s.MinSize() <= s.MaxSize()
    ensures 1000 <= s.nMaxSizeArg <= 999000 ==> s.MaxSize() == s.nMaxSizeArg
    ensures s.nMaxSizeArg < 1000 ==> s.MaxSize() == 1000
    ensures s.nMaxSizeArg > 999000 ==> s.MaxSize() == 999000
    ensures s.nPrioritySizeArg <= s.MaxSize() ==> s.PrioritySize() == s.nPrioritySizeArg
    ensures s.nMinSizeArg <= s.MaxSize() ==> s.MinSize() == s.nMinSizeArg
    ensures s.nPrioritySizeArg > s.MaxSize() ==> s.PrioritySize() == s.MaxSize()
    ensures s.nMinSizeArg > s.MaxSize() ==> s.MinSize() == s.MaxSize()
  {
  }

  const MAX_BLOCK_SIGOPS: nat := 20000

  datatype Candidate = Candidate(dPriority: real, feeRate: int, tx: Tx)

  datatype Orphan = Orphan(tx: Tx, setDependsOn: set<Txid>, feeRate: int, dPriority: real)

  datatype Work = Work(
    queue: seq<Candidate>,
    orphans: map<Txid, Orphan>,
    dependers: map<Txid, seq<Txid>>,
    view: View,
    vtx: seq<Tx>,
    fees: seq<int>,
    sigOps: seq<nat>,
    nBlockSize: nat,
    nBlockSigOps: nat,
    nFees: int,
    byFee: bool)

  // ------------------------------------------------------------ the priority queue

  predicate Less(byFee: bool, a: Candidate, b: Candidate) {
    if byFee then (if a.feeRate == b.feeRate then a.dPriority < b.dPriority else a.feeRate < b.feeRate)
    else (if a.dPriority == b.dPriority then a.feeRate < b.feeRate else a.dPriority < b.dPriority)
  }

  function Without<T>(s: seq<T>, k: nat): seq<T>
    requires k < |s|
  {
    s[..k] + s[k + 1..]
  }

  /** pop_heap and pop_back: nothing left in the queue goes before what was taken. */
  method TakeHighest(queue: seq<Candidate>, byFee: bool) returns (top: Candidate, rest: seq<Candidate>, ghost k: nat)
    requires queue != []
    ensures k < |queue| && top == queue[k] && rest == Without(queue, k)
    ensures forall i :: 0 <= i < |queue| ==> !Less(byFee, top, queue[i])
  {
    var best := 0;
    for i := 1 to |queue|
      invariant best < i
      invariant forall j :: 0 <= j < i ==> !Less(byFee, queue[best], queue[j])
    {
      if Less(byFee, queue[best], queue[i]) {
        best := i;
      }
    }
    top, rest, k := queue[best], Without(queue, best), best;
  }

  // ------------------------------------------------------------ the invariant

  ghost predicate DistinctIds(queue: seq<Candidate>) {
    forall i, j :: 0 <= i < j < |queue| ==> queue[i].tx.hash != queue[j].tx.hash
  }

  ghost function Ids(queue: seq<Candidate>): set<Txid> { set i | 0 <= i < |queue| :: queue[i].tx.hash }

  ghost function Hashes(txs: seq<Tx>): set<Txid> { set i | 0 <= i < |txs| :: txs[i].hash }

  ghost function Waiting(orphans: map<Txid, Orphan>): set<Txid> {
    set k | k in orphans && orphans[k].setDependsOn != {}
  }

  /** Every eligible transaction is done with, queued or waiting, and only one of these. */
  ghost predicate Partition(s: Setup, queue: seq<Candidate>, waiting: set<Txid>, done: set<Txid>) {
    && DistinctIds(queue)
    && (forall k :: s.Eligible(k) <==> k in done || k in Ids(queue) || k in waiting)
    && (forall k :: k in Ids(queue) ==> k !in done && k !in waiting)
    && (forall k :: k in waiting ==> k !in done)
  }

  ghost predicate HasDependers(dependers: map<Txid, seq<Txid>>, h: Txid, k: Txid) {
    h in dependers && k in dependers[h]
  }

  ghost predicate IsOrphan(s: Setup, k: Txid) { s.Eligible(k) && s.DependsOn(k) != {} }

  ghost predicate Filed(s: Setup, orphans: map<Txid, Orphan>, dependers: map<Txid, seq<Txid>>) {
    && (forall k :: k in orphans <==> IsOrphan(s, k))
    && (forall h, k :: HasDependers(dependers, h, k) <==> IsOrphan(s, k) && h in s.DependsOn(k))
  }

  /** An orphan waits for exactly those it depends on that have not been chosen, with its rank. */
  ghost predicate WaitFor(s: Setup, orphans: map<Txid, Orphan>, chosen: set<Txid>) {
    forall k :: k in orphans && k in s.pool ==>
      && orphans[k].tx == s.pool[k] && orphans[k].setDependsOn == s.DependsOn(k) - chosen
      && orphans[k].dPriority == s.priority(k) && orphans[k].feeRate == s.feeRate(k)
  }

  /** What is queued waits for none, and is queued with the rank of its transaction. */
  ghost predicate QueueOk(s: Setup, queue: seq<Candidate>, chosen: set<Txid>) {
    forall i :: 0 <= i < |queue| ==>
      var k := queue[i].tx.hash;
      && s.Eligible(k) && queue[i].tx == s.pool[k] && s.DependsOn(k) <= chosen
      && queue[i].dPriority == s.priority(k) && queue[i].feeRate == s.feeRate(k)
  }

  /** Each transaction of the block once, from the pool, after those it depends on, with its
      inputs in the view that those before it leave. */
  ghost predicate BlockOk(s: Setup, w: Work) {
    && DistinctTxs(w.vtx)
    && (forall i :: 0 <= i < |w.vtx| ==>
          s.Eligible(w.vtx[i].hash) && w.vtx[i] == s.pool[w.vtx[i].hash]
            && s.DependsOn(w.vtx[i].hash) <= Hashes(w.vtx[..i]))
    && Applies(s.chain, w.vtx, s.nHeight, s.unspendable)
    && w.view == ViewAfter(s.chain, w.vtx, s.nHeight, s.unspendable)
  }

  function Sum(s: seq<int>): int { if s == [] then 0 else Sum(s[..|s| - 1]) + s[|s| - 1] }

  ghost function Sizes(txs: seq<Tx>): seq<int> { seq(|txs|, i requires 0 <= i < |txs| => txs[i].nSize) }

  function ValueOut(vout: seq<TxOut>): int {
    if vout == [] then 0 else ValueOut(vout[..|vout| - 1]) + vout[|vout| - 1].nValue
  }

  /** GetValueIn */
  function ValueIn(view: View, vin: seq<OutPoint>): int
    requires forall i :: 0 <= i < |vin| ==> Available(view, vin[i])
  {
    if vin == [] then 0
    else
      var o := vin[|vin| - 1];
      assert Available(view, o);
      ValueIn(view, vin[..|vin| - 1]) + view[o.hash].vout[o.n].nValue
  }

  /** What is recorded of transaction i: its fee is what its inputs are worth where they are spent, less its
      outputs; its signature operations are its own and those of the scripts it spends there. There its
      inputs have been checked. */
  ghost predicate AccountIs(s: Setup, txs: seq<Tx>, i: nat, fee: int, nSigOps: nat)
    requires i < |txs| && Applies(s.chain, txs, s.nHeight, s.unspendable)
  {
    PrefixApplies(s.chain, txs, s.nHeight, s.unspendable, i + 1);
    assert txs[..i + 1][..i] == txs[..i];
    var view := ViewAfter(s.chain, txs[..i], s.nHeight, s.unspendable);
    && fee == ValueIn(view, txs[i].vin) - ValueOut(txs[i].vout)
    && nSigOps == txs[i].nSigOps + s.p2shSigOps(txs[i], view)
    && s.checkInputs(txs[i], view)
  }

  /** The signature operations of a block: a hundred set aside and those of each transaction where it stands. */
  ghost function BlockSigOps(s: Setup, txs: seq<Tx>): nat
    requires Applies(s.chain, txs, s.nHeight, s.unspendable)
  {
    if txs == [] then 100
    else
      var n := |txs| - 1;
      PrefixApplies(s.chain, txs, s.nHeight, s.unspendable, n);
      BlockSigOps(s, txs[..n]) + txs[n].nSigOps
      + s.p2shSigOps(txs[n], ViewAfter(s.chain, txs[..n], s.nHeight, s.unspendable))
  }

  ghost predicate TotalsOk(s: Setup, w: Work)
    requires Applies(s.chain, w.vtx, s.nHeight, s.unspendable)
  {
    && |w.fees| == |w.vtx| == |w.sigOps|
    && (forall i :: 0 <= i < |w.vtx| ==> AccountIs(s, w.vtx, i, w.fees[i], w.sigOps[i]))
    && w.nFees == Sum(w.fees)
    && w.nBlockSize == 1000 + Sum(Sizes(w.vtx)) && (w.vtx != [] ==> w.nBlockSize < s.MaxSize())
    && w.nBlockSigOps == 100 + Sum(w.sigOps) == BlockSigOps(s, w.vtx) < MAX_BLOCK_SIGOPS
  }

  ghost predicate Inv(s: Setup, w: Work, done: set<Txid>) {
    && Partition(s, w.queue, Waiting(w.orphans), done)
    && Filed(s, w.orphans, w.dependers) && WaitFor(s, w.orphans, Hashes(w.vtx))
    && QueueOk(s, w.queue, Hashes(w.vtx))
    && BlockOk(s, w) && TotalsOk(s, w)
    && Hashes(w.vtx) <= done
  }

  // ------------------------------------------------------------ taking from the queue

  lemma WithoutIds(q: seq<Candidate>, k: nat)
    requires k < |q| && DistinctIds(q)
    ensures DistinctIds(Without(q, k))
    ensures forall h :: h in Ids(Without(q, k)) <==> h in Ids(q) && h != q[k].tx.hash
  {
    var r := Without(q, k);
    assert forall i :: 0 <= i < |r| ==> r[i] == q[if i < k then i else i + 1];
    forall h ensures h in Ids(r) <==> h in Ids(q) && h != q[k].tx.hash {
      if h in Ids(r) {
        var i :| 0 <= i < |r| && r[i].tx.hash == h;
        assert q[if i < k then i else i + 1].tx.hash == h;
      }
      if h in Ids(q) && h != q[k].tx.hash {
        var i :| 0 <= i < |q| && q[i].tx.hash == h;
        assert r[if i < k then i else i - 1].tx.hash == h;
      }
    }
  }

  lemma PopPartition(s: Setup, queue: seq<Candidate>, waiting: set<Txid>, done: set<Txid>, k: nat)
    requires Partition(s, queue, waiting, done) && k < |queue|
    ensures Partition(s, Without(queue, k), waiting, done + {queue[k].tx.hash})
    ensures queue[k].tx.hash !in done
  {
    assert queue[k].tx.hash in Ids(queue);
    WithoutIds(queue, k);
    hide Ids, DistinctIds, Without;
  }

  lemma PopQueue(s: Setup, queue: seq<Candidate>, chosen: set<Txid>, k: nat)
    requires QueueOk(s, queue, chosen) && k < |queue|
    ensures QueueOk(s, Without(queue, k), chosen)
  {
    var r := Without(queue, k);
    assert forall i :: 0 <= i < |r| ==> r[i] == queue[if i < k then i else i + 1];
  }

  /** Taking a candidate off the queue: it is new, and all it depends on is in the block. */
  lemma PopInv(s: Setup, w: Work, done: set<Txid>, k: nat)
    requires Inv(s, w, done) && k < |w.queue|
    ensures
      var h := w.queue[k].tx.hash;
      && Inv(s, w.(queue := Without(w.queue, k)), done + {h})
      && s.Eligible(h) && w.queue[k].tx == s.pool[h] && s.DependsOn(h) <= Hashes(w.vtx) && h !in Hashes(w.vtx)
      && w.queue[k].dPriority == s.priority(h) && w.queue[k].feeRate == s.feeRate(h)
  {
    PopPartition(s, w.queue, Waiting(w.orphans), done, k);
    PopQueue(s, w.queue, Hashes(w.vtx), k);
    hide Hashes, Applies, ViewAfter, Sum, Waiting, Partition, Filed, WaitFor, AccountIs, BlockSigOps, Without;
  }

  // ------------------------------------------------------------ putting a transaction in the block

  function Include(s: Setup, w: Work, tx: Tx, fee: int, nSigOps: nat): Work
    requires HaveInputs(w.view, tx) && !tx.fCoinBase && forall i, j :: 0 <= i < j < |tx.vin| ==> tx.vin[i] != tx.vin[j]
  {
    w.(view := UpdateCoins(w.view, tx, s.nHeight, s.unspendable),
       vtx := w.vtx + [tx],
       fees := w.fees + [fee],
       sigOps := w.sigOps + [nSigOps],
       nBlockSize := w.nBlockSize + tx.nSize,
       nBlockSigOps := w.nBlockSigOps + nSigOps,
       nFees := w.nFees + fee)
  }

  lemma HashesAppend(txs: seq<Tx>, tx: Tx)
    ensures forall h :: h in Hashes(txs + [tx]) <==> h in Hashes(txs) || h == tx.hash
  {
    var t := txs + [tx];
    forall h ensures h in Hashes(t) <==> h in Hashes(txs) || h == tx.hash {
      if h in Hashes(txs) {
        var i :| 0 <= i < |txs| && txs[i].hash == h;
        assert t[i].hash == h;
      }
      assert t[|txs|] == tx;
    }
  }

  lemma SumAppend(s: seq<int>, x: int)
    ensures Sum(s + [x]) == Sum(s) + x
  {
    assert (s + [x])[..|s|] == s;
  }

  lemma IncludeBlock(s: Setup, w: Work, tx: Tx, fee: int, nSigOps: nat)
    requires BlockOk(s, w) && s.Eligible(tx.hash) && tx == s.pool[tx.hash] && tx.hash !in Hashes(w.vtx)
    requires s.DependsOn(tx.hash) <= Hashes(w.vtx) && HaveInputs(w.view, tx) && DistinctInputs(tx)
    ensures BlockOk(s, Include(s, w, tx, fee, nSigOps))
  {
    hide UpdateCoins, HaveInputs, Hashes;
    var u := Include(s, w, tx, fee, nSigOps);
    var n := |w.vtx|;
    assert u.vtx[..n] == w.vtx;
    forall i | 0 <= i < n ensures w.vtx[i].hash != tx.hash { HashIn(w.vtx, i); }
    forall i | 0 <= i < |u.vtx|
      ensures s.Eligible(u.vtx[i].hash) && u.vtx[i] == s.pool[u.vtx[i].hash]
      ensures s.DependsOn(u.vtx[i].hash) <= Hashes(u.vtx[..i])
    {
      if i < n { assert u.vtx[..i] == w.vtx[..i]; }
    }
  }

  lemma HashIn(txs: seq<Tx>, i: nat)
    requires i < |txs|
    ensures txs[i].hash in Hashes(txs)
  {
  }

  lemma AccountKept(s: Setup, txs: seq<Tx>, tx: Tx, i: nat, fee: int, nSigOps: nat)
    requires i < |txs| && Applies(s.chain, txs, s.nHeight, s.unspendable)
    requires Applies(s.chain, txs + [tx], s.nHeight, s.unspendable)
    ensures AccountIs(s, txs + [tx], i, fee, nSigOps) <==> AccountIs(s, txs, i, fee, nSigOps)
  {
    hide ViewAfter, ValueIn, ValueOut, Applies, Available;
    assert (txs + [tx])[..i] == txs[..i] && (txs + [tx])[i] == txs[i];
  }

  lemma IncludeTotals(s: Setup, w: Work, tx: Tx, fee: int, nSigOps: nat)
    requires BlockOk(s, w) && TotalsOk(s, w) && HaveInputs(w.view, tx) && DistinctInputs(tx) && !tx.fCoinBase
    requires BlockOk(s, Include(s, w, tx, fee, nSigOps))
    requires forall i :: 0 <= i < |tx.vin| ==> Available(w.view, tx.vin[i])
    requires fee == ValueIn(w.view, tx.vin) - ValueOut(tx.vout)
    requires nSigOps == tx.nSigOps + s.p2shSigOps(tx, w.view) && s.checkInputs(tx, w.view)
    requires w.nBlockSize + tx.nSize < s.MaxSize() && w.nBlockSigOps + nSigOps < MAX_BLOCK_SIGOPS
    ensures TotalsOk(s, Include(s, w, tx, fee, nSigOps))
  {
    hide UpdateCoins, HaveInputs, Hashes, ViewAfter, ValueIn, ValueOut, Applies, AccountIs, BlockSigOps, Available, Sum,
      Sizes;
    var u := Include(s, w, tx, fee, nSigOps);
    SumAppend(w.fees, fee);
    SumAppend(w.sigOps, nSigOps);
    SizesAppend(w.vtx, tx);
    SumAppend(Sizes(w.vtx), tx.nSize);
    SigOpsAppend(s, w, tx);
    forall i | 0 <= i < |u.vtx| ensures AccountIs(s, u.vtx, i, u.fees[i], u.sigOps[i]) {
      if i < |w.vtx| {
        AccountKept(s, w.vtx, tx, i, w.fees[i], w.sigOps[i]);
      } else {
        AccountNew(s, w, tx, fee, nSigOps);
      }
    }
  }

  lemma SizesAppend(txs: seq<Tx>, tx: Tx)
    ensures Sizes(txs + [tx]) == Sizes(txs) + [tx.nSize]
  {
  }

  lemma SigOpsAppend(s: Setup, w: Work, tx: Tx)
    requires BlockOk(s, w) && Applies(s.chain, w.vtx + [tx], s.nHeight, s.unspendable)
    ensures BlockSigOps(s, w.vtx + [tx]) == BlockSigOps(s, w.vtx) + tx.nSigOps + s.p2shSigOps(tx, w.view)
  {
    hide Applies, ViewAfter;
    var txs := w.vtx + [tx];
    assert txs[..|txs| - 1] == w.vtx && txs[|txs| - 1] == tx;
  }

  lemma AccountNew(s: Setup, w: Work, tx: Tx, fee: int, nSigOps: nat)
    requires BlockOk(s, w) && Applies(s.chain, w.vtx + [tx], s.nHeight, s.unspendable)
    requires forall i :: 0 <= i < |tx.vin| ==> Available(w.view, tx.vin[i])
    requires fee == ValueIn(w.view, tx.vin) - ValueOut(tx.vout)
    requires nSigOps == tx.nSigOps + s.p2shSigOps(tx, w.view) && s.checkInputs(tx, w.view)
    ensures AccountIs(s, w.vtx + [tx], |w.vtx|, fee, nSigOps)
  {
    hide ValueIn, ValueOut, Applies, Available, ViewAfter;
    assert (w.vtx + [tx])[..|w.vtx|] == w.vtx;
  }

  // ------------------------------------------------------------ releasing what waited for it

  ghost function FirstIds(ids: seq<Txid>, n: nat): set<Txid>
    requires n <= |ids|
  {
    set i | 0 <= i < n :: ids[i]
  }

  lemma NextIds(ids: seq<Txid>, n: nat)
    requires n < |ids|
    ensures FirstIds(ids, n + 1) == FirstIds(ids, n) + {ids[n]}
  {
  }

  lemma AllIds(ids: seq<Txid>)
    ensures forall k :: k in FirstIds(ids, |ids|) <==> k in ids
  {
  }

  /** The orphans after some of those that wait for h have been told. */
  ghost predicate ToldMap(old0: map<Txid, Orphan>, h: Txid, told: set<Txid>, orphans: map<Txid, Orphan>) {
    && orphans.Keys == old0.Keys
    && (forall k :: k in orphans ==>
          orphans[k] ==
            old0[k].(setDependsOn := if k in told then old0[k].setDependsOn - {h} else old0[k].setDependsOn))
  }

  /** Those that waited for h alone have been released, each once. */
  ghost predicate Released(old0: map<Txid, Orphan>, h: Txid, told: set<Txid>, more: seq<Candidate>) {
    && DistinctIds(more)
    && (forall i :: 0 <= i < |more| ==>
          var k := more[i].tx.hash;
          && k in old0 && more[i] == Candidate(old0[k].dPriority, old0[k].feeRate, old0[k].tx))
    && (forall k :: k in Ids(more) <==> k in told && k in old0 && old0[k].setDependsOn == {h})
  }

  /** The loop over the dependers of a transaction that has gone into the block. */
  method Release(queue: seq<Candidate>, old0: map<Txid, Orphan>, ids: seq<Txid>, h: Txid)
    returns (orphans: map<Txid, Orphan>, after: seq<Candidate>, ghost more: seq<Candidate>)
    requires forall k :: k in old0 ==> old0[k].tx.hash == k
    requires forall k :: k in ids ==> k in old0 && h in old0[k].setDependsOn
    ensures after == queue + more
    ensures ToldMap(old0, h, FirstIds(ids, |ids|), orphans) && Released(old0, h, FirstIds(ids, |ids|), more)
  {
    orphans, after, more := old0, queue, [];
    assert FirstIds(ids, 0) == {} && Ids(more) == {};
    for n := 0 to |ids|
      invariant after == queue + more
      invariant ToldMap(old0, h, FirstIds(ids, n), orphans) && Released(old0, h, FirstIds(ids, n), more)
    {
      hide FirstIds, Ids, DistinctIds, Released;
      var k := ids[n];
      var porphan := orphans[k];
      ghost var o, m := orphans, more;
      if porphan.setDependsOn != {} {
        porphan := porphan.(setDependsOn := porphan.setDependsOn - {h});
        orphans := orphans[k := porphan];
        if porphan.setDependsOn == {} {
          var c := Candidate(porphan.dPriority, porphan.feeRate, porphan.tx);
          after := after + [c];
          more := more + [c];
        }
      }
      ToldNext(old0, h, FirstIds(ids, n), k, o, m, orphans, more);
      NextIds(ids, n);
    }
  }

  lemma ToldNext(old0: map<Txid, Orphan>, h: Txid, told: set<Txid>, k: Txid, orphans: map<Txid, Orphan>,
                 more: seq<Candidate>, orphans1: map<Txid, Orphan>, more1: seq<Candidate>)
    requires ToldMap(old0, h, told, orphans) && Released(old0, h, told, more)
    requires forall j :: j in old0 ==> old0[j].tx.hash == j
    requires k in old0 && h in old0[k].setDependsOn
    requires
      var p := orphans[k];
      var q := p.(setDependsOn := p.setDependsOn - {h});
      && orphans1 == (if p.setDependsOn != {} then orphans[k := q] else orphans)
      && more1 == (if p.setDependsOn != {} && q.setDependsOn == {} then more + [Candidate(q.dPriority, q.feeRate, q.tx)]
                   else more)
    ensures ToldMap(old0, h, told + {k}, orphans1) && Released(old0, h, told + {k}, more1)
  {
    hide Released;
    var d := old0[k].setDependsOn;
    assert d == (d - {h}) + {h};
    assert d - {h} - {h} == d - {h};
    ToldOrphans(old0, orphans, orphans1, told, k, h);
    var p := orphans[k];
    ReleasedNext(old0, h, told, k, more, more1, Candidate(p.dPriority, p.feeRate, p.tx));
  }

  lemma ReleasedNext(old0: map<Txid, Orphan>, h: Txid, told: set<Txid>, k: Txid, more: seq<Candidate>,
                     more1: seq<Candidate>, c: Candidate)
    requires Released(old0, h, told, more)
    requires k in old0 && c == Candidate(old0[k].dPriority, old0[k].feeRate, old0[k].tx) && c.tx.hash == k
    requires more1 == (if k !in told && old0[k].setDependsOn == {h} then more + [c] else more)
    ensures Released(old0, h, told + {k}, more1)
  {
    hide DistinctIds, Ids;
    if k !in told && old0[k].setDependsOn == {h} {
      AppendId(more, c);
    }
  }

  lemma AppendId(q: seq<Candidate>, c: Candidate)
    requires DistinctIds(q) && c.tx.hash !in Ids(q)
    ensures DistinctIds(q + [c])
    ensures forall h :: h in Ids(q + [c]) <==> h in Ids(q) || h == c.tx.hash
  {
    var r := q + [c];
    forall i | 0 <= i < |q| ensures q[i].tx.hash in Ids(q) {}
    forall h ensures h in Ids(r) <==> h in Ids(q) || h == c.tx.hash {
      if h in Ids(q) {
        var i :| 0 <= i < |q| && q[i].tx.hash == h;
        assert r[i].tx.hash == h;
      }
      assert r[|q|] == c;
    }
  }

  lemma ToldOrphans(old0: map<Txid, Orphan>, orphans: map<Txid, Orphan>, orphans1: map<Txid, Orphan>, told: set<Txid>,
                    k: Txid, h: Txid)
    requires ToldMap(old0, h, told, orphans) && k in old0 && h in old0[k].setDependsOn
    requires
      var p := orphans[k];
      orphans1 == (if p.setDependsOn != {} then orphans[k := p.(setDependsOn := p.setDependsOn - {h})] else orphans)
    ensures ToldMap(old0, h, told + {k}, orphans1)
  {
    var d := old0[k].setDependsOn;
    assert d - {h} - {h} == d - {h};
  }

  /** The ids that wait for h, as they were filed. */
  function Dependers(dependers: map<Txid, seq<Txid>>, h: Txid): seq<Txid> {
    if h in dependers then dependers[h] else []
  }

  lemma TellOk(s: Setup, orphans: map<Txid, Orphan>, dependers: map<Txid, seq<Txid>>, chosen: set<Txid>, h: Txid)
    requires s.Valid() && Filed(s, orphans, dependers) && WaitFor(s, orphans, chosen) && h !in chosen
    ensures forall k :: k in orphans ==> k in s.pool && orphans[k].tx.hash == k
    ensures forall k :: k in Dependers(dependers, h) <==> k in orphans && h in orphans[k].setDependsOn
  {
    forall k ensures k in Dependers(dependers, h) <==> k in orphans && h in orphans[k].setDependsOn {
      assert HasDependers(dependers, h, k) <==> k in Dependers(dependers, h);
      assert k in orphans <==> IsOrphan(s, k);
    }
  }

  /** Telling all dependers of h removes h from every set it is in. */
  lemma ToldAll(orphans: map<Txid, Orphan>, h: Txid, ids: seq<Txid>, orphans1: map<Txid, Orphan>)
    requires ToldMap(orphans, h, FirstIds(ids, |ids|), orphans1)
    requires forall k :: k in ids <==> k in orphans && h in orphans[k].setDependsOn
    ensures orphans1.Keys == orphans.Keys
    ensures forall k :: k in orphans ==> orphans1[k] == orphans[k].(setDependsOn := orphans[k].setDependsOn - {h})
  {
    AllIds(ids);
    hide FirstIds;
    forall k | k in orphans ensures orphans1[k] == orphans[k].(setDependsOn := orphans[k].setDependsOn - {h}) {
      var d := orphans[k].setDependsOn;
      if k !in ids { assert d - {h} == d; }
    }
  }

  lemma ReleaseWait(s: Setup, orphans: map<Txid, Orphan>, chosen: set<Txid>, h: Txid, orphans1: map<Txid, Orphan>)
    requires WaitFor(s, orphans, chosen) && orphans1.Keys == orphans.Keys
    requires forall k :: k in orphans ==> orphans1[k] == orphans[k].(setDependsOn := orphans[k].setDependsOn - {h})
    ensures WaitFor(s, orphans1, chosen + {h})
  {
    forall k | k in orphans1 && k in s.pool
      ensures orphans1[k].tx == s.pool[k] && orphans1[k].setDependsOn == s.DependsOn(k) - (chosen + {h})
      ensures orphans1[k].dPriority == s.priority(k) && orphans1[k].feeRate == s.feeRate(k)
    {
      assert s.DependsOn(k) - chosen - {h} == s.DependsOn(k) - (chosen + {h});
    }
  }

  /** Who has been released: exactly those that waited before and no longer do. */
  lemma ReleasedWaiting(orphans: map<Txid, Orphan>, h: Txid, ids: seq<Txid>, orphans1: map<Txid, Orphan>,
                        more: seq<Candidate>)
    requires Released(orphans, h, FirstIds(ids, |ids|), more)
    requires forall k :: k in ids <==> k in orphans && h in orphans[k].setDependsOn
    requires orphans1.Keys == orphans.Keys
    requires forall k :: k in orphans ==> orphans1[k] == orphans[k].(setDependsOn := orphans[k].setDependsOn - {h})
    ensures forall k :: k in Ids(more) <==> k in Waiting(orphans) && k !in Waiting(orphans1)
    ensures Waiting(orphans1) <= Waiting(orphans)
  {
    AllIds(ids);
    hide FirstIds, Ids;
    forall k ensures k in Ids(more) <==> k in Waiting(orphans) && k !in Waiting(orphans1) {
      if k in orphans {
        var d := orphans[k].setDependsOn;
        assert h in d ==> d == (d - {h}) + {h};
        assert h !in d ==> d - {h} == d;
      }
    }
    forall k | k in Waiting(orphans1) ensures k in Waiting(orphans) {
      assert orphans1[k].setDependsOn != {};
    }
  }

  lemma ConcatIds(p: seq<Candidate>, q: seq<Candidate>)
    requires DistinctIds(p) && DistinctIds(q) && forall h :: h in Ids(p) ==> h !in Ids(q)
    ensures DistinctIds(p + q)
    ensures forall h :: h in Ids(p + q) <==> h in Ids(p) || h in Ids(q)
  {
    var r := p + q;
    forall i | 0 <= i < |p| ensures p[i].tx.hash in Ids(p) {}
    forall i | 0 <= i < |q| ensures q[i].tx.hash in Ids(q) {}
    forall h ensures h in Ids(r) <==> h in Ids(p) || h in Ids(q) {
      if h in Ids(p) { var i :| 0 <= i < |p| && p[i].tx.hash == h; assert r[i].tx.hash == h; }
      if h in Ids(q) { var i :| 0 <= i < |q| && q[i].tx.hash == h; assert r[|p| + i].tx.hash == h; }
    }
  }

  lemma ReleasePartition(s: Setup, queue: seq<Candidate>, waiting: set<Txid>, done: set<Txid>, more: seq<Candidate>,
                         waiting1: set<Txid>)
    requires Partition(s, queue, waiting, done) && DistinctIds(more)
    requires forall k :: k in Ids(more) <==> k in waiting && k !in waiting1
    requires waiting1 <= waiting
    ensures Partition(s, queue + more, waiting1, done)
    ensures |queue + more| + |waiting1| == |queue| + |waiting|
  {
    hide Ids, DistinctIds;
    ConcatIds(queue, more);
    ReleaseCount(waiting, waiting1, more);
  }

  lemma ReleaseCount(waiting: set<Txid>, waiting1: set<Txid>, more: seq<Candidate>)
    requires DistinctIds(more) && waiting1 <= waiting
    requires forall k :: k in Ids(more) <==> k in waiting && k !in waiting1
    ensures |waiting| == |waiting1| + |more|
  {
    IdsCount(more);
    hide Ids, DistinctIds;
    var m := Ids(more);
    forall k ensures k in waiting <==> k in waiting1 + m {}
    assert waiting == waiting1 + m;
    assert waiting1 !! m;
  }

  lemma ReleaseQueue(s: Setup, queue: seq<Candidate>, chosen: set<Txid>, more: seq<Candidate>,
                     orphans: map<Txid, Orphan>, told: set<Txid>, h: Txid)
    requires s.Valid() && QueueOk(s, queue, chosen + {h}) && WaitFor(s, orphans, chosen)
    requires forall k :: k in orphans ==> s.Eligible(k)
    requires Released(orphans, h, told, more)
    ensures QueueOk(s, queue + more, chosen + {h})
  {
    var q := queue + more;
    forall i | 0 <= i < |q|
      ensures
        var k := q[i].tx.hash;
        && s.Eligible(k) && q[i].tx == s.pool[k] && s.DependsOn(k) <= chosen + {h}
        && q[i].dPriority == s.priority(k) && q[i].feeRate == s.feeRate(k)
    {
      if i >= |queue| {
        assert q[i] == more[i - |queue|];
        assert q[i].tx.hash in Ids(more);
        var d := s.DependsOn(q[i].tx.hash);
        assert d - chosen == {h};
        assert d <= (d - chosen) + chosen;
      }
    }
  }

  lemma {:induction false} IdsCount(q: seq<Candidate>)
    requires DistinctIds(q)
    ensures |Ids(q)| == |q|
  {
    if q != [] {
      var n := |q| - 1;
      var r := q[..n];
      IdsCount(r);
      assert q == r + [q[n]];
      AppendId(r, q[n]);
      assert Ids(q) == Ids(r) + {q[n].tx.hash};
    }
  }

  lemma IncludePending(s: Setup, w: Work, done: set<Txid>, tx: Tx, fee: int, nSigOps: nat)
    requires s.Valid() && Inv(s, w, done) && s.Eligible(tx.hash) && tx == s.pool[tx.hash]
    requires s.DependsOn(tx.hash) <= Hashes(w.vtx) && tx.hash !in Hashes(w.vtx) && tx.hash in done
    requires HaveInputs(w.view, tx)
    requires forall i :: 0 <= i < |tx.vin| ==> Available(w.view, tx.vin[i])
    requires fee == ValueIn(w.view, tx.vin) - ValueOut(tx.vout)
    requires nSigOps == tx.nSigOps + s.p2shSigOps(tx, w.view) && s.checkInputs(tx, w.view)
    requires w.nBlockSize + tx.nSize < s.MaxSize() && w.nBlockSigOps + nSigOps < MAX_BLOCK_SIGOPS
    ensures DistinctInputs(tx)
    ensures
      var u := Include(s, w, tx, fee, nSigOps);
      && BlockOk(s, u) && TotalsOk(s, u)
      && Hashes(u.vtx) == Hashes(w.vtx) + {tx.hash}
      && QueueOk(s, u.queue, Hashes(u.vtx))
  {
    IncludeBlock(s, w, tx, fee, nSigOps);
    IncludeTotals(s, w, tx, fee, nSigOps);
    var u := Include(s, w, tx, fee, nSigOps);
    assert u.vtx == w.vtx + [tx] && u.queue == w.queue;
    hide *;
    IncludeHashes(w.vtx, tx);
    QueueMono(s, w.queue, Hashes(w.vtx), Hashes(u.vtx));
  }

  lemma IncludeHashes(txs: seq<Tx>, tx: Tx)
    ensures Hashes(txs + [tx]) == Hashes(txs) + {tx.hash}
    ensures Hashes(txs) <= Hashes(txs + [tx])
  {
    HashesAppend(txs, tx);
    hide Hashes;
    forall h ensures h in Hashes(txs + [tx]) <==> h in Hashes(txs) + {tx.hash} {}
  }

  lemma QueueMono(s: Setup, queue: seq<Candidate>, chosen: set<Txid>, more: set<Txid>)
    requires QueueOk(s, queue, chosen) && chosen <= more
    ensures QueueOk(s, queue, more)
  {
  }

  // ------------------------------------------------------------ collecting from the pool

  ghost predicate Collected(s: Setup, seen: set<Txid>, queue: seq<Candidate>, orphans: map<Txid, Orphan>,
                            dependers: map<Txid, seq<Txid>>) {
    && DistinctIds(queue) && QueueOk(s, queue, {}) && WaitFor(s, orphans, {})
    && (forall k :: k in Ids(queue) <==> k in seen && s.Eligible(k) && s.DependsOn(k) == {})
    && (forall k :: k in orphans <==> k in seen && IsOrphan(s, k))
    && (forall h, k :: HasDependers(dependers, h, k) <==> k in seen && IsOrphan(s, k) && h in s.DependsOn(k))
  }

  ghost function DependsFirst(s: Setup, tx: Tx, n: nat): set<Txid>
    requires n <= |tx.vin|
  {
    set i | 0 <= i < n && !HaveCoins(s.chain, tx.vin[i].hash) :: tx.vin[i].hash
  }

  /** The loop over the inputs of one transaction; it is given up at a missing one. */
  method ScanInputs(s: Setup, k: Txid, dependers: map<Txid, seq<Txid>>)
    returns (fMissingInputs: bool, setDependsOn: set<Txid>, after: map<Txid, seq<Txid>>)
    requires s.Valid() && s.Ranked(k)
    ensures fMissingInputs <==> !s.Eligible(k)
    ensures fMissingInputs ==> after == dependers
    ensures !fMissingInputs ==> setDependsOn == s.DependsOn(k)
    ensures !fMissingInputs ==>
      forall h, j :: HasDependers(after, h, j) <==> HasDependers(dependers, h, j) || (j == k && h in setDependsOn)
  {
    hide HaveCoins;
    var tx := s.pool[k];
    setDependsOn, after := {}, dependers;
    for i := 0 to |tx.vin|
      invariant setDependsOn == DependsFirst(s, tx, i)
      invariant setDependsOn == {} ==> after == dependers
      invariant forall j :: 0 <= j < i ==> !s.Missing(k, j)
      invariant forall h, j :: HasDependers(after, h, j) <==>
        HasDependers(dependers, h, j) || (j == k && h in setDependsOn)
    {
      var hash := tx.vin[i].hash;
      DependsNext(s, tx, i);
      if !HaveCoins(s.chain, hash) {
        if hash !in s.pool {
          NothingFiled(s, k, i);
          return true, setDependsOn, after;
        }
        FileNext(dependers, after, k, setDependsOn, hash);
        after := after[hash := Dependers(after, hash) + [k]];
        setDependsOn := setDependsOn + {hash};
      }
    }
    assert DependsFirst(s, tx, |tx.vin|) == s.DependsOn(k);
    fMissingInputs := false;
  }

  lemma NothingFiled(s: Setup, k: Txid, i: nat)
    requires s.Valid() && s.Ranked(k) && i < |s.pool[k].vin| && s.Missing(k, i)
    requires forall j :: 0 <= j < i ==> !s.Missing(k, j)
    ensures DependsFirst(s, s.pool[k], i) == {}
  {
    hide HaveCoins;
    assert s.MissingFirst(k, i);
    var j :| 0 <= j <= i && s.Missing(k, j) && forall l :: 0 <= l < j ==> HaveCoins(s.chain, s.pool[k].vin[l].hash);
    assert j == i;
  }

  lemma DependsNext(s: Setup, tx: Tx, i: nat)
    requires i < |tx.vin|
    ensures DependsFirst(s, tx, i + 1) ==
      if HaveCoins(s.chain, tx.vin[i].hash) then DependsFirst(s, tx, i) else DependsFirst(s, tx, i) + {tx.vin[i].hash}
  {
    hide HaveCoins;
  }

  lemma FileNext(old0: map<Txid, seq<Txid>>, dependers: map<Txid, seq<Txid>>, k: Txid, d: set<Txid>, h: Txid)
    requires forall g, j :: HasDependers(dependers, g, j) <==> HasDependers(old0, g, j) || (j == k && g in d)
    ensures forall g, j :: HasDependers(dependers[h := Dependers(dependers, h) + [k]], g, j) <==>
      HasDependers(old0, g, j) || (j == k && g in d + {h})
  {
    var after := dependers[h := Dependers(dependers, h) + [k]];
    forall g, j ensures HasDependers(after, g, j) <==> HasDependers(dependers, g, j) || (j == k && g == h) {
      if g == h { assert j in after[h] <==> j in Dependers(dependers, h) || j == k; }
    }
  }

  lemma CollectQueue(s: Setup, seen: set<Txid>, queue: seq<Candidate>, orphans: map<Txid, Orphan>,
                     dependers: map<Txid, seq<Txid>>, k: Txid, c: Candidate)
    requires s.Valid() && Collected(s, seen, queue, orphans, dependers) && k !in seen && s.Eligible(k)
    requires s.DependsOn(k) == {}
    requires c == Candidate(s.priority(k), s.feeRate(k), s.pool[k])
    ensures Collected(s, seen + {k}, queue + [c], orphans, dependers)
  {
    assert k !in Ids(queue);
    AppendId(queue, c);
    hide Ids, DistinctIds;
  }

  lemma CollectOrphan(s: Setup, seen: set<Txid>, queue: seq<Candidate>, orphans: map<Txid, Orphan>,
                      dependers: map<Txid, seq<Txid>>, k: Txid, o: Orphan, after: map<Txid, seq<Txid>>)
    requires s.Valid() && Collected(s, seen, queue, orphans, dependers) && k !in seen && IsOrphan(s, k)
    requires o == Orphan(s.pool[k], s.DependsOn(k), s.feeRate(k), s.priority(k))
    requires forall h, j :: HasDependers(after, h, j) <==>
      HasDependers(dependers, h, j) || (j == k && h in s.DependsOn(k))
    ensures Collected(s, seen + {k}, queue, orphans[k := o], after)
  {
    hide Ids, DistinctIds, HasDependers;
    assert o.setDependsOn == s.DependsOn(k) - {};
  }

  lemma CollectNone(s: Setup, seen: set<Txid>, queue: seq<Candidate>, orphans: map<Txid, Orphan>,
                    dependers: map<Txid, seq<Txid>>, k: Txid)
    requires Collected(s, seen, queue, orphans, dependers) && !s.Eligible(k)
    ensures Collected(s, seen + {k}, queue, orphans, dependers)
  {
    hide Ids, DistinctIds, HasDependers;
  }

  /** One entry of the pool: it is ranked, or waits for those it depends on. */
  method CollectOne(s: Setup, ghost seen: set<Txid>, k: Txid, queue: seq<Candidate>, orphans: map<Txid, Orphan>,
                    dependers: map<Txid, seq<Txid>>)
    returns (queue1: seq<Candidate>, orphans1: map<Txid, Orphan>, dependers1: map<Txid, seq<Txid>>)
    requires s.Valid() && k in s.pool && k !in seen && Collected(s, seen, queue, orphans, dependers)
    ensures Collected(s, seen + {k}, queue1, orphans1, dependers1)
  {
    hide Collected, HasDependers;
    queue1, orphans1, dependers1 := queue, orphans, dependers;
    if !s.Ranked(k) {
      CollectNone(s, seen, queue, orphans, dependers, k);
      return;
    }
    var fMissingInputs, setDependsOn, after := ScanInputs(s, k, dependers);
    if fMissingInputs {
      CollectNone(s, seen, queue, orphans, dependers, k);
      return;
    }
    if setDependsOn != {} {
      var o := Orphan(s.pool[k], setDependsOn, s.feeRate(k), s.priority(k));
      CollectOrphan(s, seen, queue, orphans, dependers, k, o, after);
      orphans1, dependers1 := orphans[k := o], after;
    } else {
      var c := Candidate(s.priority(k), s.feeRate(k), s.pool[k]);
      CollectQueue(s, seen, queue, orphans, dependers, k, c);
      queue1 := queue + [c];
    }
  }

  method Collect(s: Setup) returns (w: Work)
    requires s.Valid()
    ensures Inv(s, w, {}) && w.vtx == [] && (w.byFee <==> s.nPrioritySizeArg == 0)
  {
    var queue: seq<Candidate>, orphans: map<Txid, Orphan>, dependers: map<Txid, seq<Txid>> := [], map[], map[];
    var todo := s.pool.Keys;
    ghost var seen: set<Txid> := {};
    CollectedNone(s);
    hide Collected, Inv;
    while todo != {}
      invariant seen + todo == s.pool.Keys && seen !! todo
      invariant Collected(s, seen, queue, orphans, dependers)
      decreases |todo|
    {
      assert (forall k :: k !in todo) ==> todo == {};
      var k :| k in todo;
      queue, orphans, dependers := CollectOne(s, seen, k, queue, orphans, dependers);
      todo := todo - {k};
      seen := seen + {k};
    }
    w := Work(queue, orphans, dependers, s.chain, [], [], [], 1000, 100, 0, s.PrioritySize() <= 0);
    assert seen == s.pool.Keys;
    CollectedInv(s, w);
  }

  lemma CollectedNone(s: Setup)
    ensures Collected(s, {}, [], map[], map[])
  {
    assert Ids([]) == {};
  }

  lemma CollectedInv(s: Setup, w: Work)
    requires s.Valid() && Collected(s, s.pool.Keys, w.queue, w.orphans, w.dependers)
    requires w.vtx == [] && w.fees == [] && w.sigOps == [] && w.view == s.chain
    requires w.nBlockSize == 1000 && w.nBlockSigOps == 100 && w.nFees == 0
    ensures Inv(s, w, {})
  {
    assert Hashes(w.vtx) == {};
    assert TotalsOk(s, w) by { assert Sizes(w.vtx) == []; }
    hide Ids, DistinctIds, HasDependers, TotalsOk;
    forall k ensures k in Waiting(w.orphans) <==> IsOrphan(s, k) {
      if k in w.orphans { assert s.DependsOn(k) - {} == s.DependsOn(k); }
    }
  }

  // ------------------------------------------------------------ choosing

  /** What makes the loop put the candidate in the block. */
  predicate Takes(s: Setup, w: Work, top: Candidate) {
    var tx := top.tx;
    var size := w.nBlockSize + tx.nSize;
    && size < s.MaxSize()
    && w.nBlockSigOps + tx.nSigOps < MAX_BLOCK_SIGOPS
    && !(w.byFee && s.priorityDelta(tx.hash) <= 0.0 && s.feeDelta(tx.hash) <= 0 && top.feeRate < s.minRelayFee
         && size >= s.MinSize())
    && HaveInputs(w.view, tx)
    && w.nBlockSigOps + tx.nSigOps + s.p2shSigOps(tx, w.view) < MAX_BLOCK_SIGOPS
    && s.checkInputs(tx, w.view)
  }

  /** A good reason not to put k behind these transactions: the block gets too big or has too many signature
      operations, k pays too little in a block that has its least size, or cannot be spent there. */
  ghost predicate Refused(s: Setup, txs: seq<Tx>, k: Txid)
    requires Applies(s.chain, txs, s.nHeight, s.unspendable) && k in s.pool
  {
    var tx := s.pool[k];
    var size := 1000 + Sum(Sizes(txs)) + tx.nSize;
    var view := ViewAfter(s.chain, txs, s.nHeight, s.unspendable);
    || size >= s.MaxSize()
    || BlockSigOps(s, txs) + tx.nSigOps + s.p2shSigOps(tx, view) >= MAX_BLOCK_SIGOPS
    || (s.feeRate(k) < s.minRelayFee && s.priorityDelta(k) <= 0.0 && s.feeDelta(k) <= 0 && size >= s.MinSize())
    || (exists i :: 0 <= i < |tx.vin| && !Available(view, tx.vin[i]))
    || !s.checkInputs(tx, view)
  }

  ghost predicate RefusedAt(s: Setup, txs: seq<Tx>, k: Txid, i: nat)
    requires Applies(s.chain, txs, s.nHeight, s.unspendable) && k in s.pool && i <= |txs|
  {
    PrefixApplies(s.chain, txs, s.nHeight, s.unspendable, i);
    Refused(s, txs[..i], k)
  }

  /** Whoever was looked at and is not in the block was refused at some point of it. */
  ghost predicate Justified(s: Setup, txs: seq<Tx>, done: set<Txid>) {
    && Applies(s.chain, txs, s.nHeight, s.unspendable)
    && forall k :: k in done && k in s.pool && k !in Hashes(txs) ==>
      exists i: nat :: i <= |txs| && RefusedAt(s, txs, k, i)
  }

  lemma JustifiedRefusal(s: Setup, w: Work, done: set<Txid>, top: Candidate)
    requires BlockOk(s, w) && TotalsOk(s, w) && Justified(s, w.vtx, done)
    requires top.tx.hash in s.pool && top.tx == s.pool[top.tx.hash] && top.feeRate == s.feeRate(top.tx.hash)
    requires !top.tx.fCoinBase && !Takes(s, w, top)
    ensures Justified(s, w.vtx, done + {top.tx.hash})
  {
    hide Applies, ViewAfter, Sum, Sizes, BlockSigOps, AccountIs, Hashes, Available;
    assert w.vtx[..|w.vtx|] == w.vtx;
    assert 1000 + Sum(Sizes(w.vtx)) == w.nBlockSize;
    assert Refused(s, w.vtx, top.tx.hash);
    assert RefusedAt(s, w.vtx, top.tx.hash, |w.vtx|);
  }

  lemma JustifiedMore(s: Setup, txs: seq<Tx>, done: set<Txid>, tx: Tx)
    requires Justified(s, txs, done) && Applies(s.chain, txs + [tx], s.nHeight, s.unspendable)
    ensures Justified(s, txs + [tx], done + {tx.hash})
  {
    hide Applies, Refused;
    IncludeHashes(txs, tx);
    hide Hashes;
    forall k | k in done && k in s.pool && k !in Hashes(txs + [tx])
      ensures exists i: nat :: i <= |txs + [tx]| && RefusedAt(s, txs + [tx], k, i)
    {
      var i: nat :| i <= |txs| && RefusedAt(s, txs, k, i);
      assert (txs + [tx])[..i] == txs[..i];
      assert RefusedAt(s, txs + [tx], k, i);
    }
  }

  /** Whether the loop goes over to the order by fee at this candidate. */
  predicate TurnsToFee(s: Setup, w: Work, top: Candidate) {
    && w.nBlockSize + top.tx.nSize < s.MaxSize() && w.nBlockSigOps + top.tx.nSigOps < MAX_BLOCK_SIGOPS
    && (w.nBlockSize + top.tx.nSize >= s.PrioritySize() || !s.allowFree(top.dPriority))
  }

  /** Nothing queued goes before it: by fee first or by priority first, the other one deciding between equals. */
  predicate GoesFirst(byFee: bool, queue: seq<Candidate>, top: Candidate) {
    forall c :: c in queue ==>
      if byFee then c.feeRate < top.feeRate || (c.feeRate == top.feeRate && c.dPriority <= top.dPriority)
      else c.dPriority < top.dPriority || (c.dPriority == top.dPriority && c.feeRate <= top.feeRate)
  }

  /** One turn of the loop: the best of the queue is put in the block or passed over. */
  method Turn(s: Setup, w: Work, ghost done: set<Txid>) returns (u: Work, ghost top: Candidate)
    requires s.Valid() && Inv(s, w, done) && Justified(s, w.vtx, done) && w.queue != []
    ensures top in w.queue && GoesFirst(w.byFee, w.queue, top)
    ensures top.dPriority == s.priority(top.tx.hash) && top.feeRate == s.feeRate(top.tx.hash)
    ensures Inv(s, u, done + {top.tx.hash}) && Justified(s, u.vtx, done + {top.tx.hash})
    ensures u.byFee <==> w.byFee || TurnsToFee(s, w, top)
    ensures u.vtx == if Takes(s, w, top) then w.vtx + [top.tx] else w.vtx
    ensures
      var h := top.tx.hash;
      (w.byFee && s.feeRate(h) < s.minRelayFee && s.priorityDelta(h) <= 0.0 && s.feeDelta(h) <= 0
       && w.nBlockSize + top.tx.nSize >= s.MinSize()) ==> u.vtx == w.vtx
    ensures !w.byFee && u.vtx == w.vtx ==>
      || w.nBlockSize + top.tx.nSize >= s.MaxSize()
      || w.nBlockSigOps + top.tx.nSigOps + s.p2shSigOps(top.tx, w.view) >= MAX_BLOCK_SIGOPS
      || !HaveInputs(w.view, top.tx) || !s.checkInputs(top.tx, w.view)
    ensures |u.queue| + |Waiting(u.orphans)| < |w.queue| + |Waiting(w.orphans)|
  {
    hide Inv, Less, HaveInputs, UpdateCoins, ValueIn, ValueOut, Waiting, Hashes, Justified, GoesFirst;
    var best, rest, k := TakeHighest(w.queue, w.byFee);
    top := best;
    HighestFirst(w.byFee, w.queue, top);
    PopInv(s, w, done, k);
    u := w.(queue := rest);
    if !Takes(s, w, top) { PassedOver(s, w, done, top, k); }
    var tx := best.tx;
    if u.nBlockSize + tx.nSize >= s.MaxSize() {
      return;
    }
    var nTxSigOps := tx.nSigOps;
    if u.nBlockSigOps + nTxSigOps >= MAX_BLOCK_SIGOPS {
      return;
    }
    if u.byFee && s.priorityDelta(tx.hash) <= 0.0 && s.feeDelta(tx.hash) <= 0 && best.feeRate < s.minRelayFee &&
       u.nBlockSize + tx.nSize >= s.MinSize() {
      return;
    }
    if !u.byFee && (u.nBlockSize + tx.nSize >= s.PrioritySize() || !s.allowFree(best.dPriority)) {
      ByFeeInv(s, u, done + {tx.hash});
      u := u.(byFee := true);
    }
    if !HaveInputs(u.view, tx) {
      return;
    }
    nTxSigOps := nTxSigOps + s.p2shSigOps(tx, u.view);
    if u.nBlockSigOps + nTxSigOps >= MAX_BLOCK_SIGOPS {
      return;
    }
    if !s.checkInputs(tx, u.view) {
      return;
    }
    u := Add(s, u, done + {tx.hash}, tx, nTxSigOps);
    AppliesOf(s, u, done + {tx.hash});
    JustifiedMore(s, w.vtx, done, tx);
  }

  lemma AppliesOf(s: Setup, w: Work, done: set<Txid>)
    requires Inv(s, w, done)
    ensures Applies(s.chain, w.vtx, s.nHeight, s.unspendable)
  {
  }

  lemma HighestFirst(byFee: bool, queue: seq<Candidate>, top: Candidate)
    requires forall i :: 0 <= i < |queue| ==> !Less(byFee, top, queue[i])
    ensures GoesFirst(byFee, queue, top)
  {
  }

  lemma PassedOver(s: Setup, w: Work, done: set<Txid>, top: Candidate, k: nat)
    requires s.Valid() && Inv(s, w, done) && Justified(s, w.vtx, done) && k < |w.queue| && top == w.queue[k]
    requires !Takes(s, w, top)
    ensures Justified(s, w.vtx, done + {top.tx.hash})
  {
    hide Partition, Filed, WaitFor, BlockOk, TotalsOk, Hashes, Takes, Waiting, Justified;
    JustifiedRefusal(s, w, done, top);
  }

  lemma ByFeeInv(s: Setup, w: Work, done: set<Txid>)
    requires Inv(s, w, done)
    ensures Inv(s, w.(byFee := true), done)
  {
    hide Partition, Filed, WaitFor, QueueOk, Hashes, Waiting, Applies, ViewAfter, AccountIs, BlockSigOps, Sum, Sizes;
  }

  /** The block, the view and the totals take the transaction in, and those that waited for it
      alone join the queue. */
  method Add(s: Setup, w: Work, ghost done: set<Txid>, tx: Tx, nTxSigOps: nat) returns (u: Work)
    requires s.Valid() && Inv(s, w, done) && s.Eligible(tx.hash) && tx == s.pool[tx.hash]
    requires s.DependsOn(tx.hash) <= Hashes(w.vtx) && tx.hash !in Hashes(w.vtx) && tx.hash in done
    requires HaveInputs(w.view, tx)
    requires nTxSigOps == tx.nSigOps + s.p2shSigOps(tx, w.view) && s.checkInputs(tx, w.view)
    requires w.nBlockSize + tx.nSize < s.MaxSize() && w.nBlockSigOps + nTxSigOps < MAX_BLOCK_SIGOPS
    ensures Inv(s, u, done) && u.vtx == w.vtx + [tx] && u.byFee == w.byFee
    ensures |u.queue| + |Waiting(u.orphans)| == |w.queue| + |Waiting(w.orphans)|
  {
    InputsAvailable(w.view, tx);
    var nTxFees := ValueIn(w.view, tx.vin) - ValueOut(tx.vout);
    IncludePending(s, w, done, tx, nTxFees, nTxSigOps);
    AddTold(s, w, done, tx.hash);
    u := Include(s, w, tx, nTxFees, nTxSigOps);
    assert u.orphans == w.orphans && u.queue == w.queue && u.dependers == w.dependers && u.vtx == w.vtx + [tx];
    hide *;
    var orphans, queue;
    ghost var more;
    orphans, queue, more := Release(u.queue, u.orphans, Dependers(u.dependers, tx.hash), tx.hash);
    ghost var v := u;
    u := u.(orphans := orphans, queue := queue);
    AddInv(s, w, done, tx.hash, v, u, more);
  }

  lemma AddTold(s: Setup, w: Work, done: set<Txid>, h: Txid)
    requires s.Valid() && Inv(s, w, done) && h !in Hashes(w.vtx)
    ensures forall k :: k in w.orphans ==> w.orphans[k].tx.hash == k
    ensures forall k :: k in Dependers(w.dependers, h) ==> k in w.orphans && h in w.orphans[k].setDependsOn
  {
    hide Hashes, Partition, QueueOk, BlockOk, TotalsOk, Filed, WaitFor, Dependers;
    TellOk(s, w.orphans, w.dependers, Hashes(w.vtx), h);
  }

  lemma AddInv(s: Setup, w: Work, done: set<Txid>, h: Txid, v: Work, u: Work, more: seq<Candidate>)
    requires s.Valid() && Inv(s, w, done) && h !in Hashes(w.vtx) && h in done
    requires v.orphans == w.orphans && v.queue == w.queue && v.dependers == w.dependers
    requires BlockOk(s, v) && TotalsOk(s, v) && Hashes(v.vtx) == Hashes(w.vtx) + {h}
    requires QueueOk(s, v.queue, Hashes(v.vtx))
    requires u == v.(orphans := u.orphans, queue := u.queue) && u.queue == v.queue + more
    requires
      var ids := Dependers(v.dependers, h);
      ToldMap(v.orphans, h, FirstIds(ids, |ids|), u.orphans) && Released(v.orphans, h, FirstIds(ids, |ids|), more)
    ensures Inv(s, u, done)
    ensures |u.queue| + |Waiting(u.orphans)| == |w.queue| + |Waiting(w.orphans)|
  {
    hide Hashes, Applies, ViewAfter, AccountIs, BlockSigOps, Sum, Sizes, FirstIds, Ids, Waiting;
    var ids, chosen := Dependers(w.dependers, h), Hashes(w.vtx);
    SameBlock(s, v, u);
    OpenInv(s, w, done);
    FiledOrphans(s, w.orphans, w.dependers);
    assert DistinctIds(more);
    assert u.dependers == w.dependers && u.vtx == v.vtx;
    hide *;
    TellOk(s, w.orphans, w.dependers, chosen, h);
    ToldAll(w.orphans, h, ids, u.orphans);
    ReleaseWait(s, w.orphans, chosen, h, u.orphans);
    ReleasedWaiting(w.orphans, h, ids, u.orphans, more);
    ReleasePartition(s, w.queue, Waiting(w.orphans), done, more, Waiting(u.orphans));
    ReleaseQueue(s, w.queue, chosen, more, w.orphans, FirstIds(ids, |ids|), h);
    FiledKeys(s, w.orphans, w.dependers, u.orphans);
    MakeInv(s, u, done);
  }

  lemma FiledKeys(s: Setup, orphans: map<Txid, Orphan>, dependers: map<Txid, seq<Txid>>, orphans1: map<Txid, Orphan>)
    requires Filed(s, orphans, dependers) && orphans1.Keys == orphans.Keys
    ensures Filed(s, orphans1, dependers)
  {
  }

  lemma MakeInv(s: Setup, w: Work, done: set<Txid>)
    requires Partition(s, w.queue, Waiting(w.orphans), done) && Filed(s, w.orphans, w.dependers)
    requires WaitFor(s, w.orphans, Hashes(w.vtx)) && QueueOk(s, w.queue, Hashes(w.vtx)) && Hashes(w.vtx) <= done
    requires BlockOk(s, w) && TotalsOk(s, w)
    ensures Inv(s, w, done)
  {
    hide Partition, Filed, WaitFor, QueueOk, BlockOk, TotalsOk, Hashes, Waiting;
  }

  lemma OpenInv(s: Setup, w: Work, done: set<Txid>)
    requires Inv(s, w, done)
    ensures Partition(s, w.queue, Waiting(w.orphans), done) && Filed(s, w.orphans, w.dependers)
    ensures WaitFor(s, w.orphans, Hashes(w.vtx)) && QueueOk(s, w.queue, Hashes(w.vtx)) && Hashes(w.vtx) <= done
    ensures BlockOk(s, w) && TotalsOk(s, w)
  {
    hide Partition, Filed, WaitFor, QueueOk, BlockOk, TotalsOk, Hashes, Waiting;
  }

  lemma FiledOrphans(s: Setup, orphans: map<Txid, Orphan>, dependers: map<Txid, seq<Txid>>)
    requires Filed(s, orphans, dependers)
    ensures forall k :: k in orphans ==> s.Eligible(k)
  {
    forall k | k in orphans ensures s.Eligible(k) { assert IsOrphan(s, k); }
  }

  lemma SameBlock(s: Setup, v: Work, u: Work)
    requires BlockOk(s, v) && TotalsOk(s, v) && u == v.(orphans := u.orphans, queue := u.queue)
    ensures BlockOk(s, u) && TotalsOk(s, u)
  {
    hide Hashes, Applies, ViewAfter, AccountIs, BlockSigOps, Sum, Sizes, DistinctTxs;
  }

  lemma InputsAvailable(view: View, tx: Tx)
    requires HaveInputs(view, tx) && !tx.fCoinBase
    ensures forall i :: 0 <= i < |tx.vin| ==> Available(view, tx.vin[i])
  {
  }

  /** The selection of transactions for a block. */
  method SelectTransactions(s: Setup) returns (w: Work, ghost done: set<Txid>)
    requires s.Valid()
    ensures Inv(s, w, done) && Justified(s, w.vtx, done) && w.queue == []
  {
    hide Inv, Waiting, Takes, Less;
    w := Collect(s);
    done := {};
    hide Justified, GoesFirst, TurnsToFee;
    NothingRefused(s);
    while w.queue != []
      invariant Inv(s, w, done) && Justified(s, w.vtx, done)
      decreases |w.queue| + |Waiting(w.orphans)|
    {
      var u, top := Turn(s, w, done);
      w, done := u, done + {top.tx.hash};
    }
  }

  /** Who may be chosen at all: final transactions that are neither coin base nor coin stake, with every input
      from a transaction that the chain still has coins of, or that is in the pool. */
  lemma EligibleMeans(s: Setup, k: Txid)
    ensures s.Eligible(k) <==>
      && k in s.pool && s.pool[k].fFinal && !s.pool[k].fCoinBase && !s.pool[k].fCoinStake
      && forall p :: p in s.pool[k].vin ==> p.hash in s.pool || (p.hash in s.chain && !s.chain[p.hash].IsPruned())
  {
    if k in s.pool {
      var vin := s.pool[k].vin;
      forall i | 0 <= i < |vin| ensures vin[i] in vin {}
      if s.Eligible(k) {
        forall p | p in vin ensures p.hash in s.pool || (p.hash in s.chain && !s.chain[p.hash].IsPruned()) {
          var i :| 0 <= i < |vin| && vin[i] == p;
          assert !s.Missing(k, i);
        }
      }
    }
  }

  /** And what it waits for: the transactions in the pool that the chain has no coins of. */
  lemma DependsOnMeans(s: Setup, k: Txid, h: Txid)
    requires s.Eligible(k)
    ensures h in s.DependsOn(k) <==>
      && h in s.pool && !(h in s.chain && !s.chain[h].IsPruned())
      && exists p :: p in s.pool[k].vin && p.hash == h
  {
    var vin := s.pool[k].vin;
    forall i | 0 <= i < |vin| ensures vin[i] in vin && !s.Missing(k, i) {}
    assert forall p :: p in vin ==> exists i :: 0 <= i < |vin| && vin[i] == p;
  }

  lemma NothingRefused(s: Setup)
    ensures Justified(s, [], {})
  {
  }

  /** What the selection yields: every chosen transaction once, from the pool and after those it
      depends on; its fee is the value it leaves over where it stands, its signature operations
      are those it has there, and its inputs were checked there; the totals are those of the
      chosen and within the limits. A transaction that was never looked at waits for one that is
      not in the block, and one that was looked at is in the block or was refused for a reason. */
  lemma SelectionIsSound(s: Setup, w: Work, done: set<Txid>)
    requires s.Valid() && Inv(s, w, done) && Justified(s, w.vtx, done) && w.queue == []
    ensures DistinctTxs(w.vtx) && Applies(s.chain, w.vtx, s.nHeight, s.unspendable)
    ensures forall i :: 0 <= i < |w.vtx| ==> s.Eligible(w.vtx[i].hash) && s.pool[w.vtx[i].hash] == w.vtx[i]
    ensures forall i, p :: 0 <= i < |w.vtx| && p in w.vtx[i].vin && !HaveCoins(s.chain, p.hash) ==>
      exists j :: 0 <= j < i && w.vtx[j].hash == p.hash
    ensures |w.fees| == |w.vtx| == |w.sigOps| && w.nFees == Sum(w.fees)
    ensures forall i :: 0 <= i < |w.vtx| ==> AccountIs(s, w.vtx, i, w.fees[i], w.sigOps[i])
    ensures w.nBlockSize == 1000 + Sum(Sizes(w.vtx)) && (w.vtx != [] ==> w.nBlockSize < s.MaxSize())
    ensures w.nBlockSigOps == 100 + Sum(w.sigOps) == BlockSigOps(s, w.vtx) < 20000
    ensures forall k :: s.Eligible(k) && k in done && k !in Hashes(w.vtx) ==>
      exists i: nat :: i <= |w.vtx| && RefusedAt(s, w.vtx, k, i)
    ensures forall k :: s.Eligible(k) ==> (k !in done <==> s.DependsOn(k) - Hashes(w.vtx) != {})
  {
    forall i, p | 0 <= i < |w.vtx| && p in w.vtx[i].vin && !HaveCoins(s.chain, p.hash)
      ensures exists j :: 0 <= j < i && w.vtx[j].hash == p.hash
    {
      ParentBefore(s, w, i, p);
    }
    hide BlockOk, TotalsOk, Hashes;
    forall k | s.Eligible(k) ensures k !in done <==> s.DependsOn(k) - Hashes(w.vtx) != {} {
      NeverLookedAt(s, w, done, k);
    }
  }

  lemma ParentBefore(s: Setup, w: Work, i: nat, p: OutPoint)
    requires BlockOk(s, w) && i < |w.vtx| && p in w.vtx[i].vin && !HaveCoins(s.chain, p.hash)
    ensures exists j :: 0 <= j < i && w.vtx[j].hash == p.hash
  {
    hide HaveCoins, Applies, ViewAfter;
    var k := w.vtx[i].hash;
    var m :| 0 <= m < |w.vtx[i].vin| && w.vtx[i].vin[m] == p;
    assert s.pool[k].vin[m].hash in s.DependsOn(k);
    assert p.hash in Hashes(w.vtx[..i]);
    var j :| 0 <= j < i && w.vtx[..i][j].hash == p.hash;
    assert w.vtx[j] == w.vtx[..i][j];
  }

  lemma NeverLookedAt(s: Setup, w: Work, done: set<Txid>, k: Txid)
    requires Partition(s, w.queue, Waiting(w.orphans), done) && w.queue == []
    requires Filed(s, w.orphans, w.dependers) && WaitFor(s, w.orphans, Hashes(w.vtx)) && s.Eligible(k)
    ensures k !in done <==> s.DependsOn(k) - Hashes(w.vtx) != {}
  {
    hide Hashes;
    assert Ids(w.queue) == {};
    assert k in w.orphans <==> IsOrphan(s, k);
  }

  /** No output is spent by two of the chosen, when nothing in the pool is already in the chain. */
  lemma SelectionSpendsOnce(s: Setup, w: Work, done: set<Txid>, i: nat, j: nat)
    requires s.Valid() && Inv(s, w, done) && i < j < |w.vtx|
    requires forall k :: k in s.pool ==> forall n: nat :: !Available(s.chain, OutPoint(k, n))
    ensures forall p :: p in w.vtx[i].vin ==> p !in w.vtx[j].vin
  {
    hide Applies, ViewAfter, Available, Hashes, Partition, QueueOk, WaitFor, Filed, TotalsOk;
    NoDoubleSpend(s.chain, w.vtx, s.nHeight, s.unspendable, i, j);
  }
}
