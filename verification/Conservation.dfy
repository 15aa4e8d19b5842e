/**
 Conservation of value: what applying transactions to the unspent outputs takes away from their total is
 the fees, and what is paid to outputs that nobody can spend.
 */
module Conservation {
  import opened Common
  import opened Coins
  import opened BlockView
  import Miner

  // ------------------------------------------------------------ the total of a view

  /** The value of the outputs that are not spent. */
  ghost function Unspent(vout: seq<TxOut>): int {
    if vout == [] then 0
    else Unspent(vout[..|vout| - 1]) + (if vout[|vout| - 1].IsNull() then 0 else vout[|vout| - 1].nValue)
  }

  ghost function SumOver(keys: set<Txid>, view: View): int
    requires keys <= view.Keys
  {
    if keys == {} then 0
    else
      var k := Pick(keys);
      Unspent(view[k].vout) + SumOver(keys - {k}, view)
  }

  ghost function Pick(keys: set<Txid>): (k: Txid)
    requires keys != {}
    ensures k in keys
  {
    assert (forall k :: k !in keys) ==> keys == {};
    var k :| k in keys;
    k
  }

  ghost function Total(view: View): int { SumOver(view.Keys, view) }

  lemma {:induction false} SumTakes(keys: set<Txid>, view: View, k: Txid)
    requires keys <= view.Keys && k in keys
    ensures SumOver(keys, view) == Unspent(view[k].vout) + SumOver(keys - {k}, view)
    decreases keys
  {
    var p := Pick(keys);
    if p != k {
      SumTakes(keys - {p}, view, k);
      SumTakes(keys - {k}, view, p);
      assert keys - {p} - {k} == keys - {k} - {p};
    }
  }

  lemma {:induction false} SumSame(keys: set<Txid>, view: View, after: View)
    requires keys <= view.Keys && keys <= after.Keys && forall k :: k in keys ==> after[k].vout == view[k].vout
    ensures SumOver(keys, after) == SumOver(keys, view)
    decreases keys
  {
    if keys != {} { SumSame(keys - {Pick(keys)}, view, after); }
  }

  /** Changing the coins of one transaction changes the total by as much as theirs. */
  lemma TotalChanges(view: View, k: Txid, c: Coins)
    ensures Total(view[k := c]) == Total(view) - (if k in view then Unspent(view[k].vout) else 0) + Unspent(c.vout)
  {
    var after := view[k := c];
    var rest := view.Keys - {k};
    SumTakes(after.Keys, after, k);
    assert after.Keys - {k} == rest;
    SumSame(rest, view, after);
    if k in view {
      SumTakes(view.Keys, view, k);
    } else {
      assert rest == view.Keys;
    }
  }

  // ------------------------------------------------------------ one output, one transaction

  lemma {:induction false} UnspentSet(vout: seq<TxOut>, n: nat)
    requires n < |vout| && !vout[n].IsNull()
    ensures Unspent(vout[n := NULL_OUT]) == Unspent(vout) - vout[n].nValue
  {
    var after := vout[n := NULL_OUT];
    var last := |vout| - 1;
    if n == last {
      assert after[..last] == vout[..last];
    } else {
      UnspentSet(vout[..last], n);
      assert after[..last] == vout[..last][n := NULL_OUT];
    }
  }

  lemma {:induction false} UnspentTrimmed(vout: seq<TxOut>)
    ensures Unspent(TrimNulls(vout)) == Unspent(vout)
  {
    if vout != [] && vout[|vout| - 1].IsNull() { UnspentTrimmed(vout[..|vout| - 1]); }
  }

  lemma SpendTakes(view: View, o: OutPoint)
    requires Available(view, o)
    ensures Total(SpendOne(view, o)) == Total(view) - view[o.hash].vout[o.n].nValue
  {
    var c := view[o.hash];
    UnspentSet(c.vout, o.n);
    UnspentTrimmed(c.vout[o.n := NULL_OUT]);
    TotalChanges(view, o.hash, Spent(c, o.n));
  }

  lemma {:induction false} SpendFirstTakes(view: View, vin: seq<OutPoint>, n: nat)
    requires n <= |vin|
    requires forall i :: 0 <= i < |vin| ==> Available(view, vin[i])
    requires forall i, j :: 0 <= i < j < |vin| ==> vin[i] != vin[j]
    ensures Total(SpendFirst(view, vin, n)) == Total(view) - Miner.ValueIn(view, vin[..n])
  {
    if n > 0 {
      var v := SpendFirst(view, vin, n - 1);
      var o := vin[n - 1];
      SpendFirstTakes(view, vin, n - 1);
      SpendNext(view, v, vin, n);
      SpendFirstKeeps(view, vin, n - 1, o);
      SpendTakes(v, o);
      assert vin[..n][..n - 1] == vin[..n - 1] && vin[..n][n - 1] == o;
    }
  }

  /** What a transaction pays to outputs that count for nothing: unspendable ones. */
  ghost function Burnt(vout: seq<TxOut>, unspendable: seq<Byte> -> bool): int {
    if vout == [] then 0
    else
      var o := vout[|vout| - 1];
      Burnt(vout[..|vout| - 1], unspendable) + (if unspendable(o.script) || o.IsNull() then o.nValue else 0)
  }

  lemma {:induction false} UnspentNew(vout: seq<TxOut>, unspendable: seq<Byte> -> bool)
    ensures Unspent(Spendable(vout, unspendable)) == Miner.ValueOut(vout) - Burnt(vout, unspendable)
  {
    if vout != [] {
      UnspentNew(vout[..|vout| - 1], unspendable);
      assert Spendable(vout, unspendable)[..|vout| - 1] == Spendable(vout[..|vout| - 1], unspendable);
    }
  }

  /** Applying a transaction takes its fee out of the total, and what it pays to nobody. */
  lemma ApplyTakesFee(view: View, tx: Tx, nHeight: int, unspendable: seq<Byte> -> bool)
    requires !tx.fCoinBase && HaveInputs(view, tx) && DistinctInputs(tx)
    requires forall n: nat :: !Available(view, OutPoint(tx.hash, n))
    ensures
      Total(UpdateCoins(view, tx, nHeight, unspendable)) ==
      Total(view) - (Miner.ValueIn(view, tx.vin) - Miner.ValueOut(tx.vout)) - Burnt(tx.vout, unspendable)
  {
    var v := SpendFirst(view, tx.vin, |tx.vin|);
    SpendFirstTakes(view, tx.vin, |tx.vin|);
    assert tx.vin[..|tx.vin|] == tx.vin;
    var c := FromTx(tx, nHeight, unspendable);
    TotalChanges(v, tx.hash, c);
    NothingThere(v, tx.hash);
    UnspentNew(tx.vout, unspendable);
    UnspentTrimmed(Spendable(tx.vout, unspendable));
    assert c.vout == TrimNulls(Spendable(tx.vout, unspendable));
  }

  lemma NothingThere(v: View, h: Txid)
    requires forall n: nat :: !Available(v, OutPoint(h, n))
    ensures h in v ==> Unspent(v[h].vout) == 0
  {
    if h in v {
      forall n: nat | n < |v[h].vout| ensures v[h].vout[n].IsNull() { assert !Available(v, OutPoint(h, n)); }
      AllNull(v[h].vout);
    }
  }

  lemma {:induction false} AllNull(vout: seq<TxOut>)
    requires forall i :: 0 <= i < |vout| ==> vout[i].IsNull()
    ensures Unspent(vout) == 0
  {
    if vout != [] { AllNull(vout[..|vout| - 1]); }
  }

  // ------------------------------------------------------------ a block

  ghost function BurntBy(txs: seq<Tx>, unspendable: seq<Byte> -> bool): int {
    if txs == [] then 0
    else BurntBy(txs[..|txs| - 1], unspendable) + Burnt(txs[|txs| - 1].vout, unspendable)
  }

  /** A transaction that comes after others, and is not in the chain, is not in what they leave. */
  lemma NotThereYet(s: Miner.Setup, txs: seq<Tx>, tx: Tx)
    requires Applies(s.chain, txs, s.nHeight, s.unspendable)
    requires forall i :: 0 <= i < |txs| ==> txs[i].hash != tx.hash
    requires forall n: nat :: !Available(s.chain, OutPoint(tx.hash, n))
    ensures forall n: nat :: !Available(ViewAfter(s.chain, txs, s.nHeight, s.unspendable), OutPoint(tx.hash, n))
  {
    hide Available, ViewAfter;
    forall n: nat
      ensures !Available(ViewAfter(s.chain, txs, s.nHeight, s.unspendable), OutPoint(tx.hash, n))
    {
      if Available(ViewAfter(s.chain, txs, s.nHeight, s.unspendable), OutPoint(tx.hash, n)) {
        CreatedBefore(s.chain, txs, s.nHeight, s.unspendable, OutPoint(tx.hash, n));
        assert false;
      }
    }
  }

  lemma {:induction false} BlockTakesFees(s: Miner.Setup, txs: seq<Tx>, fees: seq<int>, sigOps: seq<nat>)
    requires Applies(s.chain, txs, s.nHeight, s.unspendable) && DistinctTxs(txs) && |fees| == |txs| == |sigOps|
    requires forall i :: 0 <= i < |txs| ==> Miner.AccountIs(s, txs, i, fees[i], sigOps[i])
    requires forall i :: 0 <= i < |txs| ==> forall n: nat :: !Available(s.chain, OutPoint(txs[i].hash, n))
    ensures
      Total(ViewAfter(s.chain, txs, s.nHeight, s.unspendable)) ==
      Total(s.chain) - Miner.Sum(fees) - BurntBy(txs, s.unspendable)
    decreases |txs|
  {
    hide Available, UpdateCoins, Total, Burnt, HaveInputs;
    if txs != [] {
      var n := |txs| - 1;
      var front, tx := txs[..n], txs[n];
      assert txs == front + [tx];
      hide Miner.ValueIn, Miner.ValueOut;
      forall i | 0 <= i < n
        ensures Miner.AccountIs(s, front, i, fees[..n][i], sigOps[..n][i])
        ensures forall m: nat :: !Available(s.chain, OutPoint(front[i].hash, m))
      {
        Miner.AccountKept(s, front, tx, i, fees[i], sigOps[i]);
        assert front[i] == txs[i];
      }
      BlockTakesFees(s, front, fees[..n], sigOps[..n]);
      forall i | 0 <= i < n ensures front[i].hash != tx.hash { assert front[i] == txs[i]; }
      NotThereYet(s, front, tx);
      ApplyTakesFee(ViewAfter(s.chain, front, s.nHeight, s.unspendable), tx, s.nHeight, s.unspendable);
      assert Miner.AccountIs(s, txs, n, fees[n], sigOps[n]);
    }
  }

  /** The selection for a block makes no money: what is unspent after the block and the recorded fees are
      what was unspent before, but for what is paid to nobody. */
  lemma SelectionConserves(s: Miner.Setup, w: Miner.Work, done: set<Txid>)
    requires s.Valid() && Miner.Inv(s, w, done)
    requires forall k :: k in s.pool ==> forall n: nat :: !Available(s.chain, OutPoint(k, n))
    ensures Total(w.view) + w.nFees + BurntBy(w.vtx, s.unspendable) == Total(s.chain)
  {
    hide Available, Applies, ViewAfter, Total, BurntBy;
    assert Miner.BlockOk(s, w) && Miner.TotalsOk(s, w);
    forall i | 0 <= i < |w.vtx| ensures forall n: nat :: !Available(s.chain, OutPoint(w.vtx[i].hash, n)) {
      assert s.Eligible(w.vtx[i].hash);
    }
    BlockTakesFees(s, w.vtx, w.fees, w.sigOps);
  }
}
