/** Applying transactions to a view of the unspent outputs. */
module BlockView {
  import opened Common
  import opened Coins
  import CoinsUndo

  type Txid = int

  datatype OutPoint = OutPoint(hash: Txid, n: nat)

  /** nSize and nSigOps are the serialised size and the legacy signature operation count. */
  datatype Tx = Tx(hash: Txid, vin: seq<OutPoint>, vout: seq<TxOut>, nVersion: int, nSize: nat, nSigOps: nat,
                   fCoinBase: bool, fCoinStake: bool, fFinal: bool)

  type View = map<Txid, Coins>

  predicate HaveCoins(view: View, hash: Txid) { hash in view && !view[hash].IsPruned() }

  predicate Available(view: View, o: OutPoint) { o.hash in view && view[o.hash].IsAvailable(o.n) }

  predicate HaveInputs(view: View, tx: Tx) {
    tx.fCoinBase || forall i :: 0 <= i < |tx.vin| ==> Available(view, tx.vin[i])
  }

  function Spent(c: Coins, n: nat): Coins
    requires c.IsAvailable(n)
  {
    CoinsUndo.Spend(c, n).value.0
  }

  function SpendOne(view: View, o: OutPoint): View
    requires Available(view, o)
  {
    view[o.hash := Spent(view[o.hash], o.n)]
  }

  lemma SpendOneSpec(view: View, o: OutPoint, p: OutPoint)
    requires Available(view, o)
    ensures Available(SpendOne(view, o), p) <==> Available(view, p) && p != o
    ensures Available(SpendOne(view, o), p) ==> SpendOne(view, o)[p.hash].vout[p.n] == view[p.hash].vout[p.n]
  {
    var c := view[o.hash];
    var d := c.(vout := c.vout[o.n := NULL_OUT]);
    CleanupKeeps(d, p.n);
  }

  // ------------------------------------------------------------ UpdateCoins

  /** CCoins::FromTx: outputs that nobody can spend are nulled at once. */
  function FromTx(tx: Tx, nHeight: int, unspendable: seq<Byte> -> bool): Coins {
    Coins(tx.fCoinBase, tx.fCoinStake, Spendable(tx.vout, unspendable), nHeight, tx.nVersion).Cleanup()
  }

  /** ClearUnspendable */
  function Spendable(vout: seq<TxOut>, unspendable: seq<Byte> -> bool): seq<TxOut> {
    seq(|vout|, i requires 0 <= i < |vout| => if unspendable(vout[i].script) then NULL_OUT else vout[i])
  }

  ghost predicate DistinctInputs(tx: Tx) {
    forall i, j :: 0 <= i < j < |tx.vin| ==> tx.vin[i] != tx.vin[j]
  }

  function SpendFirst(view: View, vin: seq<OutPoint>, n: nat): View
    requires n <= |vin|
    requires forall i :: 0 <= i < n ==> Available(view, vin[i])
    requires forall i, j :: 0 <= i < j < |vin| ==> vin[i] != vin[j]
    ensures forall p :: Available(SpendFirst(view, vin, n), p) <==> Available(view, p) && p !in vin[..n]
  {
    if n == 0 then view
    else
      var v := SpendFirst(view, vin, n - 1);
      SpendNext(view, v, vin, n);
      SpendOne(v, vin[n - 1])
  }

  lemma SpendNext(view: View, v: View, vin: seq<OutPoint>, n: nat)
    requires 0 < n <= |vin| && Available(view, vin[n - 1])
    requires forall i, j :: 0 <= i < j < |vin| ==> vin[i] != vin[j]
    requires forall p :: Available(v, p) <==> Available(view, p) && p !in vin[..n - 1]
    ensures Available(v, vin[n - 1])
    ensures forall p :: Available(SpendOne(v, vin[n - 1]), p) <==> Available(view, p) && p !in vin[..n]
  {
    hide Available, SpendOne;
    forall i | 0 <= i < n - 1 ensures vin[i] != vin[n - 1] {}
    assert vin[n - 1] !in vin[..n - 1];
    forall p ensures Available(SpendOne(v, vin[n - 1]), p) <==> Available(view, p) && p !in vin[..n] {
      SpendOneSpec(v, vin[n - 1], p);
      assert vin[..n] == vin[..n - 1] + [vin[n - 1]];
    }
  }

  function UpdateCoins(view: View, tx: Tx, nHeight: int, unspendable: seq<Byte> -> bool): View
    requires tx.fCoinBase || (HaveInputs(view, tx) && forall i, j :: 0 <= i < j < |tx.vin| ==> tx.vin[i] != tx.vin[j])
  {
    var v := if tx.fCoinBase then view else SpendFirst(view, tx.vin, |tx.vin|);
    v[tx.hash := FromTx(tx, nHeight, unspendable)]
  }

  /** The loop of UpdateCoins. Its assertion that every input can be spent holds. */
  method ApplyTx(view: View, tx: Tx, nHeight: int, unspendable: seq<Byte> -> bool) returns (after: View)
    requires tx.fCoinBase || (HaveInputs(view, tx) && DistinctInputs(tx))
    ensures after == UpdateCoins(view, tx, nHeight, unspendable)
  {
    after := view;
    if !tx.fCoinBase {
      after := SpendInputs(view, tx.vin);
    }
    after := after[tx.hash := FromTx(tx, nHeight, unspendable)];
  }

  method SpendInputs(view: View, vin: seq<OutPoint>) returns (after: View)
    requires forall i :: 0 <= i < |vin| ==> Available(view, vin[i])
    requires forall i, j :: 0 <= i < j < |vin| ==> vin[i] != vin[j]
    ensures after == SpendFirst(view, vin, |vin|)
  {
    hide SpendOne, Available;
    after := view;
    for i := 0 to |vin|
      invariant after == SpendFirst(view, vin, i)
    {
      SpendNext(view, after, vin, i + 1);
      assert Available(after, vin[i]);
      after := SpendOne(after, vin[i]);
    }
  }

  /** After a transaction exactly its inputs are gone and its spendable outputs are new. */
  lemma UpdateCoinsSpec(view: View, tx: Tx, nHeight: int, unspendable: seq<Byte> -> bool, p: OutPoint)
    requires !tx.fCoinBase && HaveInputs(view, tx) && DistinctInputs(tx)
    ensures
      Available(UpdateCoins(view, tx, nHeight, unspendable), p) <==>
      if p.hash == tx.hash then p.n < |tx.vout| && !unspendable(tx.vout[p.n].script) && !tx.vout[p.n].IsNull()
      else Available(view, p) && p !in tx.vin
  {
    if p.hash == tx.hash {
      var c := Coins(tx.fCoinBase, tx.fCoinStake, Spendable(tx.vout, unspendable), nHeight, tx.nVersion);
      CleanupKeeps(c, p.n);
    } else {
      hide SpendFirst;
      var v := SpendFirst(view, tx.vin, |tx.vin|);
      assert tx.vin[..|tx.vin|] == tx.vin;
      assert Available(UpdateCoins(view, tx, nHeight, unspendable), p) == Available(v, p);
    }
  }

  /** Coins with the same flags, height and version. */
  predicate SameHeader(c: Coins, d: Coins) {
    c.fCoinBase == d.fCoinBase && c.fCoinStake == d.fCoinStake && c.nHeight == d.nHeight && c.nVersion == d.nVersion
  }

  lemma {:induction false} SpendFirstKeeps(view: View, vin: seq<OutPoint>, n: nat, p: OutPoint)
    requires n <= |vin|
    requires forall i :: 0 <= i < n ==> Available(view, vin[i])
    requires forall i, j :: 0 <= i < j < |vin| ==> vin[i] != vin[j]
    requires Available(SpendFirst(view, vin, n), p)
    ensures Available(view, p)
    ensures SpendFirst(view, vin, n)[p.hash].vout[p.n] == view[p.hash].vout[p.n]
    ensures SameHeader(SpendFirst(view, vin, n)[p.hash], view[p.hash])
  {
    if n > 0 {
      var v := SpendFirst(view, vin, n - 1);
      SpendNext(view, v, vin, n);
      SpendOneSpec(v, vin[n - 1], p);
      SpendFirstKeeps(view, vin, n - 1, p);
    }
  }

  /** The new outputs are those of the transaction, at its height; what is left of others is what it was. */
  lemma UpdateCoinsKeeps(view: View, tx: Tx, nHeight: int, unspendable: seq<Byte> -> bool, p: OutPoint)
    requires !tx.fCoinBase && HaveInputs(view, tx) && DistinctInputs(tx)
    requires Available(UpdateCoins(view, tx, nHeight, unspendable), p)
    ensures
      var c := UpdateCoins(view, tx, nHeight, unspendable)[p.hash];
      if p.hash == tx.hash then
        && p.n < |tx.vout| && c.vout[p.n] == tx.vout[p.n]
        && SameHeader(c, Coins(false, tx.fCoinStake, [], nHeight, tx.nVersion))
      else Available(view, p) && c.vout[p.n] == view[p.hash].vout[p.n] && SameHeader(c, view[p.hash])
  {
    UpdateCoinsSpec(view, tx, nHeight, unspendable, p);
    if p.hash == tx.hash {
      var c := Coins(tx.fCoinBase, tx.fCoinStake, Spendable(tx.vout, unspendable), nHeight, tx.nVersion);
      CleanupKeeps(c, p.n);
    } else {
      SpendFirstKeeps(view, tx.vin, |tx.vin|, p);
    }
  }

  // ------------------------------------------------------------ a sequence of transactions

  /** Each transaction finds its inputs in the view that the ones before it left. */
  ghost predicate Applies(view: View, txs: seq<Tx>, nHeight: int, unspendable: seq<Byte> -> bool)
    decreases |txs|, 0
  {
    txs == [] ||
    (var n := |txs| - 1;
     && Applies(view, txs[..n], nHeight, unspendable)
     && !txs[n].fCoinBase && DistinctInputs(txs[n])
     && HaveInputs(ViewAfter(view, txs[..n], nHeight, unspendable), txs[n]))
  }

  ghost function ViewAfter(view: View, txs: seq<Tx>, nHeight: int, unspendable: seq<Byte> -> bool): View
    requires Applies(view, txs, nHeight, unspendable)
    decreases |txs|, 1
  {
    if txs == [] then view
    else
      var n := |txs| - 1;
      UpdateCoins(ViewAfter(view, txs[..n], nHeight, unspendable), txs[n], nHeight, unspendable)
  }

  ghost predicate DistinctTxs(txs: seq<Tx>) { forall i, j :: 0 <= i < j < |txs| ==> txs[i].hash != txs[j].hash }

  /** An outpoint of the view comes from the view before or from one of the transactions. */
  lemma {:induction false} CreatedBefore(view: View, txs: seq<Tx>, nHeight: int, unspendable: seq<Byte> -> bool,
                                         p: OutPoint)
    requires Applies(view, txs, nHeight, unspendable) && Available(ViewAfter(view, txs, nHeight, unspendable), p)
    ensures Available(view, p) || exists m :: 0 <= m < |txs| && txs[m].hash == p.hash
    decreases |txs|
  {
    hide UpdateCoins, Available, HaveInputs;
    if txs != [] {
      var n := |txs| - 1;
      UpdateCoinsSpec(ViewAfter(view, txs[..n], nHeight, unspendable), txs[n], nHeight, unspendable, p);
      if p.hash != txs[n].hash {
        CreatedBefore(view, txs[..n], nHeight, unspendable, p);
        assert forall m :: 0 <= m < n ==> txs[..n][m] == txs[m];
      }
    }
  }

  /** What one transaction has spent is not there for any later one. */
  lemma {:induction false} StaysSpent(view: View, txs: seq<Tx>, nHeight: int, unspendable: seq<Byte> -> bool, i: nat,
                                      p: OutPoint)
    requires Applies(view, txs, nHeight, unspendable) && DistinctTxs(txs)
    requires forall k :: 0 <= k < |txs| ==> forall n: nat :: !Available(view, OutPoint(txs[k].hash, n))
    requires i < |txs| && p in txs[i].vin
    ensures !Available(ViewAfter(view, txs, nHeight, unspendable), p)
    ensures forall k :: i <= k < |txs| ==> p.hash != txs[k].hash
    decreases |txs|
  {
    hide UpdateCoins, Available;
    var n := |txs| - 1;
    var before := txs[..n];
    var v := ViewAfter(view, before, nHeight, unspendable);
    assert forall k :: 0 <= k < n ==> before[k] == txs[k];
    if i == n {
      assert Available(v, p);
      CreatedBefore(view, before, nHeight, unspendable, p);
      NotOwn(view, txs, n, p);
    } else {
      StaysSpent(view, before, nHeight, unspendable, i, p);
      SpentEarlier(view, txs, nHeight, unspendable, i, p);
    }
    UpdateCoinsSpec(v, txs[n], nHeight, unspendable, p);
  }

  lemma NotOwn(view: View, txs: seq<Tx>, n: nat, p: OutPoint)
    requires n < |txs| && DistinctTxs(txs) && forall m: nat :: !Available(view, OutPoint(txs[n].hash, m))
    requires Available(view, p) || exists m :: 0 <= m < n && txs[m].hash == p.hash
    ensures p.hash != txs[n].hash
  {
    assert p == OutPoint(p.hash, p.n);
  }

  lemma {:induction false} SpentEarlier(view: View, txs: seq<Tx>, nHeight: int, unspendable: seq<Byte> -> bool, i: nat,
                                        p: OutPoint)
    requires Applies(view, txs, nHeight, unspendable) && DistinctTxs(txs)
    requires forall k :: 0 <= k < |txs| ==> forall n: nat :: !Available(view, OutPoint(txs[k].hash, n))
    requires i < |txs| && p in txs[i].vin
    ensures p.hash != txs[|txs| - 1].hash
    decreases |txs|
  {
    hide UpdateCoins, Available;
    var before := txs[..i];
    PrefixApplies(view, txs, nHeight, unspendable, i + 1);
    assert txs[..i + 1][..i] == before;
    var v := ViewAfter(view, before, nHeight, unspendable);
    assert Available(v, p);
    CreatedBefore(view, before, nHeight, unspendable, p);
    assert p == OutPoint(p.hash, p.n);
    assert forall k :: 0 <= k < i ==> before[k] == txs[k];
  }

  lemma {:induction false} PrefixApplies(view: View, txs: seq<Tx>, nHeight: int, unspendable: seq<Byte> -> bool, k: nat)
    requires Applies(view, txs, nHeight, unspendable) && k <= |txs|
    ensures Applies(view, txs[..k], nHeight, unspendable)
    decreases |txs|
  {
    hide HaveInputs;
    if k < |txs| {
      PrefixApplies(view, txs[..|txs| - 1], nHeight, unspendable, k);
      assert txs[..|txs| - 1][..k] == txs[..k];
    } else {
      assert txs[..k] == txs;
    }
  }

  /** No two transactions of a block spend the same output. */
  lemma NoDoubleSpend(view: View, txs: seq<Tx>, nHeight: int, unspendable: seq<Byte> -> bool, i: nat, j: nat)
    requires Applies(view, txs, nHeight, unspendable) && DistinctTxs(txs)
    requires forall k :: 0 <= k < |txs| ==> forall n: nat :: !Available(view, OutPoint(txs[k].hash, n))
    requires i < j < |txs|
    ensures forall p :: p in txs[i].vin ==> p !in txs[j].vin
  {
    hide UpdateCoins, Available;
    PrefixApplies(view, txs, nHeight, unspendable, j + 1);
    assert txs[..j + 1][..j] == txs[..j];
    forall p | p in txs[i].vin ensures p !in txs[j].vin {
      StaysSpent(view, txs[..j], nHeight, unspendable, i, p);
    }
  }
}
