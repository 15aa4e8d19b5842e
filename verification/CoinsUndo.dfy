/** Spending one output of a transaction and taking the spending back. */
module CoinsUndo {
  import opened Common
  import opened Coins

  datatype TxInUndo = TxInUndo(txout: TxOut, fCoinBase: bool, fCoinStake: bool, nHeight: int, nVersion: int)

  /** CCoins::Spend, with the undo information it yields; nothing for an output that is not there. */
  function Spend(c: Coins, n: nat): Option<(Coins, TxInUndo)> {
    if n >= |c.vout| then None
    else if c.vout[n].IsNull() then None
    else
      var d := c.(vout := c.vout[n := NULL_OUT]).Cleanup();
      Some((d, if d.vout == [] then TxInUndo(c.vout[n], c.fCoinBase, c.fCoinStake, c.nHeight, c.nVersion)
               else TxInUndo(c.vout[n], false, false, 0, 0)))
  }

  /** The restoring of one input when a block is disconnected, and whether it found the coins as
      expected. The coin-stake flag of the undo information is not used. */
  function Restore(coins: Coins, n: nat, undo: TxInUndo): (Coins, bool) {
    var c := if undo.nHeight != 0 then Coins(undo.fCoinBase, false, [], undo.nHeight, undo.nVersion) else coins;
    var fClean := (if undo.nHeight != 0 then coins.IsPruned() else !coins.IsPruned()) && !c.IsAvailable(n);
    var vout := if |c.vout| < n + 1 then c.vout + seq(n + 1 - |c.vout|, i => NULL_OUT) else c.vout;
    (c.(vout := vout[n := undo.txout]), fClean)
  }

  /** What a view has for a transaction: nothing once it is entirely spent. */
  function InView(c: Coins): Coins { if c.vout == [] then NO_COINS else c }

  ghost predicate Canonical(c: Coins) {
    c.IsClean() && forall i :: 0 <= i < |c.vout| && c.vout[i].IsNull() ==> c.vout[i] == NULL_OUT
  }

  lemma SpendSpec(c: Coins, n: nat)
    requires c.IsAvailable(n) && Canonical(c)
    ensures
      var d := Spend(c, n).value.0;
      && |d.vout| <= |c.vout| && (|d.vout| <= n ==> n == |c.vout| - 1)
      && (forall i :: 0 <= i < |d.vout| && i != n ==> d.vout[i] == c.vout[i])
      && (forall i :: |d.vout| <= i < |c.vout| && i != n ==> c.vout[i] == NULL_OUT)
      && (|d.vout| > n ==> |d.vout| == |c.vout| && d.vout[n] == NULL_OUT)
  {
    var t := c.vout[n := NULL_OUT];
    var r := TrimNulls(t);
    assert forall i :: |r| <= i < |t| ==> t[i].IsNull();
    hide TrimNulls;
    if n < |c.vout| - 1 {
      assert t[|t| - 1] == c.vout[|c.vout| - 1];
      assert |r| == |t|;
    }
  }

  /** Another output than n is left to spend. */
  predicate OthersLeft(c: Coins, n: nat) { exists i :: 0 <= i < |c.vout| && i != n && !c.vout[i].IsNull() }

  lemma LeftAfterSpend(c: Coins, n: nat)
    requires c.IsAvailable(n) && Canonical(c)
    ensures Spend(c, n).value.0.vout != [] <==> OthersLeft(c, n)
    ensures Spend(c, n).value.1 == if OthersLeft(c, n) then TxInUndo(c.vout[n], false, false, 0, 0)
                                   else TxInUndo(c.vout[n], c.fCoinBase, c.fCoinStake, c.nHeight, c.nVersion)
  {
    var t := c.vout[n := NULL_OUT];
    var r := TrimNulls(t);
    hide TrimNulls;
    if r != [] {
      var k := |r| - 1;
      assert r[k] == t[k] && !t[k].IsNull() && k != n;
    }
    forall i | 0 <= i < |c.vout| && i != n && !c.vout[i].IsNull() ensures r != [] { assert t[i] == c.vout[i]; }
  }

  /** Taking back the spending of an output restores the coins if and only if there is another
      output left to spend, or else nothing that the undo path drops: it never restores the
      coin-stake flag, and for height zero it restores no flags and no version either. */
  lemma RestoreAfterSpend(c: Coins, n: nat)
    requires c.IsAvailable(n) && Canonical(c)
    ensures
      var (d, undo) := Spend(c, n).value;
      Restore(InView(d), n, undo).0 == c <==>
        OthersLeft(c, n) || (!c.fCoinStake && (c.nHeight != 0 || (!c.fCoinBase && c.nVersion == 0)))
  {
    var (d, undo) := Spend(c, n).value;
    SpendSpec(c, n);
    LeftAfterSpend(c, n);
    hide OthersLeft;
    var r := Restore(InView(d), n, undo).0;
    assert |r.vout| == |c.vout|;
    assert r.vout == c.vout;
  }

  /** The restoring reports the coins as clean if and only if there is another output left, or the
      height is not zero. */
  lemma RestoreIsClean(c: Coins, n: nat)
    requires c.IsAvailable(n) && Canonical(c)
    ensures
      var (d, undo) := Spend(c, n).value;
      Restore(InView(d), n, undo).1 <==> OthersLeft(c, n) || c.nHeight != 0
  {
    var (d, undo) := Spend(c, n).value;
    SpendSpec(c, n);
    LeftAfterSpend(c, n);
    hide OthersLeft;
    CleanupKeeps(c.(vout := c.vout[n := NULL_OUT]), n);
  }
}
