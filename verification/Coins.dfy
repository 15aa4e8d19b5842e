/** The unspent outputs of one transaction, as far as the caches above them care. */
module Coins {
  import opened Common

  datatype TxOut = TxOut(nValue: int, script: seq<Byte>, nRounds: int) {
    predicate IsNull() { nValue == -1 }
  }

  const NULL_OUT := TxOut(-1, [], -10)

  datatype Coins = Coins(fCoinBase: bool, fCoinStake: bool, vout: seq<TxOut>, nHeight: int, nVersion: int) {
    predicate IsPruned() { forall i :: 0 <= i < |vout| ==> vout[i].IsNull() }

    predicate IsAvailable(n: nat) { n < |vout| && !vout[n].IsNull() }

    /** No spent output at the end. */
    predicate IsClean() { vout == [] || !vout[|vout| - 1].IsNull() }

    function Cleanup(): Coins { this.(vout := TrimNulls(vout)) }
  }

  const NO_COINS := Coins(false, false, [], 0, 0)

  function TrimNulls(vout: seq<TxOut>): (r: seq<TxOut>)
    ensures r <= vout
    ensures r == [] || !r[|r| - 1].IsNull()
    ensures forall i :: |r| <= i < |vout| ==> vout[i].IsNull()
  {
    if vout != [] && vout[|vout| - 1].IsNull() then TrimNulls(vout[..|vout| - 1]) else vout
  }

  /** Cleaning up leaves every output as available as it was, and only an entirely spent
      transaction without outputs. */
  lemma CleanupKeeps(c: Coins, n: nat)
    ensures c.Cleanup().IsAvailable(n) == c.IsAvailable(n)
    ensures c.IsAvailable(n) ==> c.Cleanup().vout[n] == c.vout[n]
    ensures c.Cleanup().IsPruned() == c.IsPruned()
    ensures c.Cleanup().IsClean()
    ensures c.Cleanup().IsPruned() <==> c.Cleanup().vout == []
  {
    var r := TrimNulls(c.vout);
    if r != [] {
      var k := |r| - 1;
      assert !r[k].IsNull() && c.vout[k] == r[k];
    }
  }
}
