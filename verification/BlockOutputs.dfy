/** The outputs of the transaction that pays a block's reward. */
module BlockOutputs {
  import opened Common
  import opened Coins

  type Script = seq<Byte>
  type Hash = nat

  /** A new output with a script and a value. */
  function Paying(script: Script, nValue: int): TxOut { NULL_OUT.(nValue := nValue, script := script) }

  function Resized(vout: seq<TxOut>, n: nat): (r: seq<TxOut>)
    ensures |r| == n && forall i :: 0 <= i < n ==> r[i] == if i < |vout| then vout[i] else NULL_OUT
    decreases n
  {
    if n <= |vout| then vout[..n] else Resized(vout, n - 1) + [NULL_OUT]
  }

  function Total(vout: seq<TxOut>): int {
    if vout == [] then 0 else Total(vout[..|vout| - 1]) + vout[|vout| - 1].nValue
  }

  predicate Pays(vout: seq<TxOut>, script: Script, required: int) {
    exists k :: 0 <= k < |vout| && vout[k].script == script && vout[k].nValue >= required
  }

  predicate PaysExactly(vout: seq<TxOut>, script: Script, amount: int) {
    exists k :: 0 <= k < |vout| && vout[k].script == script && vout[k].nValue == amount
  }

  /** A payment moved from the last output to a new one leaves the total. */
  lemma TotalSplit(vout: seq<TxOut>, payee: Script, amount: int)
    requires vout != []
    ensures
      var last := vout[|vout| - 1];
      Total(vout[|vout| - 1 := last.(nValue := last.nValue - amount)] + [Paying(payee, amount)]) == Total(vout)
  {
    var n := |vout| - 1;
    var cut := vout[n := vout[n].(nValue := vout[n].nValue - amount)];
    assert (cut + [Paying(payee, amount)])[..n + 1] == cut;
    assert cut[..n] == vout[..n];
  }

  lemma TotalOfTwo(a: TxOut, b: TxOut)
    ensures Total([a, b]) == a.nValue + b.nValue
  {
    assert [a, b][..1] == [a];
    assert Total([a]) == Total([]) + a.nValue by { assert [a][..0] == []; }
  }
}
