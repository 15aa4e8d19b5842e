/** Who a block pays: the miner's choice between the budget and a masternode, and the check of it. */
module BlockPayee {
  import opened Common
  import opened Coins
  import opened BlockOutputs
  import opened MasternodeBudget
  import opened MasternodePayments

  /** Whether the node is synchronised, the sporks for budget blocks and for enforcing either kind
      of payment, and the number of enabled masternodes. */
  datatype Setting = Setting(fSynced: bool, fSuperblocks: bool, fEnforceBudget: bool, fEnforcePayment: bool,
                             nCount: nat)

  ghost predicate BudgetBlock(budgets: map<Hash, FinalizedBudget>, s: Setting, h: int) {
    s.fSuperblocks && SomeVoted(budgets, h, s.nCount / 20)
  }

  ghost predicate MasternodeAccepts(blocks: map<int, BlockPayees>, vout: seq<TxOut>, h: int, required: int) {
    h in blocks ==> PaymentAccepted(blocks[h].vecPayments, vout, required)
  }

  /** A node that requires no more than the amount accepts the outputs. */
  ghost predicate AcceptedUpTo(blocks: map<int, BlockPayees>, vout: seq<TxOut>, h: int, amount: int) {
    forall required :: required <= amount ==> MasternodeAccepts(blocks, vout, h, required)
  }

  /** vout are the outputs of the block's transaction that pays the reward. */
  method IsBlockPayeeValid(budget: BudgetManager, payments: MasternodePaymentVotes, s: Setting, vout: seq<TxOut>,
                           nBlockHeight: int, required: int)
    returns (ok: bool)
    ensures ok <==> (s.fSynced ==>
      if BudgetBlock(budget.mapFinalizedBudgets, s, nBlockHeight) then
        s.fEnforceBudget ==> Accepts(budget.mapFinalizedBudgets, vout, nBlockHeight, s.nCount)
      else
        s.fEnforcePayment ==> MasternodeAccepts(payments.mapMasternodeBlocks, vout, nBlockHeight, required))
  {
    hide SomeVoted, Accepts, PaymentAccepted;
    if !s.fSynced { return true; }
    if s.fSuperblocks {
      var isBudget := budget.IsBudgetPaymentBlock(nBlockHeight, s.nCount);
      if isBudget {
        var paid := budget.IsTransactionValid(vout, nBlockHeight, s.nCount);
        if paid { return true; }
        return !s.fEnforceBudget;
      }
    }
    var paid := payments.IsTransactionValid(vout, nBlockHeight, required);
    if paid { return true; }
    return !s.fEnforcePayment;
  }

  /** What the miner makes of the outputs for the block after `tip` passes the check of a node with
      the same votes: in a budget block if and only if there are ten masternodes or more, in any
      other whenever the payment is not less than what that node requires. */
  method FillBlockPayee(budget: BudgetManager, payments: MasternodePaymentVotes, s: Setting, vout: seq<TxOut>,
                        tip: Option<int>, winning: Option<Script>, blockValue: int, masternodePayment: int,
                          fProofOfStake: bool)
    returns (after: seq<TxOut>)
    requires payments.Valid() && vout != []
    ensures tip.None? ==> after == vout
    ensures tip.Some? && BudgetBlock(budget.mapFinalizedBudgets, s, tip.value + 1) ==>
      (Accepts(budget.mapFinalizedBudgets, after, tip.value + 1, s.nCount) <==> s.nCount >= 10)
    ensures tip.Some? && !BudgetBlock(budget.mapFinalizedBudgets, s, tip.value + 1) ==>
      AcceptedUpTo(payments.mapMasternodeBlocks, after, tip.value + 1, masternodePayment)
  {
    if tip.None? { return vout; }
    var nHeight := tip.value + 1;
    var isBudget := false;
    if s.fSuperblocks { isBudget := budget.IsBudgetPaymentBlock(nHeight, s.nCount); }
    if isBudget {
      ghost var k;
      after, k := budget.FillBlockPayee(vout, nHeight, blockValue, fProofOfStake);
      var m := budget.mapFinalizedBudgets;
      MoreIsSome(m, nHeight, s.nCount / 20);
      assert after[|after| - 1] == Paying(PaymentAt(m[k], nHeight).payee, PaymentAt(m[k], nHeight).nAmount);
      hide Accepts, SomeVoted, PaymentAt;
      PaymentIsAccepted(m, after, nHeight, s.nCount, k);
    } else {
      hide PaymentAccepted, SomeVoted, Tally, Total;
      after := payments.FillBlockPayee(vout, nHeight, winning, blockValue, masternodePayment, fProofOfStake);
    }
  }

  lemma MoreIsSome(m: map<Hash, FinalizedBudget>, h: int, more: nat)
    requires SomeVoted(m, h, more)
    ensures SomeVoted(m, h, 0)
  {
  }
}
