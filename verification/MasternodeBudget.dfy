/** Finalised budgets: the blocks they pay in, the payment a miner adds and the check of it. */
module MasternodeBudget {
  import opened Common
  import opened Coins
  import opened BlockOutputs

  datatype Payment = Payment(payee: Script, nAmount: int)
  datatype Vote = Vote(vin: nat, nTime: int)
  datatype FinalizedBudget = FinalizedBudget(nBlockStart: int, vecBudgetPayments: seq<Payment>,
                                             mapVotes: map<Hash, Vote>)

  const BUDGET_VOTE_UPDATE_MIN: int := 60 * 60

  function BlockEnd(b: FinalizedBudget): int { b.nBlockStart + (|b.vecBudgetPayments| - 1) }

  function VoteCount(b: FinalizedBudget): nat { |b.mapVotes| }

  /** The budget pays something in block h. */
  predicate Covers(b: FinalizedBudget, h: int) { b.nBlockStart <= h <= BlockEnd(b) }

  function PaymentAt(b: FinalizedBudget, h: int): Payment
    requires Covers(b, h)
  {
    b.vecBudgetPayments[h - b.nBlockStart]
  }

  method GetPayeeAndAmount(b: FinalizedBudget, nBlockHeight: int) returns (p: Option<Payment>)
    ensures p.Some? <==> Covers(b, nBlockHeight)
    ensures p.Some? ==> p.value == PaymentAt(b, nBlockHeight)
  {
    var i := nBlockHeight - b.nBlockStart;
    if i < 0 { return None; }
    if i > |b.vecBudgetPayments| - 1 { return None; }
    return Some(b.vecBudgetPayments[i]);
  }

  method BudgetIsTransactionValid(b: FinalizedBudget, vout: seq<TxOut>, nBlockHeight: int) returns (found: bool)
    ensures found <==> Covers(b, nBlockHeight) && BudgetPaid(b, vout, nBlockHeight)
  {
    var nCurrentBudgetPayment := nBlockHeight - b.nBlockStart;
    if nCurrentBudgetPayment < 0 { return false; }
    if nCurrentBudgetPayment > |b.vecBudgetPayments| - 1 { return false; }
    found := false;
    var p := b.vecBudgetPayments[nCurrentBudgetPayment];
    for i := 0 to |vout|
      invariant found <==> exists k :: 0 <= k < i && vout[k].script == p.payee && vout[k].nValue == p.nAmount
    {
      if p.payee == vout[i].script && p.nAmount == vout[i].nValue { found := true; }
    }
  }

  predicate BudgetPaid(b: FinalizedBudget, vout: seq<TxOut>, h: int)
    requires Covers(b, h)
  {
    PaysExactly(vout, PaymentAt(b, h).payee, PaymentAt(b, h).nAmount)
  }

  // ------------------------------------------------------------ the highest vote count

  predicate CoversAt(m: map<Hash, FinalizedBudget>, k: Hash, h: int) { k in m && Covers(m[k], h) }

  /** n is the highest vote count of a budget for block h, or `base` when that is higher. */
  ghost predicate IsHighest(m: map<Hash, FinalizedBudget>, h: int, base: int, n: int) {
    && n >= base
    && (forall k: Hash :: CoversAt(m, k, h) ==> VoteCount(m[k]) <= n)
    && (n == base || exists k: Hash :: CoversAt(m, k, h) && VoteCount(m[k]) == n)
  }

  lemma HighestIsUnique(m: map<Hash, FinalizedBudget>, h: int, base: int, n: int, l: int)
    requires IsHighest(m, h, base, n) && IsHighest(m, h, base, l)
    ensures n == l
  {
  }

  /** Budget k pays block h: the first in the order of the keys with the most votes, and some. */
  ghost predicate PaysBlock(m: map<Hash, FinalizedBudget>, h: int, k: Hash) {
    && CoversAt(m, k, h) && VoteCount(m[k]) > 0
    && forall j: Hash :: CoversAt(m, j, h) ==>
      VoteCount(m[j]) <= VoteCount(m[k]) && (j < k ==> VoteCount(m[j]) < VoteCount(m[k]))
  }

  ghost predicate SomeVoted(m: map<Hash, FinalizedBudget>, h: int, more: int) {
    exists k: Hash :: CoversAt(m, k, h) && VoteCount(m[k]) > more
  }

  predicate Least(s: set<Hash>, k: Hash) { k in s && forall j: Hash :: j in s ==> k <= j }

  lemma {:induction false} LeastExists(s: set<Hash>)
    requires s != {}
    ensures exists k: Hash :: Least(s, k)
  {
    var x :| x in s;
    var rest := s - {x};
    if rest == {} {
      OnlyLeast(s, x);
    } else {
      LeastExists(rest);
      var y: Hash :| Least(rest, y);
      LeastOf(s, x, y);
    }
  }

  lemma OnlyLeast(s: set<Hash>, x: Hash)
    requires x in s && s - {x} == {}
    ensures Least(s, x)
  {
    forall j: Hash | j in s ensures x <= j { assert j !in s - {x}; }
  }

  lemma LeastOf(s: set<Hash>, x: Hash, y: Hash)
    requires x in s && Least(s - {x}, y)
    ensures Least(s, if x < y then x else y)
  {
    forall j: Hash | j in s && j != x ensures y <= j { assert j in s - {x}; }
  }

  /** IsHighest for the budgets with keys in s. */
  ghost predicate HighestSoFar(m: map<Hash, FinalizedBudget>, s: set<Hash>, h: int, base: int, n: int) {
    && n >= base
    && (forall k :: k in s && CoversAt(m, k, h) ==> VoteCount(m[k]) <= n)
    && (n == base || exists k :: k in s && CoversAt(m, k, h) && VoteCount(m[k]) == n)
  }

  class BudgetManager {
    var mapFinalizedBudgets: map<Hash, FinalizedBudget>
    var mapOrphanVotes: map<Hash, Vote>
    var mapAsked: map<Hash, int>

    constructor (m: map<Hash, FinalizedBudget>)
      ensures mapFinalizedBudgets == m && mapOrphanVotes == map[] && mapAsked == map[]
    {
      mapFinalizedBudgets, mapOrphanVotes, mapAsked := m, map[], map[];
    }

    method HighestCount(nBlockHeight: int, base: int) returns (nHighestCount: int)
      ensures IsHighest(mapFinalizedBudgets, nBlockHeight, base, nHighestCount)
    {
      hide Covers;
      nHighestCount := base;
      var m := mapFinalizedBudgets;
      var todo := m.Keys;
      while todo != {}
        invariant todo <= m.Keys && HighestSoFar(m, m.Keys - todo, nBlockHeight, base, nHighestCount)
      {
        LeastExists(todo);
        var it :| it in todo && forall j :: j in todo ==> it <= j;
        todo := todo - {it};
        if VoteCount(m[it]) > nHighestCount && Covers(m[it], nBlockHeight) { nHighestCount := VoteCount(m[it]); }
      }
    }

    /** nCount is the number of enabled masternodes. */
    method IsBudgetPaymentBlock(nBlockHeight: int, nCount: nat) returns (ok: bool)
      ensures ok <==> SomeVoted(mapFinalizedBudgets, nBlockHeight, nCount / 20)
    {
      var nHighestCount := HighestCount(nBlockHeight, -1);
      return nHighestCount > nCount / 20;
    }

    method IsTransactionValid(vout: seq<TxOut>, nBlockHeight: int, nCount: nat) returns (ok: bool)
      ensures ok <==> Accepts(mapFinalizedBudgets, vout, nBlockHeight, nCount)
    {
      var nHighestCount := HighestCount(nBlockHeight, 0);
      var m := mapFinalizedBudgets;
      AcceptsWith(m, vout, nBlockHeight, nCount, nHighestCount);
      if nHighestCount < nCount / 20 { return false; }
      hide Covers, IsHighest;
      var todo := m.Keys;
      while todo != {}
        invariant todo <= m.Keys
        invariant forall k :: k in m && k !in todo ==> !Close(m, vout, nBlockHeight, nHighestCount, nCount, k)
      {
        LeastExists(todo);
        var it :| it in todo && forall j :: j in todo ==> it <= j;
        todo := todo - {it};
        if VoteCount(m[it]) > nHighestCount - nCount / 10 && Covers(m[it], nBlockHeight) {
          var found := BudgetIsTransactionValid(m[it], vout, nBlockHeight);
          if found {
            assert Close(m, vout, nBlockHeight, nHighestCount, nCount, it);
            return true;
          }
        }
      }
      return false;
    }

    /** The budget with the most votes is paid in full; without one with a vote nothing is added. */
    method FillBlockPayee(vout: seq<TxOut>, nBlockHeight: int, blockValue: int, fProofOfStake: bool)
      returns (after: seq<TxOut>, ghost k: Hash)
      requires !fProofOfStake ==> vout != []
      ensures SomeVoted(mapFinalizedBudgets, nBlockHeight, 0) ==>
        PaysBlock(mapFinalizedBudgets, nBlockHeight, k)
        && var p := PaymentAt(mapFinalizedBudgets[k], nBlockHeight);
        after == if fProofOfStake then vout + [Paying(p.payee, p.nAmount)]
                 else [vout[0].(nValue := blockValue), Paying(p.payee, p.nAmount)]
      ensures !SomeVoted(mapFinalizedBudgets, nBlockHeight, 0) ==>
        after == if fProofOfStake then vout else vout[0 := vout[0].(nValue := blockValue)]
    {
      hide Covers;
      var nHighestCount := 0;
      var p := Payment([], 0);
      k := 0;
      var m := mapFinalizedBudgets;
      var todo := m.Keys;
      while todo != {}
        invariant todo <= m.Keys && nHighestCount >= 0
        invariant forall i, j :: i in m && i !in todo && j in todo ==> i < j
        invariant forall j :: j in m && j !in todo && Covers(m[j], nBlockHeight) ==> VoteCount(m[j]) <= nHighestCount
        invariant nHighestCount > 0 ==>
          k !in todo && CoversAt(m, k, nBlockHeight) && VoteCount(m[k]) == nHighestCount
            && p == PaymentAt(m[k], nBlockHeight)
          && forall j: Hash :: j < k && CoversAt(m, j, nBlockHeight) ==> VoteCount(m[j]) < nHighestCount
      {
        LeastExists(todo);
        var it :| it in todo && forall j :: j in todo ==> it <= j;
        todo := todo - {it};
        if VoteCount(m[it]) > nHighestCount && nBlockHeight >= m[it].nBlockStart && nBlockHeight <= BlockEnd(m[it]) {
          CoversIs(m[it], nBlockHeight);
          var payment := GetPayeeAndAmount(m[it], nBlockHeight);
          if payment.Some? {
            p := payment.value;
            nHighestCount := VoteCount(m[it]);
            k := it;
          }
        } else {
          CoversIs(m[it], nBlockHeight);
        }
      }
      if fProofOfStake {
        after := vout;
        if nHighestCount > 0 {
          var i := |vout|;
          after := Resized(after, i + 1);
          after := after[i := Paying(p.payee, p.nAmount)];
          assert after == vout + [Paying(p.payee, p.nAmount)];
        }
      } else {
        after := vout[0 := vout[0].(nValue := blockValue)];
        if nHighestCount > 0 {
          after := Resized(after, 2);
          after := after[1 := Paying(p.payee, p.nAmount)];
          assert after == [vout[0].(nValue := blockValue), Paying(p.payee, p.nAmount)];
        }
      }
    }

    /** A masternode has one vote; a later vote replaces it only when at least an hour newer, and
        none may be over an hour ahead of the clock. A vote for an unknown budget that a peer sent is
        kept aside once the node is synchronised, and the budget is asked for once. */
    method UpdateFinalizedBudget(vote: Vote, nBudgetHash: Hash, hash: Hash, nNow: int, fFromPeer: bool, fSynced: bool)
      returns (ok: bool)
      modifies this
      ensures ok <==>
        && nBudgetHash in old(mapFinalizedBudgets) && vote.nTime <= nNow + 60 * 60
        && var was := old(mapFinalizedBudgets)[nBudgetHash].mapVotes;
        hash in was ==> vote.nTime >= was[hash].nTime + 60 * 60
      ensures !ok ==> mapFinalizedBudgets == old(mapFinalizedBudgets)
      ensures ok ==>
        var b := old(mapFinalizedBudgets)[nBudgetHash];
        mapFinalizedBudgets == old(mapFinalizedBudgets)[nBudgetHash := b.(mapVotes := b.mapVotes[hash := vote])]
      ensures
        if nBudgetHash !in old(mapFinalizedBudgets) && fFromPeer && fSynced then
          && mapOrphanVotes == old(mapOrphanVotes)[nBudgetHash := vote]
          && mapAsked == (if nBudgetHash in old(mapAsked) then old(mapAsked) else old(mapAsked)[nBudgetHash := nNow])
        else
          mapOrphanVotes == old(mapOrphanVotes) && mapAsked == old(mapAsked)
    {
      if nBudgetHash !in mapFinalizedBudgets {
        if fFromPeer {
          if !fSynced { return false; }
          mapOrphanVotes := mapOrphanVotes[nBudgetHash := vote];
          if nBudgetHash !in mapAsked { mapAsked := mapAsked[nBudgetHash := nNow]; }
        }
        return false;
      }
      var b := mapFinalizedBudgets[nBudgetHash];
      if hash in b.mapVotes {
        if b.mapVotes[hash].nTime > vote.nTime { return false; }
        if vote.nTime - b.mapVotes[hash].nTime < BUDGET_VOTE_UPDATE_MIN { return false; }
      }
      if vote.nTime > nNow + 60 * 60 { return false; }
      mapFinalizedBudgets := mapFinalizedBudgets[nBudgetHash := b.(mapVotes := b.mapVotes[hash := vote])];
      return true;
    }
  }

  lemma CoversIs(b: FinalizedBudget, h: int)
    ensures Covers(b, h) <==> b.nBlockStart <= h <= BlockEnd(b)
  {
  }

  // ------------------------------------------------------------ agreement

  /** Budget k has more votes than n less a tenth, and the outputs pay what it pays in block h. */
  predicate Close(m: map<Hash, FinalizedBudget>, vout: seq<TxOut>, h: int, n: int, nCount: nat, k: Hash) {
    CoversAt(m, k, h) && VoteCount(m[k]) > n - nCount / 10 && BudgetPaid(m[k], vout, h)
  }

  /** The budgets with the highest counts, within a tenth of the masternodes, are those that may be
      paid, unless even the highest has less than a twentieth. */
  ghost predicate Accepts(m: map<Hash, FinalizedBudget>, vout: seq<TxOut>, h: int, nCount: nat) {
    exists n :: IsHighest(m, h, 0, n) && n >= nCount / 20 && exists k: Hash :: Close(m, vout, h, n, nCount, k)
  }

  lemma AcceptsWith(m: map<Hash, FinalizedBudget>, vout: seq<TxOut>, h: int, nCount: nat, n: int)
    requires IsHighest(m, h, 0, n)
    ensures Accepts(m, vout, h, nCount) <==> n >= nCount / 20 && exists k: Hash :: Close(m, vout, h, n, nCount, k)
  {
    hide IsHighest, Close;
    if Accepts(m, vout, h, nCount) {
      var l :| IsHighest(m, h, 0, l) && l >= nCount / 20 && exists k: Hash :: Close(m, vout, h, l, nCount, k);
      HighestIsUnique(m, h, 0, n, l);
    }
  }

  /** The payment that a miner adds in a budget block passes the check of a node with the same
      votes if and only if there are at least ten masternodes: with fewer, a tenth is none, and
      nothing is above the highest count. */
  lemma PaymentIsAccepted(m: map<Hash, FinalizedBudget>, vout: seq<TxOut>, h: int, nCount: nat, k: Hash)
    requires SomeVoted(m, h, nCount / 20) && PaysBlock(m, h, k) && BudgetPaid(m[k], vout, h)
    ensures Accepts(m, vout, h, nCount) <==> nCount >= 10
  {
    hide Covers, BudgetPaid;
    var n := VoteCount(m[k]);
    assert IsHighest(m, h, 0, n);
    AcceptsWith(m, vout, h, nCount, n);
    assert nCount >= 10 ==> Close(m, vout, h, n, nCount, k);
  }

  /** With fewer than ten masternodes nothing whatever is accepted in a budget block. */
  lemma SmallNetworkRefuses(m: map<Hash, FinalizedBudget>, vout: seq<TxOut>, h: int, nCount: nat)
    requires nCount < 10
    ensures !Accepts(m, vout, h, nCount)
  {
    forall n: int, k: Hash | IsHighest(m, h, 0, n) ensures !Close(m, vout, h, n, nCount, k) {}
  }

  /** The two nodes know the same budgets, and no vote count differs by more than d. */
  ghost predicate Drifted(m: map<Hash, FinalizedBudget>, w: map<Hash, FinalizedBudget>, d: nat) {
    forall k: Hash :: (k in m <==> k in w) && (k in m ==> Near(m[k], w[k], d))
  }

  predicate Near(a: FinalizedBudget, b: FinalizedBudget, d: nat) {
    && a.nBlockStart == b.nBlockStart && a.vecBudgetPayments == b.vecBudgetPayments
    && VoteCount(a) <= VoteCount(b) + d && VoteCount(b) <= VoteCount(a) + d
  }

  /** A miner with other votes is accepted as long as twice the difference is less than a tenth. */
  lemma DriftIsTolerated(m: map<Hash, FinalizedBudget>, w: map<Hash, FinalizedBudget>, vout: seq<TxOut>, h: int,
                         nCount: nat, k: Hash, d: nat)
    requires Drifted(m, w, d) && PaysBlock(m, h, k) && BudgetPaid(m[k], vout, h)
    requires SomeVoted(w, h, nCount / 20) && 2 * d < nCount / 10
    ensures Accepts(w, vout, h, nCount)
  {
    forall j: Hash ensures CoversAt(m, j, h) <==> CoversAt(w, j, h) {
      assert j in m ==> Near(m[j], w[j], d);
    }
    var b := HighestBudget(w, h, nCount / 20);
    var n := VoteCount(w[b]);
    assert CoversAt(m, b, h) && VoteCount(m[b]) <= VoteCount(m[k]);
    assert Near(m[b], w[b], d) && Near(m[k], w[k], d);
    assert Close(w, vout, h, n, nCount, k);
    hide Covers;
    AcceptsWith(w, vout, h, nCount, n);
  }

  lemma HighestBudget(m: map<Hash, FinalizedBudget>, h: int, more: nat) returns (k: Hash)
    requires SomeVoted(m, h, more)
    ensures CoversAt(m, k, h) && VoteCount(m[k]) > more && IsHighest(m, h, 0, VoteCount(m[k]))
  {
    hide Covers;
    k := HighestAmong(m, m.Keys, h, more);
  }

  lemma {:induction false} HighestAmong(m: map<Hash, FinalizedBudget>, s: set<Hash>, h: int, more: nat)
    returns (k: Hash)
    requires exists j: Hash :: j in s && CoversAt(m, j, h) && VoteCount(m[j]) > more
    ensures k in s && CoversAt(m, k, h) && VoteCount(m[k]) > more
    ensures forall j: Hash :: j in s && CoversAt(m, j, h) ==> VoteCount(m[j]) <= VoteCount(m[k])
    decreases s
  {
    hide Covers;
    var x: Hash :| x in s && CoversAt(m, x, h) && VoteCount(m[x]) > more;
    if j: Hash :| j in s && CoversAt(m, j, h) && VoteCount(m[j]) > VoteCount(m[x]) {
      assert j in s - {x};
      var l := HighestAmong(m, s - {x}, h, more);
      assert VoteCount(m[j]) <= VoteCount(m[l]);
      k := l;
      forall i: Hash | i in s && CoversAt(m, i, h) ensures VoteCount(m[i]) <= VoteCount(m[k]) {
        assert i == x || i in s - {x};
      }
    } else {
      k := x;
    }
  }

  /** n votes. */
  function Votes(n: nat): (r: map<Hash, Vote>)
    ensures |r| == n && forall i :: i in r ==> i < n
  {
    if n == 0 then map[] else Votes(n - 1)[n - 1 := Vote(n - 1, 0)]
  }

  function Pair(a: nat, b: nat): map<Hash, FinalizedBudget> {
    map[0 := FinalizedBudget(0, [Payment([1], 1)], Votes(a)), 1 := FinalizedBudget(0, [Payment([2], 1)], Votes(b))]
  }

  lemma PairIs(a: nat, b: nat)
    ensures
      var m, vout := Pair(a, b), [Paying([1], 1)];
      && (forall k: Hash :: CoversAt(m, k, 0) <==> k == 0 || k == 1)
      && m.Keys == {0, 1} && VoteCount(m[0]) == a && VoteCount(m[1]) == b && BudgetPaid(m[0], vout, 0)
      && !BudgetPaid(m[1], vout, 0)
  {
    hide Votes;
    assert [Paying([1], 1)][0].script == [1];
  }

  lemma PairDrifts(n: nat, d: nat)
    requires d <= n
    ensures Drifted(Pair(n, n), Pair(n - d, n + d), d)
  {
    hide Votes;
  }

  /** No budget has more votes than there are masternodes. */
  ghost predicate NoMoreThan(m: map<Hash, FinalizedBudget>, nCount: nat) {
    forall k: Hash :: k in m ==> VoteCount(m[k]) <= nCount
  }

  /** At twice the difference the miner's payment can be refused, and with no more votes than
      masternodes unless the difference is more than half of them. */
  lemma DriftIsTooFar(nCount: nat, d: nat)
    returns (m: map<Hash, FinalizedBudget>, w: map<Hash, FinalizedBudget>, vout: seq<TxOut>, k: Hash)
    requires 2 * d >= nCount / 10
    ensures Drifted(m, w, d) && PaysBlock(m, 0, k) && BudgetPaid(m[k], vout, 0)
    ensures SomeVoted(m, 0, nCount / 20) && SomeVoted(w, 0, nCount / 20) && !Accepts(w, vout, 0, nCount)
    ensures 0 < nCount && 2 * d <= nCount ==> NoMoreThan(m, nCount) && NoMoreThan(w, nCount)
  {
    hide Pair, Covers, BudgetPaid, Drifted, VoteCount;
    var n := if 0 < nCount && 2 * d <= nCount then nCount - d else nCount + d + 1;
    m, w, vout, k := Pair(n, n), Pair(n - d, n + d), [Paying([1], 1)], 0;
    PairIs(n, n);
    PairIs(n - d, n + d);
    PairDrifts(n, d);
    assert IsHighest(w, 0, 0, n + d);
    AcceptsWith(w, vout, 0, nCount, n + d);
  }

  // ------------------------------------------------------------ the budget of a cycle

  datatype ProposalVote = ProposalVote(vin: nat, nVote: int, nTime: int, fValid: bool)

  datatype Proposal = Proposal(fValid: bool, nBlockStart: int, nBlockEnd: int, nAmount: int, nTime: int,
                               nFeeTXHash: Hash, mapVotes: map<Hash, ProposalVote>, nAlloted: int)

  const VOTE_YES: int := 1
  const VOTE_NO: int := 2

  /** The keys of the valid votes for nVote. */
  function VotesFor(p: Proposal, nVote: int): set<Hash> {
    set k | k in p.mapVotes && p.mapVotes[k].nVote == nVote && p.mapVotes[k].fValid
  }

  /** GetYeas and GetNays: the valid votes of one kind are counted. */
  method CountVotes(p: Proposal, nVote: int) returns (ret: nat)
    ensures ret == |VotesFor(p, nVote)|
  {
    ret := 0;
    ghost var counted: set<Hash> := {};
    var todo := p.mapVotes.Keys;
    while todo != {}
      invariant todo <= p.mapVotes.Keys && ret == |counted|
      invariant forall k: Hash :: k in counted <==> k in VotesFor(p, nVote) && k !in todo
    {
      var k: Hash :| k in todo;
      todo := todo - {k};
      if p.mapVotes[k].nVote == nVote && p.mapVotes[k].fValid {
        ret := ret + 1;
        counted := counted + {k};
      }
    }
    assert counted == VotesFor(p, nVote);
  }

  /** CleanAndRemove: the votes are valid as the signature check says. */
  function Cleaned(p: Proposal, valid: ProposalVote -> bool): Proposal {
    p.(mapVotes := map k | k in p.mapVotes :: p.mapVotes[k].(fValid := valid(p.mapVotes[k])))
  }

  function AllCleaned(m: map<Hash, Proposal>, valid: ProposalVote -> bool): map<Hash, Proposal> {
    map k | k in m :: Cleaned(m[k], valid)
  }

  /** What decides whether a proposal takes part: the cycle's blocks, the number of masternodes and
      the time before which a proposal must have been made. */
  datatype Cycle = Cycle(nBlockStart: int, nBlockEnd: int, nCount: nat, nBefore: int)

  /** The cycle that follows the block at nHeight. */
  function NextCycle(nHeight: nat, nBlocks: nat, nCount: nat, nNow: int, fMain: bool): (c: Cycle)
    requires nBlocks > 0
    ensures c.nBlockStart > nHeight && c.nBlockEnd - nHeight < 2 * nBlocks
  {
    var nBlockStart := nHeight - nHeight % nBlocks + nBlocks;
    Cycle(nBlockStart, nBlockStart + nBlocks - 1, nCount, nNow - (if fMain then 60 * 60 * 24 else 60 * 5))
  }

  function Net(p: Proposal): int { |VotesFor(p, VOTE_YES)| - |VotesFor(p, VOTE_NO)| }

  predicate Eligible(p: Proposal, c: Cycle) {
    p.fValid && p.nBlockStart <= c.nBlockStart && p.nBlockEnd >= c.nBlockEnd && Net(p) > c.nCount / 10
      && p.nTime < c.nBefore
  }

  /** More net votes first; with as many, the greater fee transaction hash. */
  predicate Precedes(a: Proposal, b: Proposal) {
    if Net(a) != Net(b) then Net(a) > Net(b) else a.nFeeTXHash > b.nFeeTXHash
  }

  predicate Front(m: map<Hash, Proposal>, s: set<Hash>, k: Hash) {
    s <= m.Keys && k in s && forall j: Hash :: j in s ==> !Precedes(m[j], m[k])
  }

  lemma {:induction false} FrontExists(m: map<Hash, Proposal>, s: set<Hash>)
    requires s != {} && s <= m.Keys
    ensures exists k: Hash :: Front(m, s, k)
    decreases s
  {
    var x: Hash :| x in s;
    if j: Hash :| j in s && Precedes(m[j], m[x]) {
      assert j in s - {x};
      FrontExists(m, s - {x});
      var k: Hash :| Front(m, s - {x}, k);
      assert !Precedes(m[j], m[k]);
      forall i: Hash | i in s ensures !Precedes(m[i], m[k]) { assert i == x || i in s - {x}; }
      assert Front(m, s, k);
    } else {
      assert Front(m, s, x);
    }
  }

  function Allocated(m: map<Hash, Proposal>, ret: seq<Hash>): int
    requires forall k :: k in ret ==> k in m
  {
    if ret == [] then 0 else Allocated(m, ret[..|ret| - 1]) + m[ret[|ret| - 1]].nAmount
  }

  /** Proposal k came after the first n of the list, before the others, and did not fit. */
  predicate DidNotFit(m: map<Hash, Proposal>, ret: seq<Hash>, nTotalBudget: int, k: Hash, n: nat)
    requires (forall j :: j in ret ==> j in m) && k in m
  {
    && n <= |ret| && m[k].nAmount + Allocated(m, ret[..n]) > nTotalBudget
    && (forall i :: 0 <= i < n ==> !Precedes(m[k], m[ret[i]]))
    && (forall i :: n <= i < |ret| ==> !Precedes(m[ret[i]], m[k]))
  }

  /** The list is in order, without repetition, of eligible proposals, and within the budget; an
      eligible proposal of `seen` that is not on it did not fit at its turn. */
  ghost predicate Allocation(m: map<Hash, Proposal>, c: Cycle, nTotalBudget: int, seen: set<Hash>, ret: seq<Hash>) {
    && seen <= m.Keys
    && (forall k :: k in ret ==> k in seen && Eligible(m[k], c))
    && (forall i, j :: 0 <= i < j < |ret| ==> ret[i] != ret[j] && !Precedes(m[ret[j]], m[ret[i]]))
    && (ret != [] ==> Allocated(m, ret) <= nTotalBudget)
    && (forall k: Hash :: k in seen && Eligible(m[k], c) && k !in ret ==>
        exists n: nat :: DidNotFit(m, ret, nTotalBudget, k, n))
  }

  /** Only the allotted amounts change: to the amount on the list, to zero for an eligible proposal
      that is not on it. */
  function Allot(p: Proposal, c: Cycle, listed: bool): Proposal {
    if listed then p.(nAlloted := p.nAmount) else if Eligible(p, c) then p.(nAlloted := 0) else p
  }

  lemma AllocatedSame(m: map<Hash, Proposal>, ret: seq<Hash>, k: Hash)
    requires (forall j :: j in ret ==> j in m) && k in m
    ensures Allocated(m, ret + [k]) == Allocated(m, ret) + m[k].nAmount
  {
    assert (ret + [k])[..|ret|] == ret;
  }

  lemma ListedNext(m: map<Hash, Proposal>, c: Cycle, nTotalBudget: int, seen: set<Hash>, ret: seq<Hash>, k: Hash)
    requires Allocation(m, c, nTotalBudget, seen, ret) && Front(m, m.Keys - seen, k) && Eligible(m[k], c)
    requires forall j :: j in seen ==> !Precedes(m[k], m[j])
    requires m[k].nAmount + Allocated(m, ret) <= nTotalBudget
    ensures Allocation(m, c, nTotalBudget, seen + {k}, ret + [k])
  {
    AllocatedSame(m, ret, k);
    hide Eligible, Precedes, Allocated, DidNotFit;
    var after := ret + [k];
    forall j: Hash | j in seen && Eligible(m[j], c) && j !in ret
      ensures exists n: nat :: DidNotFit(m, after, nTotalBudget, j, n)
    {
      var n: nat :| DidNotFit(m, ret, nTotalBudget, j, n);
      StillDidNotFit(m, ret, nTotalBudget, j, n, k);
    }
    FrontFollows(m, m.Keys - seen, ret, k);
  }

  lemma StillDidNotFit(m: map<Hash, Proposal>, ret: seq<Hash>, nTotalBudget: int, j: Hash, n: nat, k: Hash)
    requires (forall i :: i in ret ==> i in m) && j in m && k in m
    requires DidNotFit(m, ret, nTotalBudget, j, n) && !Precedes(m[k], m[j])
    ensures DidNotFit(m, ret + [k], nTotalBudget, j, n)
  {
    hide Precedes, Allocated;
    assert (ret + [k])[..n] == ret[..n];
  }

  lemma FrontFollows(m: map<Hash, Proposal>, s: set<Hash>, ret: seq<Hash>, k: Hash)
    requires Front(m, s, k) && forall i :: i in ret ==> i !in s
    ensures k !in ret
  {
    hide Precedes;
  }

  lemma UnlistedNext(m: map<Hash, Proposal>, c: Cycle, nTotalBudget: int, seen: set<Hash>, ret: seq<Hash>, k: Hash)
    requires Allocation(m, c, nTotalBudget, seen, ret) && Front(m, m.Keys - seen, k)
    requires forall j :: j in seen ==> !Precedes(m[k], m[j])
    requires Eligible(m[k], c) ==> m[k].nAmount + Allocated(m, ret) > nTotalBudget
    ensures Allocation(m, c, nTotalBudget, seen + {k}, ret)
  {
    hide Eligible, Precedes, Allocated;
    assert ret[..|ret|] == ret;
    if Eligible(m[k], c) { assert DidNotFit(m, ret, nTotalBudget, k, |ret|); }
  }

  /** The chosen proposal follows none of those left. */
  ghost predicate InOrder(m: map<Hash, Proposal>, seen: set<Hash>)
    requires seen <= m.Keys
  {
    forall j, k: Hash :: j in seen && k in m && k !in seen ==> !Precedes(m[k], m[j])
  }

  lemma InOrderNext(m: map<Hash, Proposal>, seen: set<Hash>, k: Hash)
    requires seen <= m.Keys && InOrder(m, seen) && Front(m, m.Keys - seen, k)
    ensures InOrder(m, seen + {k})
  {
    hide Precedes;
  }

  // ------------------------------------------------------------ the order of funding, in votes

  /** Yes votes less no votes, of those that are valid. */
  ghost function Support(p: Proposal, valid: ProposalVote -> bool): int {
    |set k | k in p.mapVotes && p.mapVotes[k].nVote == 1 && valid(p.mapVotes[k])|
    - |set k | k in p.mapVotes && p.mapVotes[k].nVote == 2 && valid(p.mapVotes[k])|
  }

  /** Proposal a is not behind b: it has more support, or as much and no smaller a fee transaction hash. */
  ghost predicate NotBehind(a: Proposal, b: Proposal, valid: ProposalVote -> bool) {
    Support(a, valid) > Support(b, valid) || (Support(a, valid) == Support(b, valid) && a.nFeeTXHash >= b.nFeeTXHash)
  }

  /** Proposal p may be paid in blocks nStart to nEnd: it is valid, covers them, is old enough, and has more
      support than a tenth of the masternodes. */
  ghost predicate MayBeFunded(p: Proposal, valid: ProposalVote -> bool, nStart: int, nEnd: int, nCount: nat,
                              nBefore: int) {
    p.fValid && p.nBlockStart <= nStart && nEnd <= p.nBlockEnd && nCount / 10 < Support(p, valid) && p.nTime < nBefore
  }

  /** After the first n on the list there was not enough left for proposal k, which is behind none of them
      and behind which all the others are. */
  ghost predicate NotEnoughLeft(m: map<Hash, Proposal>, valid: ProposalVote -> bool, ret: seq<Hash>,
                                nTotalBudget: int, k: Hash, n: nat)
    requires (forall j :: j in ret ==> j in m) && k in m
  {
    && n <= |ret| && m[k].nAmount > nTotalBudget - Allocated(m, ret[..n])
    && (forall i :: 0 <= i < n ==> NotBehind(m[ret[i]], m[k], valid))
    && (forall i :: n <= i < |ret| ==> NotBehind(m[k], m[ret[i]], valid))
  }

  lemma CleanedSupport(p: Proposal, valid: ProposalVote -> bool)
    ensures Net(Cleaned(p, valid)) == Support(p, valid)
  {
    var q := Cleaned(p, valid);
    assert VotesFor(q, VOTE_YES) == set k | k in p.mapVotes && p.mapVotes[k].nVote == 1 && valid(p.mapVotes[k]);
    assert VotesFor(q, VOTE_NO) == set k | k in p.mapVotes && p.mapVotes[k].nVote == 2 && valid(p.mapVotes[k]);
  }

  /** The first block of a cycle is the least multiple of its length above the height; the last is the one
      before the next such block. */
  lemma CycleIs(nHeight: nat, nBlocks: nat, nCount: nat, nNow: int, fMain: bool, nStart: int)
    requires nBlocks > 0 && nStart % nBlocks == 0 && nHeight < nStart <= nHeight + nBlocks
    ensures
      NextCycle(nHeight, nBlocks, nCount, nNow, fMain) ==
        Cycle(nStart, nStart + nBlocks - 1, nCount, nNow - (if fMain then 86400 else 300))
  {
    var q, r := nHeight / nBlocks, nHeight % nBlocks;
    var k := nStart / nBlocks;
    assert nStart == k * nBlocks && nHeight == q * nBlocks + r;
    if k <= q { Multiple(k, q, nBlocks); }
    if k > q + 1 { Multiple(q + 2, k, nBlocks); }
    assert k == q + 1;
  }

  lemma Multiple(a: int, b: int, c: nat)
    requires a <= b
    ensures a * c <= b * c
  {
  }

  /** What GetBudget returns, in vote counts: proposals that may be funded, those with more support first,
      each once and within the budget; and whoever may be funded and is left out came when there was not
      enough left. */
  lemma FundedByVotes(m: map<Hash, Proposal>, valid: ProposalVote -> bool, nHeight: nat, nBlocks: nat, nCount: nat,
                      nNow: int, fMain: bool, nTotalBudget: int, nStart: int, ret: seq<Hash>)
    requires nBlocks > 0 && nStart % nBlocks == 0 && nHeight < nStart <= nHeight + nBlocks
    requires Allocation(AllCleaned(m, valid), NextCycle(nHeight, nBlocks, nCount, nNow, fMain), nTotalBudget,
                        AllCleaned(m, valid).Keys, ret)
    ensures
      var nEnd, nBefore := nStart + nBlocks - 1, nNow - (if fMain then 86400 else 300);
      && (forall k :: k in ret ==> k in m && MayBeFunded(m[k], valid, nStart, nEnd, nCount, nBefore))
      && (forall i, j :: 0 <= i < j < |ret| ==> ret[i] != ret[j] && NotBehind(m[ret[i]], m[ret[j]], valid))
      && (ret != [] ==> Allocated(m, ret) <= nTotalBudget)
      && (forall k :: k in m && MayBeFunded(m[k], valid, nStart, nEnd, nCount, nBefore) && k !in ret ==>
            exists n: nat :: NotEnoughLeft(m, valid, ret, nTotalBudget, k, n))
  {
    var u := AllCleaned(m, valid);
    var c := NextCycle(nHeight, nBlocks, nCount, nNow, fMain);
    CycleIs(nHeight, nBlocks, nCount, nNow, fMain, nStart);
    hide *;
    SameStanding(m, u, valid, c);
    FundedBy(m, u, valid, c, nTotalBudget, ret);
  }

  /** The proposals after the validity of their votes has been looked at stand as the votes say. */
  ghost predicate Standing(m: map<Hash, Proposal>, u: map<Hash, Proposal>, valid: ProposalVote -> bool, c: Cycle) {
    && u.Keys == m.Keys && (forall k :: k in m ==> u[k].nAmount == m[k].nAmount)
    && (forall k :: k in m ==>
          (Eligible(u[k], c) <==> MayBeFunded(m[k], valid, c.nBlockStart, c.nBlockEnd, c.nCount, c.nBefore)))
    && (forall j, k :: j in m && k in m ==> (NotBehind(m[j], m[k], valid) <==> !Precedes(u[k], u[j])))
  }

  lemma SameStanding(m: map<Hash, Proposal>, u: map<Hash, Proposal>, valid: ProposalVote -> bool, c: Cycle)
    requires u == AllCleaned(m, valid)
    ensures Standing(m, u, valid, c)
  {
    hide Eligible, MayBeFunded, Precedes, NotBehind, Cleaned, AllCleaned;
    forall k ensures k in u <==> k in m { CleanedKey(m, valid, k); }
    forall k | k in m
      ensures u[k].nAmount == m[k].nAmount
      ensures Eligible(u[k], c) <==> MayBeFunded(m[k], valid, c.nBlockStart, c.nBlockEnd, c.nCount, c.nBefore)
    {
      CleanedKey(m, valid, k);
      CleanedAmount(m[k], valid);
      CleanedStanding(m[k], m[k], valid, c);
    }
    forall j, k | j in m && k in m ensures NotBehind(m[j], m[k], valid) <==> !Precedes(u[k], u[j]) {
      CleanedKey(m, valid, j);
      CleanedKey(m, valid, k);
      CleanedStanding(m[j], m[k], valid, c);
    }
  }

  lemma FundedBy(m: map<Hash, Proposal>, u: map<Hash, Proposal>, valid: ProposalVote -> bool, c: Cycle,
                 nTotalBudget: int, ret: seq<Hash>)
    requires Standing(m, u, valid, c) && Allocation(u, c, nTotalBudget, u.Keys, ret)
    ensures forall k :: k in ret ==>
      k in m && MayBeFunded(m[k], valid, c.nBlockStart, c.nBlockEnd, c.nCount, c.nBefore)
    ensures forall i, j :: 0 <= i < j < |ret| ==> ret[i] != ret[j] && NotBehind(m[ret[i]], m[ret[j]], valid)
    ensures ret != [] ==> Allocated(m, ret) <= nTotalBudget
    ensures forall k :: k in m && MayBeFunded(m[k], valid, c.nBlockStart, c.nBlockEnd, c.nCount, c.nBefore) && k !in ret
              ==> exists n: nat :: NotEnoughLeft(m, valid, ret, nTotalBudget, k, n)
  {
    hide Eligible, MayBeFunded, Precedes, NotBehind, Allocated;
    AllocatedFrom(m, u, ret);
    forall k | k in m && Eligible(u[k], c) && k !in ret
      ensures exists n: nat :: NotEnoughLeft(m, valid, ret, nTotalBudget, k, n)
    {
      var n: nat :| DidNotFit(u, ret, nTotalBudget, k, n);
      AllocatedFrom(m, u, ret[..n]);
      assert NotEnoughLeft(m, valid, ret, nTotalBudget, k, n);
    }
  }

  lemma CleanedKey(m: map<Hash, Proposal>, valid: ProposalVote -> bool, k: Hash)
    ensures k in AllCleaned(m, valid) <==> k in m
    ensures k in m ==> AllCleaned(m, valid)[k] == Cleaned(m[k], valid)
  {
  }

  lemma CleanedAmount(p: Proposal, valid: ProposalVote -> bool)
    ensures Cleaned(p, valid).nAmount == p.nAmount
  {
  }

  lemma CleanedStanding(p: Proposal, q: Proposal, valid: ProposalVote -> bool, c: Cycle)
    ensures Eligible(Cleaned(p, valid), c) <==> MayBeFunded(p, valid, c.nBlockStart, c.nBlockEnd, c.nCount, c.nBefore)
    ensures NotBehind(p, q, valid) <==> !Precedes(Cleaned(q, valid), Cleaned(p, valid))
  {
    CleanedSupport(p, valid);
    CleanedSupport(q, valid);
    hide Net, Support;
  }

  lemma {:induction false} AllocatedFrom(m: map<Hash, Proposal>, u: map<Hash, Proposal>, ret: seq<Hash>)
    requires u.Keys == m.Keys && (forall k :: k in m ==> u[k].nAmount == m[k].nAmount)
    requires forall k :: k in ret ==> k in m
    ensures Allocated(u, ret) == Allocated(m, ret)
  {
    if ret != [] { AllocatedFrom(m, u, ret[..|ret| - 1]); }
  }

  class ProposalBook {
    var mapProposals: map<Hash, Proposal>

    constructor (m: map<Hash, Proposal>)
      ensures mapProposals == m
    {
      mapProposals := m;
    }

    /** Every proposal's votes are looked at anew. */
    method CleanAll(valid: ProposalVote -> bool)
      modifies this
      ensures mapProposals == AllCleaned(old(mapProposals), valid)
    {
      ghost var m := mapProposals;
      var todo := mapProposals.Keys;
      hide Cleaned;
      while todo != {}
        invariant todo <= m.Keys == mapProposals.Keys
        invariant forall k: Hash :: k in m ==> mapProposals[k] == if k in todo then m[k] else Cleaned(m[k], valid)
      {
        var k: Hash :| k in todo;
        todo := todo - {k};
        mapProposals := mapProposals[k := Cleaned(mapProposals[k], valid)];
      }
      CleanedIs(m, mapProposals, valid);
    }

    /** The turn of one proposal. */
    method Fund(k: Hash, c: Cycle, nTotalBudget: int, ret: seq<Hash>, nBudgetAllocated: int)
      returns (after: seq<Hash>, nAllocated: int)
      requires k in mapProposals
      modifies this
      ensures
        var p := old(mapProposals)[k];
        if !Eligible(p, c) then mapProposals == old(mapProposals) && after == ret && nAllocated == nBudgetAllocated
        else if p.nAmount + nBudgetAllocated <= nTotalBudget then
          && mapProposals == old(mapProposals)[k := p.(nAlloted := p.nAmount)]
          && after == ret + [k] && nAllocated == nBudgetAllocated + p.nAmount
        else
          && mapProposals == old(mapProposals)[k := p.(nAlloted := 0)]
          && after == ret && nAllocated == nBudgetAllocated
    {
      hide Eligible;
      after, nAllocated := ret, nBudgetAllocated;
      var p := mapProposals[k];
      if Eligible(p, c) {
        if p.nAmount + nAllocated <= nTotalBudget {
          mapProposals := mapProposals[k := p.(nAlloted := p.nAmount)];
          nAllocated := nAllocated + p.nAmount;
          after := after + [k];
        } else {
          mapProposals := mapProposals[k := p.(nAlloted := 0)];
        }
      }
    }

    /** The proposals of the next cycle, in the order of their votes as far as the budget lasts. */
    method GetBudget(tip: Option<nat>, nBlocks: nat, nCount: nat, nNow: int, fMain: bool, totalBudget: int -> int,
                     valid: ProposalVote -> bool)
      returns (ret: seq<Hash>)
      requires nBlocks > 0
      modifies this
      ensures tip.None? ==> ret == [] && mapProposals == AllCleaned(old(mapProposals), valid)
      ensures tip.Some? ==>
        var c, m := NextCycle(tip.value, nBlocks, nCount, nNow, fMain), AllCleaned(old(mapProposals), valid);
        && Allocation(m, c, totalBudget(c.nBlockStart), m.Keys, ret)
        && mapProposals.Keys == m.Keys
        && forall k :: k in mapProposals ==> mapProposals[k] == Allot(m[k], c, k in ret)
      ensures PaidInFull(ret, mapProposals, old(mapProposals))
    {
      ret := [];
      CleanAll(valid);
      if tip.None? {
        assert PaidInFull([], mapProposals, old(mapProposals));
        return;
      }
      var c := NextCycle(tip.value, nBlocks, nCount, nNow, fMain);
      var nTotalBudget := totalBudget(c.nBlockStart);
      hide NextCycle, Precedes, Eligible, Net, Progress, Front, AllCleaned, Allot, Allocation, VotesFor, Cleaned,
        PaidInFull;
      ghost var m := mapProposals;
      var nBudgetAllocated := 0;
      var todo := mapProposals.Keys;
      ProgressStart(m, c, nTotalBudget);
      while todo != {}
        invariant Progress(m, mapProposals, todo, c, nTotalBudget, ret, nBudgetAllocated)
      {
        ProgressFront(m, mapProposals, todo, c, nTotalBudget, ret, nBudgetAllocated);
        var k: Hash :| Front(mapProposals, todo, k);
        FrontIn(mapProposals, todo, k);
        ProgressNext(m, mapProposals, todo, c, nTotalBudget, ret, nBudgetAllocated, k);
        todo := todo - {k};
        ret, nBudgetAllocated := Fund(k, c, nTotalBudget, ret, nBudgetAllocated);
      }
      ProgressEnd(m, mapProposals, c, nTotalBudget, ret, nBudgetAllocated);
      AllottedAmounts(old(mapProposals), m, mapProposals, valid, c, nTotalBudget, ret);
    }
  }

  /** Those on the list are allotted their whole amounts. */
  ghost predicate PaidInFull(ret: seq<Hash>, now: map<Hash, Proposal>, was: map<Hash, Proposal>) {
    forall k :: k in ret ==> k in now && k in was && now[k].nAlloted == was[k].nAmount
  }

  lemma AllottedAmounts(m0: map<Hash, Proposal>, m: map<Hash, Proposal>, now: map<Hash, Proposal>,
                        valid: ProposalVote -> bool, c: Cycle, nTotalBudget: int, ret: seq<Hash>)
    requires m == AllCleaned(m0, valid) && now.Keys == m.Keys && Allocation(m, c, nTotalBudget, m.Keys, ret)
    requires forall k :: k in now ==> now[k] == Allot(m[k], c, k in ret)
    ensures PaidInFull(ret, now, m0)
  {
    forall k | k in ret ensures k in now && k in m0 && now[k].nAlloted == m0[k].nAmount {
      CleanedKey(m0, valid, k);
      CleanedAmount(m0[k], valid);
    }
  }

  lemma CleanedIs(m: map<Hash, Proposal>, m1: map<Hash, Proposal>, valid: ProposalVote -> bool)
    requires m1.Keys == m.Keys && forall k: Hash :: k in m ==> m1[k] == Cleaned(m[k], valid)
    ensures m1 == AllCleaned(m, valid)
  {
    hide Cleaned;
    var u := AllCleaned(m, valid);
    forall k ensures k in m1 <==> k in u {}
    assert m1.Keys == u.Keys;
    forall k | k in u ensures m1[k] == u[k] {}
  }

  /** The proposals outside todo have had their turn. */
  ghost predicate Progress(m: map<Hash, Proposal>, now: map<Hash, Proposal>, todo: set<Hash>, c: Cycle,
                           nTotalBudget: int, ret: seq<Hash>, nBudgetAllocated: int)
  {
    && todo <= m.Keys == now.Keys && InOrder(m, m.Keys - todo)
    && Listed(m, m.Keys - todo, ret) && Allocation(m, c, nTotalBudget, m.Keys - todo, ret)
    && nBudgetAllocated == Allocated(m, ret)
    && forall k :: k in m ==> now[k] == if k in todo then m[k] else Allot(m[k], c, k in ret)
  }

  lemma ProgressStart(m: map<Hash, Proposal>, c: Cycle, nTotalBudget: int)
    ensures Progress(m, m, m.Keys, c, nTotalBudget, [], 0)
  {
    hide Allot;
    NothingSeen(m, c, nTotalBudget);
  }

  lemma ProgressFront(m: map<Hash, Proposal>, now: map<Hash, Proposal>, todo: set<Hash>, c: Cycle, nTotalBudget: int,
                      ret: seq<Hash>, nBudgetAllocated: int)
    requires Progress(m, now, todo, c, nTotalBudget, ret, nBudgetAllocated) && todo != {}
    ensures exists k: Hash :: Front(now, todo, k)
  {
    hide Front, Allot, InOrder, Listed, Allocation, Allocated;
    FrontExists(now, todo);
  }

  lemma FrontIn(m: map<Hash, Proposal>, s: set<Hash>, k: Hash)
    requires Front(m, s, k)
    ensures k in s && k in m
  {
  }

  lemma ProgressNext(m: map<Hash, Proposal>, now: map<Hash, Proposal>, todo: set<Hash>, c: Cycle, nTotalBudget: int,
                     ret: seq<Hash>, nBudgetAllocated: int, k: Hash)
    requires Progress(m, now, todo, c, nTotalBudget, ret, nBudgetAllocated) && Front(now, todo, k) && k in now
    ensures
      var p := now[k];
      if !Eligible(p, c) then Progress(m, now, todo - {k}, c, nTotalBudget, ret, nBudgetAllocated)
      else if p.nAmount + nBudgetAllocated <= nTotalBudget then
        Progress(m, now[k := p.(nAlloted := p.nAmount)], todo - {k}, c, nTotalBudget, ret + [k],
                 nBudgetAllocated + p.nAmount)
      else Progress(m, now[k := p.(nAlloted := 0)], todo - {k}, c, nTotalBudget, ret, nBudgetAllocated)
  {
    hide Precedes, Eligible, Allocation, Allocated;
    var seen := m.Keys - todo;
    FrontNow(m, now, todo);
    assert m.Keys - seen == todo && seen + {k} == m.Keys - (todo - {k}) && now[k] == m[k];
    InOrderNext(m, seen, k);
    hide Front;
    forall j | j in seen ensures !Precedes(m[k], m[j]) {}
    hide InOrder;
    if Eligible(m[k], c) && m[k].nAmount + nBudgetAllocated <= nTotalBudget {
      AllocatedSame(m, ret, k);
      ListedNext(m, c, nTotalBudget, seen, ret, k);
    } else {
      UnlistedNext(m, c, nTotalBudget, seen, ret, k);
    }
  }

  lemma ProgressEnd(m: map<Hash, Proposal>, now: map<Hash, Proposal>, c: Cycle, nTotalBudget: int, ret: seq<Hash>,
                    nBudgetAllocated: int)
    requires Progress(m, now, {}, c, nTotalBudget, ret, nBudgetAllocated)
    ensures Allocation(m, c, nTotalBudget, m.Keys, ret) && now.Keys == m.Keys
    ensures forall k :: k in now ==> now[k] == Allot(m[k], c, k in ret)
  {
    hide Allot, InOrder, Listed, Allocation, Allocated;
    assert m.Keys - {} == m.Keys;
  }

  predicate Listed(m: map<Hash, Proposal>, seen: set<Hash>, ret: seq<Hash>) {
    forall k :: k in ret ==> k in seen && k in m
  }

  lemma NothingSeen(m: map<Hash, Proposal>, c: Cycle, nTotalBudget: int)
    ensures Allocation(m, c, nTotalBudget, m.Keys - m.Keys, []) && Allocated(m, []) == 0
  {
  }

  /** The allotted amounts play no part in the order. */
  lemma FrontNow(m: map<Hash, Proposal>, now: map<Hash, Proposal>, s: set<Hash>)
    requires s <= m.Keys == now.Keys && forall k :: k in s ==> now[k] == m[k]
    ensures forall k: Hash :: Front(m, s, k) <==> Front(now, s, k)
  {
    hide Precedes;
  }
}
