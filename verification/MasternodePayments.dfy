/** Votes of masternodes for who is paid in which block, and the check of a block's payment. */
module MasternodePayments {
  import opened Common
  import opened Coins
  import opened BlockOutputs

  datatype Payee = Payee(scriptPubKey: Script, nVotes: int)
  datatype BlockPayees = BlockPayees(nBlockHeight: int, vecPayments: seq<Payee>)
  datatype Winner = Winner(vinMasternode: nat, nBlockHeight: int, payee: Script)

  const SIGNATURES_REQUIRED: int := 6

  // ------------------------------------------------------------ the tally of one block

  /** The votes listed for p. */
  function VotesOf(v: seq<Payee>, p: Script): int {
    if v == [] then 0 else if v[0].scriptPubKey == p then v[0].nVotes else VotesOf(v[1..], p)
  }

  predicate NoRepeats(v: seq<Payee>) {
    forall i, j :: 0 <= i < j < |v| ==> v[i].scriptPubKey != v[j].scriptPubKey
  }

  predicate AllVoted(v: seq<Payee>) { forall i :: 0 <= i < |v| ==> v[i].nVotes > 0 }

  lemma {:induction false} VotesAt(v: seq<Payee>, i: nat)
    requires NoRepeats(v) && i < |v|
    ensures VotesOf(v, v[i].scriptPubKey) == v[i].nVotes
  {
    if i > 0 { VotesAt(v[1..], i - 1); }
  }

  lemma {:induction false} VotesOfOther(v: seq<Payee>, p: Script)
    requires forall i :: 0 <= i < |v| ==> v[i].scriptPubKey != p
    ensures VotesOf(v, p) == 0
  {
    if v != [] { VotesOfOther(v[1..], p); }
  }

  lemma {:induction false} VotesOfRaised(v: seq<Payee>, i: nat, c: Payee, q: Script)
    requires i < |v| && NoRepeats(v) && c.scriptPubKey == v[i].scriptPubKey
    ensures VotesOf(v[i := c], q) == if q == c.scriptPubKey then c.nVotes else VotesOf(v, q)
  {
    if i > 0 {
      assert v[i := c][1..] == v[1..][i - 1 := c];
      VotesOfRaised(v[1..], i - 1, c, q);
    }
  }

  lemma {:induction false} VotesOfMore(v: seq<Payee>, c: Payee, q: Script)
    requires forall i :: 0 <= i < |v| ==> v[i].scriptPubKey != c.scriptPubKey
    ensures VotesOf(v + [c], q) == if q == c.scriptPubKey then c.nVotes else VotesOf(v, q)
  {
    if v != [] {
      assert (v + [c])[1..] == v[1..] + [c];
      VotesOfMore(v[1..], c, q);
    }
  }

  predicate SameScripts(v: seq<Payee>, w: seq<Payee>) {
    |v| == |w| && forall i :: 0 <= i < |v| ==> v[i].scriptPubKey == w[i].scriptPubKey
  }

  /** w lists the payees of v in the same order, and at most one more at the end. */
  predicate Extends(v: seq<Payee>, w: seq<Payee>) { |v| <= |w| <= |v| + 1 && SameScripts(w[..|v|], v) }

  /** Only the payee's votes go up; a payee without votes goes to the end of the list. */
  method AddPayee(vecPayments: seq<Payee>, payeeIn: Script, nIncrement: int) returns (v: seq<Payee>)
    requires NoRepeats(vecPayments) && AllVoted(vecPayments) && nIncrement > 0
    ensures NoRepeats(v) && AllVoted(v) && v != []
    ensures forall q :: VotesOf(v, q) == VotesOf(vecPayments, q) + (if q == payeeIn then nIncrement else 0)
    ensures Extends(vecPayments, v)
  {
    for i := 0 to |vecPayments|
      invariant forall j :: 0 <= j < i ==> vecPayments[j].scriptPubKey != payeeIn
    {
      var payee := vecPayments[i];
      if payee.scriptPubKey == payeeIn {
        var c := payee.(nVotes := payee.nVotes + nIncrement);
        v := vecPayments[i := c];
        VotesAt(vecPayments, i);
        forall q ensures VotesOf(v, q) == VotesOf(vecPayments, q) + (if q == payeeIn then nIncrement else 0) {
          VotesOfRaised(vecPayments, i, c, q);
        }
        return;
      }
    }
    var c := Payee(payeeIn, nIncrement);
    v := vecPayments + [c];
    VotesOfOther(vecPayments, payeeIn);
    forall q ensures VotesOf(v, q) == VotesOf(vecPayments, q) + (if q == payeeIn then nIncrement else 0) {
      VotesOfMore(vecPayments, c, q);
    }
  }

  /** The first payee in the list with the most votes. */
  predicate Leads(v: seq<Payee>, i: nat)
  {
    i < |v| && forall j :: 0 <= j < |v| ==> v[j].nVotes <= v[i].nVotes && (j < i ==> v[j].nVotes < v[i].nVotes)
  }

  method GetPayee(vecPayments: seq<Payee>) returns (payee: Option<Script>, ghost i: nat)
    ensures payee.None? <==> forall j :: 0 <= j < |vecPayments| ==> vecPayments[j].nVotes < 0
    ensures payee.Some? ==> Leads(vecPayments, i) && payee.value == vecPayments[i].scriptPubKey
  {
    var nVotes := -1;
    payee, i := None, 0;
    for n := 0 to |vecPayments|
      invariant payee.None? ==> nVotes == -1 && forall j :: 0 <= j < n ==> vecPayments[j].nVotes < 0
      invariant payee.Some? ==> Leads(vecPayments[..n], i) && nVotes == vecPayments[i].nVotes >= 0
      invariant payee.Some? ==> payee.value == vecPayments[i].scriptPubKey
    {
      if vecPayments[n].nVotes > nVotes {
        payee, i := Some(vecPayments[n].scriptPubKey), n;
        nVotes := vecPayments[n].nVotes;
      }
    }
    assert vecPayments[..|vecPayments|] == vecPayments;
  }

  method HasPayeeWithVotes(vecPayments: seq<Payee>, payee: Script, nVotesReq: int) returns (found: bool)
    requires NoRepeats(vecPayments) && AllVoted(vecPayments) && nVotesReq > 0
    ensures found <==> VotesOf(vecPayments, payee) >= nVotesReq
  {
    for i := 0 to |vecPayments|
      invariant forall j :: 0 <= j < i ==> vecPayments[j].nVotes < nVotesReq || vecPayments[j].scriptPubKey != payee
    {
      VotesAt(vecPayments, i);
      if vecPayments[i].nVotes >= nVotesReq && vecPayments[i].scriptPubKey == payee { return true; }
    }
    VotesBelow(vecPayments, payee, nVotesReq);
    return false;
  }

  lemma {:induction false} VotesBelow(v: seq<Payee>, p: Script, n: int)
    requires n > 0 && forall j :: 0 <= j < |v| ==> v[j].nVotes < n || v[j].scriptPubKey != p
    ensures VotesOf(v, p) < n
  {
    if v != [] { VotesBelow(v[1..], p, n); }
  }

  // ------------------------------------------------------------ the check of a payment

  predicate Elected(p: Payee) { p.nVotes >= SIGNATURES_REQUIRED }

  /** Nobody has enough votes, or one of those who have is paid enough. */
  predicate PaymentAccepted(v: seq<Payee>, vout: seq<TxOut>, required: int) {
    (forall i :: 0 <= i < |v| ==> !Elected(v[i]))
    || exists i :: 0 <= i < |v| && Elected(v[i]) && Pays(vout, v[i].scriptPubKey, required)
  }

  method BlockIsTransactionValid(vecPayments: seq<Payee>, vout: seq<TxOut>, requiredMasternodePayment: int)
    returns (ok: bool)
    ensures ok <==> PaymentAccepted(vecPayments, vout, requiredMasternodePayment)
  {
    var nMaxSignatures := 0;
    for i := 0 to |vecPayments|
      invariant nMaxSignatures == 0 || nMaxSignatures >= SIGNATURES_REQUIRED
      invariant nMaxSignatures == 0 <==> forall j :: 0 <= j < i ==> !Elected(vecPayments[j])
      invariant forall j :: 0 <= j < i && Elected(vecPayments[j]) ==> vecPayments[j].nVotes <= nMaxSignatures
    {
      if vecPayments[i].nVotes >= nMaxSignatures && vecPayments[i].nVotes >= SIGNATURES_REQUIRED {
        nMaxSignatures := vecPayments[i].nVotes;
      }
    }
    if nMaxSignatures < SIGNATURES_REQUIRED { return true; }
    for i := 0 to |vecPayments|
      invariant forall j :: 0 <= j < i ==>
        !Elected(vecPayments[j]) || !Pays(vout, vecPayments[j].scriptPubKey, requiredMasternodePayment)
    {
      var payee := vecPayments[i];
      var found := false;
      for k := 0 to |vout|
        invariant found <==>
          exists l :: 0 <= l < k && vout[l].script == payee.scriptPubKey && vout[l].nValue >= requiredMasternodePayment
      {
        if payee.scriptPubKey == vout[k].script && vout[k].nValue >= requiredMasternodePayment { found := true; }
      }
      if payee.nVotes >= SIGNATURES_REQUIRED && found { return true; }
    }
    return false;
  }

  /** Whoever has the most votes can be paid: the check cannot refuse it. */
  lemma LeaderIsAccepted(v: seq<Payee>, i: nat, vout: seq<TxOut>, required: int)
    requires Leads(v, i) && Pays(vout, v[i].scriptPubKey, required)
    ensures PaymentAccepted(v, vout, required)
  {
    if Elected(v[i]) { assert Pays(vout, v[i].scriptPubKey, required); }
  }

  // ------------------------------------------------------------ the votes kept

  /** The kept votes for p at height h. */
  ghost function Ballots(votes: map<Hash, Winner>, h: int, p: Script): set<Hash> {
    set k | k in votes && votes[k].nBlockHeight == h && votes[k].payee == p
  }

  ghost function Tally(votes: map<Hash, Winner>, h: int, p: Script): nat { |Ballots(votes, h, p)| }

  lemma InBallots(votes: map<Hash, Winner>, h: int, p: Script, k: Hash)
    ensures k in Ballots(votes, h, p) <==> k in votes && votes[k].nBlockHeight == h && votes[k].payee == p
  {
  }

  lemma TallyMore(votes: map<Hash, Winner>, k: Hash, w: Winner, h: int, p: Script)
    requires k !in votes
    ensures Tally(votes[k := w], h, p) == Tally(votes, h, p) + (if w.nBlockHeight == h && w.payee == p then 1 else 0)
  {
    var a, b := Ballots(votes, h, p), Ballots(votes[k := w], h, p);
    InBallots(votes, h, p, k);
    hide Ballots;
    if w.nBlockHeight == h && w.payee == p {
      forall x ensures x in b <==> x in a + {k} { InBallots(votes, h, p, x); InBallots(votes[k := w], h, p, x); }
      assert b == a + {k};
    } else {
      forall x ensures x in b <==> x in a { InBallots(votes, h, p, x); InBallots(votes[k := w], h, p, x); }
      assert b == a;
    }
  }

  /** The tally of a height depends on the votes at that height only. */
  lemma TallySame(votes: map<Hash, Winner>, votes1: map<Hash, Winner>, h: int, p: Script)
    requires forall k :: k in votes && votes[k].nBlockHeight == h ==> k in votes1 && votes1[k] == votes[k]
    requires forall k :: k in votes1 && votes1[k].nBlockHeight == h ==> k in votes && votes1[k] == votes[k]
    ensures Tally(votes1, h, p) == Tally(votes, h, p)
  {
    var a, b := Ballots(votes, h, p), Ballots(votes1, h, p);
    hide Ballots;
    forall x ensures x in b <==> x in a { InBallots(votes, h, p, x); InBallots(votes1, h, p, x); }
    assert a == b;
  }

  lemma TallyZero(votes: map<Hash, Winner>, h: int, p: Script)
    ensures Tally(votes, h, p) == 0 <==> forall k :: k in votes ==> votes[k].nBlockHeight != h || votes[k].payee != p
  {
    var a := Ballots(votes, h, p);
    forall k ensures k in a <==> k in votes && votes[k].nBlockHeight == h && votes[k].payee == p {
      InBallots(votes, h, p, k);
    }
    hide Ballots;
    if a != {} {
      assert (forall k :: k !in a) ==> a == {};
      var k :| k in a;
    }
  }

  /** The block's list is the tally of the votes at its height. */
  ghost predicate Tallied(b: BlockPayees, votes: map<Hash, Winner>, h: int) {
    && b.nBlockHeight == h && NoRepeats(b.vecPayments) && AllVoted(b.vecPayments) && b.vecPayments != []
    && forall p :: VotesOf(b.vecPayments, p) == Tally(votes, h, p)
  }

  ghost predicate AllTallied(blocks: map<int, BlockPayees>, votes: map<Hash, Winner>) {
    && (forall h :: h in blocks ==> Tallied(blocks[h], votes, h))
    && (forall k :: k in votes ==> votes[k].nBlockHeight in blocks)
  }

  lemma TalliedSame(b: BlockPayees, votes: map<Hash, Winner>, votes1: map<Hash, Winner>, h: int)
    requires Tallied(b, votes, h)
    requires forall k :: k in votes && votes[k].nBlockHeight == h ==> k in votes1 && votes1[k] == votes[k]
    requires forall k :: k in votes1 && votes1[k].nBlockHeight == h ==> k in votes && votes1[k] == votes[k]
    ensures Tallied(b, votes1, h)
  {
    hide Tally, NoRepeats, AllVoted, VotesOf;
    forall p ensures Tally(votes1, h, p) == Tally(votes, h, p) { TallySame(votes, votes1, h, p); }
  }

  lemma TalliedMore(b: BlockPayees, votes: map<Hash, Winner>, k: Hash, w: Winner, v: seq<Payee>)
    requires k !in votes && NoRepeats(v) && AllVoted(v) && v != [] && b.nBlockHeight == w.nBlockHeight
    requires forall p :: VotesOf(b.vecPayments, p) == Tally(votes, w.nBlockHeight, p)
    requires forall q :: VotesOf(v, q) == VotesOf(b.vecPayments, q) + (if q == w.payee then 1 else 0)
    ensures Tallied(b.(vecPayments := v), votes[k := w], w.nBlockHeight)
  {
    hide Tally, NoRepeats, AllVoted, VotesOf;
    forall p { TallyMore(votes, k, w, w.nBlockHeight, p); }
  }

  lemma NoVotesYet(votes: map<Hash, Winner>, h: int)
    requires forall k :: k in votes ==> votes[k].nBlockHeight != h
    ensures forall p :: VotesOf([], p) == Tally(votes, h, p)
  {
    hide Tally;
    forall p ensures Tally(votes, h, p) == 0 { TallyZero(votes, h, p); }
  }

  /** Every listed height has a vote. */
  lemma ListedHasVote(b: BlockPayees, votes: map<Hash, Winner>, h: int) returns (k: Hash)
    requires Tallied(b, votes, h)
    ensures k in votes && votes[k].nBlockHeight == h
  {
    var p := b.vecPayments[0].scriptPubKey;
    VotesAt(b.vecPayments, 0);
    assert Tally(votes, h, p) > 0;
    hide Tally, VotesOf;
    TallyZero(votes, h, p);
    k :| k in votes && votes[k].nBlockHeight == h && votes[k].payee == p;
  }

  predicate Old(h: int, nHeight: int, nLimit: int) { nHeight - h > nLimit }

  function YoungVotes(votes: map<Hash, Winner>, nHeight: int, nLimit: int): map<Hash, Winner> {
    map k | k in votes && !Old(votes[k].nBlockHeight, nHeight, nLimit) :: votes[k]
  }

  function YoungBlocks(blocks: map<int, BlockPayees>, nHeight: int, nLimit: int): map<int, BlockPayees> {
    map h | h in blocks && !Old(h, nHeight, nLimit) :: blocks[h]
  }

  lemma YoungAreTallied(blocks: map<int, BlockPayees>, votes: map<Hash, Winner>, nHeight: int, nLimit: int)
    requires AllTallied(blocks, votes)
    ensures AllTallied(YoungBlocks(blocks, nHeight, nLimit), YoungVotes(votes, nHeight, nLimit))
  {
    var blocks1, votes1 := YoungBlocks(blocks, nHeight, nLimit), YoungVotes(votes, nHeight, nLimit);
    hide Tallied;
    forall h | h in blocks1 ensures Tallied(blocks1[h], votes1, h) { TalliedSame(blocks[h], votes, votes1, h); }
  }

  /** Some output pays p what is required. */
  ghost predicate Paid(vout: seq<TxOut>, p: Script, required: int) {
    exists o :: o in vout && o.script == p && o.nValue >= required
  }

  /** In terms of the kept votes, a payment is accepted if and only if nobody has six of them, or somebody who
      has is paid what is required. */
  lemma AcceptedByVotes(b: BlockPayees, votes: map<Hash, Winner>, h: int, vout: seq<TxOut>, required: int)
    requires Tallied(b, votes, h)
    ensures PaymentAccepted(b.vecPayments, vout, required) <==>
      || (forall p :: Tally(votes, h, p) < 6)
      || exists p :: Tally(votes, h, p) >= 6 && Paid(vout, p, required)
  {
    hide Tally;
    var v := b.vecPayments;
    forall i | 0 <= i < |v| ensures VotesOf(v, v[i].scriptPubKey) == v[i].nVotes { VotesAt(v, i); }
    forall p | forall i :: 0 <= i < |v| ==> v[i].nVotes < 6 || v[i].scriptPubKey != p
      ensures Tally(votes, h, p) < 6
    {
      VotesBelow(v, p, 6);
    }
    forall p ensures Paid(vout, p, required) <==> Pays(vout, p, required) {
      assert forall k :: 0 <= k < |vout| ==> vout[k] in vout;
    }
    hide VotesOf;
    forall p | Tally(votes, h, p) >= 6
      ensures exists i :: 0 <= i < |v| && v[i].nVotes >= 6 && v[i].scriptPubKey == p
    {
      var i :| 0 <= i < |v| && v[i].nVotes >= 6 && v[i].scriptPubKey == p;
    }
  }

  lemma AreYoung(votes1: map<Hash, Winner>, blocks1: map<int, BlockPayees>, votes: map<Hash, Winner>,
                 blocks: map<int, BlockPayees>, nHeight: int, nLimit: int)
    requires forall k :: k in votes1 <==> k in votes && !Old(votes[k].nBlockHeight, nHeight, nLimit)
    requires forall k :: k in votes1 ==> votes1[k] == votes[k]
    requires forall h :: h in blocks1 <==> h in blocks && !Old(h, nHeight, nLimit)
    requires forall h :: h in blocks1 ==> blocks1[h] == blocks[h]
    ensures votes1 == YoungVotes(votes, nHeight, nLimit) && blocks1 == YoungBlocks(blocks, nHeight, nLimit)
  {
    hide Old;
    var y, z := YoungVotes(votes, nHeight, nLimit), YoungBlocks(blocks, nHeight, nLimit);
    forall k ensures k in votes1 <==> k in y {}
    forall h ensures h in blocks1 <==> h in z {}
    assert votes1.Keys == y.Keys && blocks1.Keys == z.Keys;
    forall k | k in y ensures votes1[k] == y[k] {}
    forall h | h in z ensures blocks1[h] == z[h] {}
  }

  /** The outputs that were there keep their scripts, and their values but for the one that the
      payment is taken from. */
  predicate Kept(vout: seq<TxOut>, kept: seq<TxOut>, blockValue: int, masternodePayment: int, fProofOfStake: bool)
    requires fProofOfStake ==> vout != []
  {
    if fProofOfStake then
      var last := vout[|vout| - 1];
      kept == vout[..|vout| - 1] + [last.(nValue := last.nValue - masternodePayment)]
    else
      kept == [(if vout == [] then NULL_OUT else vout[0]).(nValue := blockValue - masternodePayment)]
  }

  class MasternodePaymentVotes {
    var mapMasternodePayeeVotes: map<Hash, Winner>
    var mapMasternodeBlocks: map<int, BlockPayees>

    /** The stored tally of each height and payee is the number of kept votes for the pair. */
    ghost predicate Valid()
      reads this
    {
      AllTallied(mapMasternodeBlocks, mapMasternodePayeeVotes)
    }

    constructor ()
      ensures Valid() && mapMasternodePayeeVotes == map[] && mapMasternodeBlocks == map[]
    {
      mapMasternodePayeeVotes := map[];
      mapMasternodeBlocks := map[];
    }

    /** hash is the winner's hash; fKnown says whether the chain has the block it is voted from. */
    method AddWinningMasternode(winnerIn: Winner, hash: Hash, fKnown: bool) returns (added: bool)
      requires Valid()
      modifies this
      ensures Valid()
      ensures added <==> fKnown && hash !in old(mapMasternodePayeeVotes)
      ensures mapMasternodePayeeVotes ==
        if added then old(mapMasternodePayeeVotes)[hash := winnerIn] else old(mapMasternodePayeeVotes)
      ensures !added ==> mapMasternodeBlocks == old(mapMasternodeBlocks)
      ensures added ==>
        var h, was := winnerIn.nBlockHeight, old(mapMasternodeBlocks);
        h in mapMasternodeBlocks
          && Extends(if h in was then was[h].vecPayments else [], mapMasternodeBlocks[h].vecPayments)
      ensures forall h :: h != winnerIn.nBlockHeight ==>
        (h in mapMasternodeBlocks <==> h in old(mapMasternodeBlocks))
        && (h in mapMasternodeBlocks ==> mapMasternodeBlocks[h] == old(mapMasternodeBlocks)[h])
    {
      if !fKnown { return false; }
      if hash in mapMasternodePayeeVotes { return false; }
      ghost var votes, blocks := mapMasternodePayeeVotes, mapMasternodeBlocks;
      var h := winnerIn.nBlockHeight;
      mapMasternodePayeeVotes := mapMasternodePayeeVotes[hash := winnerIn];
      if h !in mapMasternodeBlocks {
        mapMasternodeBlocks := mapMasternodeBlocks[h := BlockPayees(h, [])];
        NoVotesYet(votes, h);
      }
      var b := mapMasternodeBlocks[h];
      var v := AddPayee(b.vecPayments, winnerIn.payee, 1);
      mapMasternodeBlocks := mapMasternodeBlocks[h := b.(vecPayments := v)];
      TalliedMore(b, votes, hash, winnerIn, v);
      hide Tallied;
      forall g | g in mapMasternodeBlocks && g != h
        ensures Tallied(mapMasternodeBlocks[g], mapMasternodePayeeVotes, g)
      {
        TalliedSame(blocks[g], votes, mapMasternodePayeeVotes, g);
      }
      return true;
    }

    /** All the votes and lists that are too old go, and nothing else. nSize is the number of
        masternodes. */
    method CleanPaymentList(tip: Option<int>, nSize: nat)
      requires Valid()
      modifies this
      ensures Valid()
      ensures tip.None? ==>
        mapMasternodePayeeVotes == old(mapMasternodePayeeVotes) && mapMasternodeBlocks == old(mapMasternodeBlocks)
      ensures tip.Some? ==>
        var nLimit := if nSize * 5 / 4 > 1000 then nSize * 5 / 4 else 1000;
        && mapMasternodePayeeVotes == YoungVotes(old(mapMasternodePayeeVotes), tip.value, nLimit)
        && mapMasternodeBlocks == YoungBlocks(old(mapMasternodeBlocks), tip.value, nLimit)
        && (forall k :: k in mapMasternodePayeeVotes <==>
              k in old(mapMasternodePayeeVotes)
              && old(mapMasternodePayeeVotes)[k].nBlockHeight >= tip.value - nLimit)
        && (forall h :: h in mapMasternodeBlocks <==> h in old(mapMasternodeBlocks) && h >= tip.value - nLimit)
    {
      if tip.None? { return; }
      var nHeight := tip.value;
      var nLimit := if nSize * 5 / 4 > 1000 then nSize * 5 / 4 else 1000;
      ghost var votes, blocks := mapMasternodePayeeVotes, mapMasternodeBlocks;
      var todo := mapMasternodePayeeVotes.Keys;
      while todo != {}
        invariant todo <= votes.Keys
        invariant forall k :: k in mapMasternodePayeeVotes <==>
          k in votes && (k in todo || !Old(votes[k].nBlockHeight, nHeight, nLimit))
        invariant forall k :: k in mapMasternodePayeeVotes ==> mapMasternodePayeeVotes[k] == votes[k]
        invariant forall h :: h in mapMasternodeBlocks ==> h in blocks && mapMasternodeBlocks[h] == blocks[h]
        invariant forall h :: h in blocks && !Old(h, nHeight, nLimit) ==> h in mapMasternodeBlocks
        invariant forall k :: k in votes && k !in todo && Old(votes[k].nBlockHeight, nHeight, nLimit) ==>
          votes[k].nBlockHeight !in mapMasternodeBlocks
      {
        var it :| it in todo;
        todo := todo - {it};
        var winner := mapMasternodePayeeVotes[it];
        if nHeight - winner.nBlockHeight > nLimit {
          mapMasternodePayeeVotes := mapMasternodePayeeVotes - {it};
          mapMasternodeBlocks := mapMasternodeBlocks - {winner.nBlockHeight};
        }
      }
      hide Tallied;
      forall h | h in blocks && Old(h, nHeight, nLimit) ensures h !in mapMasternodeBlocks {
        var k := ListedHasVote(blocks[h], votes, h);
      }
      AreYoung(mapMasternodePayeeVotes, mapMasternodeBlocks, votes, blocks, nHeight, nLimit);
      YoungAreTallied(blocks, votes, nHeight, nLimit);
    }

    /** Whoever is returned has at least as many kept votes for the height as anyone else; without
        a kept vote there is nobody. */
    method GetBlockPayee(nBlockHeight: int) returns (payee: Option<Script>)
      requires Valid()
      ensures payee.Some? <==> nBlockHeight in mapMasternodeBlocks
      ensures payee.Some? ==>
        var p := payee.value;
        (forall q :: Tally(mapMasternodePayeeVotes, nBlockHeight, q) <= Tally(mapMasternodePayeeVotes, nBlockHeight, p))
        && Tally(mapMasternodePayeeVotes, nBlockHeight, p) > 0
        && exists i: nat ::
          Leads(mapMasternodeBlocks[nBlockHeight].vecPayments, i)
            && mapMasternodeBlocks[nBlockHeight].vecPayments[i].scriptPubKey == p
      ensures payee.None? ==> forall q :: Tally(mapMasternodePayeeVotes, nBlockHeight, q) == 0
    {
      if nBlockHeight !in mapMasternodeBlocks {
        NoVotesYet(mapMasternodePayeeVotes, nBlockHeight);
        return None;
      }
      ghost var i;
      var b := mapMasternodeBlocks[nBlockHeight];
      payee, i := GetPayee(b.vecPayments);
      assert Tallied(b, mapMasternodePayeeVotes, nBlockHeight);
      hide Tally;
      assert b.vecPayments[0].nVotes > 0;
      VotesAt(b.vecPayments, i);
      forall q ensures VotesOf(b.vecPayments, q) <= b.vecPayments[i].nVotes {
        VotesBelow(b.vecPayments, q, b.vecPayments[i].nVotes + 1);
      }
    }

    method IsTransactionValid(vout: seq<TxOut>, nBlockHeight: int, requiredMasternodePayment: int) returns (ok: bool)
      ensures ok <==> (nBlockHeight in mapMasternodeBlocks ==>
        PaymentAccepted(mapMasternodeBlocks[nBlockHeight].vecPayments, vout, requiredMasternodePayment))
    {
      if nBlockHeight in mapMasternodeBlocks {
        ok := BlockIsTransactionValid(mapMasternodeBlocks[nBlockHeight].vecPayments, vout, requiredMasternodePayment);
        return;
      }
      return true;
    }

    /** With a payee for the height, an output is added that pays it. In a proof-of-stake block the
        amount is taken from the last output, so the total stays; in any other the outputs share the
        block's value. What is added passes the check when it is not less than what is required.
        `winning` is the payee of the masternode that is next when nobody was voted for. */
    method FillBlockPayee(vout: seq<TxOut>, nBlockHeight: int, winning: Option<Script>, blockValue: int,
                          masternodePayment: int, fProofOfStake: bool)
      returns (after: seq<TxOut>)
      requires Valid() && (fProofOfStake ==> vout != [])
      ensures nBlockHeight !in mapMasternodeBlocks && winning.None? ==> after == vout
      ensures nBlockHeight in mapMasternodeBlocks || winning.Some? ==>
        && |after| == (if fProofOfStake then |vout| + 1 else 2)
        && after[|after| - 1].nValue == masternodePayment
        && (nBlockHeight !in mapMasternodeBlocks ==> after[|after| - 1].script == winning.value)
        && Total(after) == (if fProofOfStake then Total(vout) else blockValue)
        && Kept(vout, after[..|after| - 1], blockValue, masternodePayment, fProofOfStake)
      ensures nBlockHeight in mapMasternodeBlocks ==>
        var p := after[|after| - 1].script;
        forall q :: Tally(mapMasternodePayeeVotes, nBlockHeight, q) <= Tally(mapMasternodePayeeVotes, nBlockHeight, p)
      ensures forall required :: required <= masternodePayment && nBlockHeight in mapMasternodeBlocks ==>
        PaymentAccepted(mapMasternodeBlocks[nBlockHeight].vecPayments, after, required)
    {
      var voted := GetBlockPayee(nBlockHeight);
      hide Valid, PaymentAccepted, Total, Tally;
      var payee: Script := [];
      if voted.None? {
        if winning.None? { return vout; }
        payee := winning.value;
      } else {
        payee := voted.value;
      }
      if fProofOfStake {
        var i := |vout|;
        after := Resized(vout, i + 1);
        after := after[i := after[i].(script := payee)];
        after := after[i := after[i].(nValue := masternodePayment)];
        after := after[i - 1 := after[i - 1].(nValue := after[i - 1].nValue - masternodePayment)];
        assert after ==
               vout[i - 1 := vout[i - 1].(nValue := vout[i - 1].nValue - masternodePayment)] +
                 [Paying(payee, masternodePayment)];
        TotalSplit(vout, payee, masternodePayment);
      } else {
        after := Resized(vout, 2);
        after := after[1 := after[1].(script := payee)];
        after := after[1 := after[1].(nValue := masternodePayment)];
        after := after[0 := after[0].(nValue := blockValue - masternodePayment)];
        assert after == [after[0], after[1]];
        TotalOfTwo(after[0], after[1]);
      }
      if voted.Some? {
        ghost var v := mapMasternodeBlocks[nBlockHeight].vecPayments;
        ghost var i: nat :| Leads(v, i) && v[i].scriptPubKey == payee;
        forall required | required <= masternodePayment ensures PaymentAccepted(v, after, required) {
          assert after[|after| - 1].nValue >= required;
          LeaderIsAccepted(v, i, after, required);
        }
      }
    }
  }
}
