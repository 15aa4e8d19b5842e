/**
 The partial trees that are accepted, as trees: what is accepted is the encoding of exactly one of
 them, filled up to whole bytes, and nothing may follow it.
 */
module MerkleParts {
  import opened Common
  import opened Arithmetic
  import opened Bits
  import opened MerkleTree
  import opened MerkleProofs

  /** A subtree of which only the hash is known, or a transaction, matched or not; or a node whose one
      child or two children are given. */
  datatype Part = Stub(match_: bool, hash: Hash) | One(left: Part) | Two(left: Part, right: Part)

  /** The part fits the node of a tree over n transactions; only a transaction can be matched. */
  ghost predicate Fits(p: Part, n: nat, height: nat, pos: nat) {
    match p
    case Stub(m, _) => m ==> height == 0
    case One(l) => height > 0 && !(2 * pos + 1 < Width(n, height - 1)) && Fits(l, n, height - 1, 2 * pos)
    case Two(l, r) =>
      && height > 0 && 2 * pos + 1 < Width(n, height - 1)
      && Fits(l, n, height - 1, 2 * pos) && Fits(r, n, height - 1, 2 * pos + 1)
  }

  /** One bit for each node, before those of its children, and the hash of each stub. */
  ghost function Written(p: Part): Encoding {
    match p
    case Stub(m, h) => Encoding([m], [h])
    case One(l) => Encoding([true] + Written(l).bits, Written(l).hashes)
    case Two(l, r) => Encoding([true] + (Written(l).bits + Written(r).bits), Written(l).hashes + Written(r).hashes)
  }

  ghost function HashOf(pair: Pairing, p: Part): Hash {
    match p
    case Stub(_, h) => h
    case One(l) => pair(HashOf(pair, l), HashOf(pair, l))
    case Two(l, r) => pair(HashOf(pair, l), HashOf(pair, r))
  }

  ghost function Matches(p: Part): seq<Hash> {
    match p
    case Stub(m, h) => if m then [h] else []
    case One(l) => Matches(l)
    case Two(l, r) => Matches(l) + Matches(r)
  }

  /** Where a part is written, decoding finds its hash and its matches and stops behind it. */
  lemma {:induction false} ReadsPart(pair: Pairing, n: nat, height: nat, pos: nat, vBits: seq<bool>, vHash: seq<Hash>,
                                     c: Cursor, p: Part)
    requires Fits(p, n, height, pos) && Stands(Written(p), vBits, vHash, c)
    ensures Extract(pair, n, height, pos, vBits, vHash, c) == Found(HashOf(pair, p), After(c, Written(p), Matches(p)))
    decreases p
  {
    hide Width;
    var d := c.(nBitsUsed := c.nBitsUsed + 1);
    match p
    case Stub(m, h) =>
      assert vBits[c.nBitsUsed..c.nBitsUsed + 1][0] == m && vHash[c.nHashUsed..c.nHashUsed + 1][0] == h;
      assert c.vMatch + [] == c.vMatch;
    case One(l) =>
      StandsOne(Written(l), vBits, vHash, c);
      ReadsPart(pair, n, height - 1, 2 * pos, vBits, vHash, d, l);
      AfterOne(c, Written(l), Matches(l));
      ExtractOne(pair, n, height, pos, vBits, vHash, c);
    case Two(l, r) =>
      StandsBoth(Written(l), Written(r), vBits, vHash, c, Matches(l));
      ReadsPart(pair, n, height - 1, 2 * pos, vBits, vHash, d, l);
      ReadsPart(pair, n, height - 1, 2 * pos + 1, vBits, vHash, After(d, Written(l), Matches(l)), r);
      AfterBoth(c, Written(l), Written(r), Matches(l), Matches(r));
      ExtractBoth(pair, n, height, pos, vBits, vHash, c);
  }

  /** Whatever is decoded without a fault is written there. */
  lemma {:induction false} PartRead(pair: Pairing, n: nat, height: nat, pos: nat, vBits: seq<bool>, vHash: seq<Hash>,
                                    c: Cursor) returns (p: Part)
    requires !Extract(pair, n, height, pos, vBits, vHash, c).cursor.fBad
    ensures Fits(p, n, height, pos) && Stands(Written(p), vBits, vHash, c)
    decreases height
  {
    hide *;
    NotBadMeans(pair, n, height, pos, vBits, vHash, c);
    var d := c.(nBitsUsed := c.nBitsUsed + 1);
    if height == 0 || !vBits[c.nBitsUsed] {
      p := Stub(vBits[c.nBitsUsed], vHash[c.nHashUsed]);
      StubStands(n, height, pos, vBits, vHash, c);
    } else if 2 * pos + 1 < Width(n, height - 1) {
      ExtractBoth(pair, n, height, pos, vBits, vHash, c);
      var l := Extract(pair, n, height - 1, 2 * pos, vBits, vHash, d);
      BadStays(pair, n, height - 1, 2 * pos + 1, vBits, vHash, l.cursor);
      var a := PartRead(pair, n, height - 1, 2 * pos, vBits, vHash, d);
      ReadsPart(pair, n, height - 1, 2 * pos, vBits, vHash, d, a);
      var b := PartRead(pair, n, height - 1, 2 * pos + 1, vBits, vHash, l.cursor);
      p := Two(a, b);
      AfterMoves(d, Written(a), Matches(a));
      BothStand(Written(a), Written(b), vBits, vHash, c, l.cursor);
      TwoFits(a, b, n, height, pos);
    } else {
      ExtractOne(pair, n, height, pos, vBits, vHash, c);
      var a := PartRead(pair, n, height - 1, 2 * pos, vBits, vHash, d);
      p := One(a);
      OneStands(Written(a), vBits, vHash, c);
      OneFits(a, n, height, pos);
    }
  }

  lemma NotBadMeans(pair: Pairing, n: nat, height: nat, pos: nat, vBits: seq<bool>, vHash: seq<Hash>, c: Cursor)
    requires !Extract(pair, n, height, pos, vBits, vHash, c).cursor.fBad
    ensures c.nBitsUsed < |vBits| && (height == 0 || !vBits[c.nBitsUsed] ==> c.nHashUsed < |vHash|)
  {
    hide Width;
  }

  lemma AfterMoves(c: Cursor, e: Encoding, picked: seq<Hash>)
    ensures After(c, e, picked).nBitsUsed == c.nBitsUsed + |e.bits|
    ensures After(c, e, picked).nHashUsed == c.nHashUsed + |e.hashes|
  {
  }

  lemma StubStands(n: nat, height: nat, pos: nat, vBits: seq<bool>, vHash: seq<Hash>, c: Cursor)
    requires c.nBitsUsed < |vBits| && c.nHashUsed < |vHash| && (height == 0 || !vBits[c.nBitsUsed])
    ensures
      var p := Stub(vBits[c.nBitsUsed], vHash[c.nHashUsed]);
      Fits(p, n, height, pos) && Stands(Written(p), vBits, vHash, c)
  {
    assert vBits[c.nBitsUsed..c.nBitsUsed + 1] == [vBits[c.nBitsUsed]];
    assert vHash[c.nHashUsed..c.nHashUsed + 1] == [vHash[c.nHashUsed]];
  }

  lemma OneFits(l: Part, n: nat, height: nat, pos: nat)
    requires height > 0 && !(2 * pos + 1 < Width(n, height - 1)) && Fits(l, n, height - 1, 2 * pos)
    ensures Fits(One(l), n, height, pos)
    ensures Written(One(l)) == Encoding([true] + Written(l).bits, Written(l).hashes)
  {
    hide Width;
  }

  lemma TwoFits(l: Part, r: Part, n: nat, height: nat, pos: nat)
    requires height > 0 && 2 * pos + 1 < Width(n, height - 1)
    requires Fits(l, n, height - 1, 2 * pos) && Fits(r, n, height - 1, 2 * pos + 1)
    ensures Fits(Two(l, r), n, height, pos)
    ensures Written(Two(l, r)) ==
            Encoding([true] + (Written(l).bits + Written(r).bits), Written(l).hashes + Written(r).hashes)
  {
    hide Width;
  }

  lemma OneStands(l: Encoding, vBits: seq<bool>, vHash: seq<Hash>, c: Cursor)
    requires c.nBitsUsed < |vBits| && vBits[c.nBitsUsed] && Stands(l, vBits, vHash, c.(nBitsUsed := c.nBitsUsed + 1))
    ensures Stands(Encoding([true] + l.bits, l.hashes), vBits, vHash, c)
  {
    assert vBits[c.nBitsUsed..c.nBitsUsed + 1] == [true];
    AtConcat(vBits, c.nBitsUsed, [true], l.bits);
  }

  lemma BothStand(l: Encoding, r: Encoding, vBits: seq<bool>, vHash: seq<Hash>, c: Cursor, m: Cursor)
    requires c.nBitsUsed < |vBits| && vBits[c.nBitsUsed] && Stands(l, vBits, vHash, c.(nBitsUsed := c.nBitsUsed + 1))
    requires Stands(r, vBits, vHash, m)
    requires m.nBitsUsed == c.nBitsUsed + 1 + |l.bits| && m.nHashUsed == c.nHashUsed + |l.hashes|
    ensures Stands(Encoding([true] + (l.bits + r.bits), l.hashes + r.hashes), vBits, vHash, c)
  {
    assert vBits[c.nBitsUsed..c.nBitsUsed + 1] == [true];
    AtConcat(vBits, c.nBitsUsed + 1, l.bits, r.bits);
    AtConcat(vBits, c.nBitsUsed, [true], l.bits + r.bits);
    AtConcat(vHash, c.nHashUsed, l.hashes, r.hashes);
  }

  /** The bits and hashes are those of the part, and the bits are filled up to whole bytes at most. */
  ghost predicate Is(p: Part, n: nat, vBits: seq<bool>, vHash: seq<Hash>) {
    && Fits(p, n, TreeHeight(n, 0), 0)
    && Written(p).bits <= vBits && (|Written(p).bits| + 7) / 8 == (|vBits| + 7) / 8
    && vHash == Written(p).hashes
  }

  /** What is accepted, besides its sizes, is the encoding of a part, which is what it yields. */
  lemma AcceptedIsEncoding(pair: Pairing, n: nat, vBits: seq<bool>, vHash: seq<Hash>)
    requires SizesFit(n, vBits, vHash)
    ensures Accepted(pair, n, vBits, vHash) <==> exists p :: Is(p, n, vBits, vHash)
    ensures forall p :: Is(p, n, vBits, vHash) ==>
      var d := Decode(pair, n, vBits, vHash);
      d.hash == HashOf(pair, p) && d.cursor.vMatch == Matches(p)
  {
    var h := TreeHeight(n, 0);
    hide TreeHeight, Extract, Written, Fits;
    forall p | Is(p, n, vBits, vHash)
      ensures Decode(pair, n, vBits, vHash) == Found(HashOf(pair, p), After(START, Written(p), Matches(p)))
    {
      assert vBits[0..|Written(p).bits|] == Written(p).bits && vHash[0..|vHash|] == vHash;
      ReadsPart(pair, n, h, 0, vBits, vHash, START, p);
    }
    forall p ensures [] + Matches(p) == Matches(p) {}
    if Accepted(pair, n, vBits, vHash) {
      var p := PartRead(pair, n, h, 0, vBits, vHash, START);
      ReadsPart(pair, n, h, 0, vBits, vHash, START, p);
      assert vHash[0..|vHash|] == vHash;
      assert Is(p, n, vBits, vHash);
    }
  }

  /** No two parts have the same encoding. */
  lemma OnePart(pair: Pairing, n: nat, vBits: seq<bool>, vHash: seq<Hash>, p: Part, q: Part)
    requires Is(p, n, vBits, vHash) && Is(q, n, vBits, vHash)
    ensures p == q
  {
    assert vBits[0..|Written(p).bits|] == Written(p).bits && vHash[0..|vHash|] == vHash;
    assert vBits[0..|Written(q).bits|] == Written(q).bits;
    SamePart(n, TreeHeight(n, 0), 0, vBits, vHash, START, p, q);
  }

  lemma {:induction false} SamePart(n: nat, height: nat, pos: nat, vBits: seq<bool>, vHash: seq<Hash>, c: Cursor,
                                    p: Part, q: Part)
    requires Fits(p, n, height, pos) && Stands(Written(p), vBits, vHash, c)
    requires Fits(q, n, height, pos) && Stands(Written(q), vBits, vHash, c)
    ensures p == q
    decreases p
  {
    hide Width;
    FirstBit(p, vBits, vHash, c);
    FirstBit(q, vBits, vHash, c);
    var d := c.(nBitsUsed := c.nBitsUsed + 1);
    match (p, q)
    case (One(a), One(b)) =>
      StandsOne(Written(a), vBits, vHash, c);
      StandsOne(Written(b), vBits, vHash, c);
      SamePart(n, height - 1, 2 * pos, vBits, vHash, d, a, b);
    case (Two(a, x), Two(b, y)) =>
      StandsBoth(Written(a), Written(x), vBits, vHash, c, []);
      StandsBoth(Written(b), Written(y), vBits, vHash, c, []);
      SamePart(n, height - 1, 2 * pos, vBits, vHash, d, a, b);
      SamePart(n, height - 1, 2 * pos + 1, vBits, vHash, After(d, Written(a), []), x, y);
    case _ =>
  }

  lemma FirstBit(p: Part, vBits: seq<bool>, vHash: seq<Hash>, c: Cursor)
    requires Stands(Written(p), vBits, vHash, c)
    ensures c.nBitsUsed < |vBits|
    ensures p.Stub? ==> vBits[c.nBitsUsed] == p.match_ && c.nHashUsed < |vHash| && vHash[c.nHashUsed] == p.hash
    ensures !p.Stub? ==> vBits[c.nBitsUsed]
  {
    var e := Written(p);
    assert vBits[c.nBitsUsed] == vBits[c.nBitsUsed..c.nBitsUsed + |e.bits|][0];
    if p.Stub? { assert vHash[c.nHashUsed] == vHash[c.nHashUsed..c.nHashUsed + 1][0]; }
  }

  /** Nothing may follow an accepted tree but bits that fill up its last byte. */
  lemma NothingFollows(pair: Pairing, n: nat, vBits: seq<bool>, vHash: seq<Hash>, bits: seq<bool>, hashes: seq<Hash>)
    requires Accepted(pair, n, vBits, vHash)
    ensures Accepted(pair, n, vBits + bits, vHash + hashes) <==>
      hashes == [] && (|vBits + bits| + 7) / 8 == (|vBits| + 7) / 8
  {
    AcceptedIsEncoding(pair, n, vBits, vHash);
    var p :| Is(p, n, vBits, vHash);
    var e := Written(p);
    var b, h := vBits + bits, vHash + hashes;
    assert b[0..|e.bits|] == e.bits && h[0..|e.hashes|] == e.hashes;
    hide TreeHeight, Extract, Written, Fits;
    ReadsPart(pair, n, TreeHeight(n, 0), 0, b, h, START, p);
    assert hashes == [] ==> h == vHash;
  }
}
