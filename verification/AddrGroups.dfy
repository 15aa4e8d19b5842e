/**
 The hashing of the address manager, down to the keyed hashes themselves, and the design goal
 that it serves: addresses of one range cannot fill the tables.
 */
module AddrGroups {
  import opened AddrTables
  import opened AddrInvariant
  import opened AddrRuns

  /** Keyed hashes of what is written to the hasher, cut to 64 bits, and the range of an address. */
  datatype Hashes = Hashes(
    ofAddress: (int, Service) -> nat,
    ofRange: (int, seq<int>, nat) -> nat,
    ofRanges: (int, seq<int>, seq<int>) -> nat,
    ofSource: (int, seq<int>, nat) -> nat,
    ofPlace: (int, char, int, Service) -> nat,
    group: NetAddr -> seq<int>,
    routable: NetAddr -> bool)

  const TRIED_BUCKET_COUNT := 256
  const NEW_BUCKET_COUNT := 1024
  const BUCKET_SIZE := 64
  const TRIED_BUCKETS_PER_GROUP := 8
  const NEW_BUCKETS_PER_SOURCE_GROUP := 64
  const NEW_BUCKETS_PER_ADDRESS := 8

  function GetTriedBucket(h: Hashes, nKey: int, s: Service): int {
    var hash1 := h.ofAddress(nKey, s);
    var hash2 := h.ofRange(nKey, h.group(s.host), hash1 % TRIED_BUCKETS_PER_GROUP);
    hash2 % TRIED_BUCKET_COUNT
  }

  function GetNewBucket(h: Hashes, nKey: int, s: Service, src: NetAddr): int {
    var hash1 := h.ofRanges(nKey, h.group(s.host), h.group(src));
    var hash2 := h.ofSource(nKey, h.group(src), hash1 % NEW_BUCKETS_PER_SOURCE_GROUP);
    hash2 % NEW_BUCKET_COUNT
  }

  function GetBucketPosition(h: Hashes, nKey: int, fNew: bool, nBucket: int, s: Service): int {
    h.ofPlace(nKey, if fNew then 'N' else 'K', nBucket, s) % BUCKET_SIZE
  }

  function Main(h: Hashes): (c: Config)
    ensures c.Valid()
  {
    Config(
      TRIED_BUCKET_COUNT, NEW_BUCKET_COUNT, BUCKET_SIZE, NEW_BUCKETS_PER_ADDRESS,
      (nKey, s) => GetTriedBucket(h, nKey, s),
      (nKey, s, src) => GetNewBucket(h, nKey, s, src),
      (nKey, fNew, b, s) => GetBucketPosition(h, nKey, fNew, b, s),
      h.routable)
  }

  /** The slots of a bucket, up to a position. */
  function Row(b: int, n: nat): (r: set<Slot>)
    ensures |r| <= n && forall i :: 0 <= i < n ==> (b, i) in r
  {
    if n == 0 then {} else Row(b, n - 1) + {(b, n - 1)}
  }

  /** The slots of the first n buckets that a range selects in the tried table. */
  function Share(h: Hashes, nKey: int, g: seq<int>, n: nat): (r: set<Slot>)
    ensures |r| <= n * BUCKET_SIZE
    ensures forall k, i :: 0 <= k < n && 0 <= i < BUCKET_SIZE ==> (h.ofRange(nKey, g, k) % TRIED_BUCKET_COUNT, i) in r
  {
    if n == 0 then {} else Share(h, nKey, g, n - 1) + Row(h.ofRange(nKey, g, n - 1) % TRIED_BUCKET_COUNT, BUCKET_SIZE)
  }

  predicate HeldAt(held: map<Slot, int>, slots: set<Slot>, s: Slot, id: int) {
    s in slots && s in held && held[s] == id
  }

  lemma {:induction false} OneSlotEach(ids: set<int>, slots: set<Slot>, held: map<Slot, int>)
    requires forall id :: id in ids ==> exists s :: HeldAt(held, slots, s, id)
    ensures |ids| <= |slots|
  {
    if ids != {} {
      assert (forall x :: x !in ids) ==> ids == {};
      var id :| id in ids;
      var s :| HeldAt(held, slots, s, id);
      forall x | x in ids - {id} ensures exists z :: HeldAt(held, slots - {s}, z, x) {
        var z :| HeldAt(held, slots, z, x);
        assert HeldAt(held, slots - {s}, z, x);
      }
      OneSlotEach(ids - {id}, slots - {s}, held);
    }
  }

  ghost function TriedOf(h: Hashes, t: Tables, g: seq<int>): set<int> {
    set id | id in t.info && t.info[id].fInTried && h.group(t.info[id].service.host) == g
  }

  /** In consistent tables an address range has at most 8 of the 256 buckets' places. */
  lemma RangeIsLimited(h: Hashes, nKey: int, t: Tables, g: seq<int>)
    requires Inv(Main(h), nKey, t)
    ensures |TriedOf(h, t, g)| <= 8 * 64
  {
    var slots := Share(h, nKey, g, TRIED_BUCKETS_PER_GROUP);
    forall id | id in TriedOf(h, t, g) ensures exists s :: HeldAt(t.triedSlots, slots, s, id) {
      assert HeldAt(t.triedSlots, slots, TriedSlot(Main(h), nKey, t.info[id].service), id);
    }
    OneSlotEach(TriedOf(h, t, g), slots, t.triedSlots);
  }

  /** So it is after every run. */
  lemma RunsLimitRanges(h: Hashes, nKey: int, ops: seq<Op>, g: seq<int>)
    requires forall op :: op in ops ==> Legal(op)
    ensures |TriedOf(h, Run(Main(h), nKey, ops), g)| <= 8 * 64
  {
    RangeIsLimited(h, nKey, Run(Main(h), nKey, ops), g);
  }

  /** The buckets of the new table that a source range selects. */
  function SourceBuckets(h: Hashes, nKey: int, g: seq<int>, n: nat): (r: set<int>)
    ensures |r| <= n && forall k :: 0 <= k < n ==> h.ofSource(nKey, g, k) % NEW_BUCKET_COUNT in r
  {
    if n == 0 then {} else SourceBuckets(h, nKey, g, n - 1) + {h.ofSource(nKey, g, n - 1) % NEW_BUCKET_COUNT}
  }

  /** Whatever addresses a source range announces, they go into at most 64 buckets. */
  lemma SourceIsLimited(h: Hashes, nKey: int, g: seq<int>) returns (buckets: set<int>)
    ensures |buckets| <= 64
    ensures forall s, src :: h.group(src) == g ==> NewSlot(Main(h), nKey, s, src).0 in buckets
  {
    buckets := SourceBuckets(h, nKey, g, NEW_BUCKETS_PER_SOURCE_GROUP);
    forall s, src | h.group(src) == g ensures NewSlot(Main(h), nKey, s, src).0 in buckets {
      assert GetNewBucket(h, nKey, s, src) in buckets;
    }
  }
}
