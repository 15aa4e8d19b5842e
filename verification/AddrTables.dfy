/**
 The tables of the stochastic address manager and, for each operation that changes them,
 a function from the tables before to the tables after. Hashing, address groups and
 routability are parameters, bucket counts and the bucket size are symbolic.
 */
module AddrTables {

  /** The 16 address bytes that identify a host. */
  type NetAddr = seq<int>

  datatype Service = Service(host: NetAddr, port: int)

  datatype Address = Address(service: Service, nServices: bv64, nTime: nat)

  datatype Info = Info(
    service: Service,
    nServices: bv64,
    nTime: nat,
    source: NetAddr,
    nLastTry: int,
    nLastSuccess: int,
    nAttempts: int,
    nRefCount: int,
    fInTried: bool,
    nRandomPos: int)

  /** Where the keyed hash sends an address: the tried bucket, the new bucket for a source, and
      the position in a bucket of either kind. */
  datatype Config = Config(
    triedBuckets: int,
    newBuckets: int,
    bucketSize: int,
    newPerAddress: int,
    triedBucket: (int, Service) -> int,
    newBucket: (int, Service, NetAddr) -> int,
    position: (int, bool, int, Service) -> int,
    routable: NetAddr -> bool)
  {
    ghost predicate Valid() {
      && 0 < triedBuckets && 0 < newBuckets && 0 < bucketSize && 0 < newPerAddress
      && (forall k, s :: 0 <= triedBucket(k, s) < triedBuckets)
      && (forall k, s, src :: 0 <= newBucket(k, s, src) < newBuckets)
      && (forall k, n, b, s :: 0 <= position(k, n, b, s) < bucketSize)
    }
  }

  const HORIZON_DAYS := 30
  const RETRIES := 3
  const MAX_FAILURES := 10
  const MIN_FAIL_DAYS := 7
  const DAY := 24 * 60 * 60

  /** A position in a table: bucket and place in the bucket. */
  type Slot = (int, int)

  /** Only occupied slots are keys of `triedSlots` and `newSlots`. */
  datatype Tables = Tables(
    idCount: int,
    info: map<int, Info>,
    byHost: map<NetAddr, int>,
    random: seq<int>,
    nTried: int,
    nNew: int,
    triedSlots: map<Slot, int>,
    newSlots: map<Slot, int>)

  const EMPTY := Tables(0, map[], map[], [], 0, 0, map[], map[])

  function TriedSlot(c: Config, key: int, s: Service): Slot {
    var b := c.triedBucket(key, s);
    (b, c.position(key, false, b, s))
  }

  function NewSlot(c: Config, key: int, s: Service, source: NetAddr): Slot {
    var b := c.newBucket(key, s, source);
    (b, c.position(key, true, b, s))
  }

  /** Whether the statistics of an entry are bad enough for it to be dropped. */
  predicate IsTerrible(info: Info, now: int) {
    if info.nLastTry != 0 && info.nLastTry >= now - 60 then false
    else
      || info.nTime > now + 10 * 60
      || info.nTime == 0 || now - info.nTime > HORIZON_DAYS * DAY
      || (info.nLastSuccess == 0 && info.nAttempts >= RETRIES)
      || (now - info.nLastSuccess > MIN_FAIL_DAYS * DAY && info.nAttempts >= MAX_FAILURES)
  }

  /** Conversion to a 32-bit unsigned integer. */
  function U32(x: int): nat { x % 0x1_0000_0000 }

  function Max0(x: int): nat { if x < 0 then 0 else x }

  // ------------------------------------------------------------ the index over vRandom

  /** Positions are good and every id mentioned has an entry. */
  ghost predicate Indexed(t: Tables) {
    && (forall i :: 0 <= i < |t.random| ==> t.random[i] in t.info && t.info[t.random[i]].nRandomPos == i)
    && (forall id :: id in t.info ==>
          0 <= t.info[id].nRandomPos < |t.random| && t.random[t.info[id].nRandomPos] == id)
  }

  function SwapRandom(t: Tables, i: int, j: int): Tables
    requires 0 <= i < |t.random| && 0 <= j < |t.random|
    requires t.random[i] in t.info && t.random[j] in t.info
  {
    var a, b := t.random[i], t.random[j];
    if i == j then t
    else
      var moved := t.info[a := t.info[a].(nRandomPos := j)];
      t.(info := moved[b := moved[b].(nRandomPos := i)], random := t.random[i := b][j := a])
  }

  function NewInfo(addr: Address, source: NetAddr, nTime: nat, pos: int): Info {
    Info(addr.service, addr.nServices, nTime, source, 0, 0, 0, 0, false, pos)
  }

  /** Everything but the entries and the index of hosts. */
  function Cleared(t: Tables): Tables { EMPTY.(info := t.info, byHost := t.byHost) }

  /** A new entry without references, counted as new. */
  function CreateNew(t: Tables, addr: Address, source: NetAddr, nTime: nat): Tables {
    t.(idCount := t.idCount + 1,
       info := t.info[t.idCount := NewInfo(addr, source, nTime, |t.random|)],
       byHost := t.byHost[addr.service.host := t.idCount],
       random := t.random + [t.idCount],
       nNew := t.nNew + 1)
  }

  function Delete(t: Tables, id: int): Tables
    requires id in t.info
    requires 0 <= t.info[id].nRandomPos < |t.random| && t.random[t.info[id].nRandomPos] == id
    requires t.random[|t.random| - 1] in t.info
  {
    var last := |t.random| - 1;
    var s := SwapRandom(t, t.info[id].nRandomPos, last);
    s.(info := s.info - {id},
       byHost := s.byHost - {t.info[id].service.host},
       random := s.random[..last],
       nNew := s.nNew - 1)
  }

  // ------------------------------------------------------------ single references

  /** Take one reference out of a new-table slot, without deleting the entry. */
  function DropRef(t: Tables, slot: Slot): Tables
    requires slot in t.newSlots && t.newSlots[slot] in t.info
  {
    var id := t.newSlots[slot];
    t.(newSlots := t.newSlots - {slot}, info := t.info[id := t.info[id].(nRefCount := t.info[id].nRefCount - 1)])
  }

  function AddRef(t: Tables, id: int, slot: Slot): Tables
    requires id in t.info
  {
    t.(newSlots := t.newSlots[slot := id], info := t.info[id := t.info[id].(nRefCount := t.info[id].nRefCount + 1)])
  }

  /** Empty a new-table slot; an entry that loses its last reference disappears. */
  function ClearNew(t: Tables, slot: Slot): Tables
    requires Indexed(t)
    requires slot in t.newSlots ==> t.newSlots[slot] in t.info
  {
    if slot !in t.newSlots then t
    else
      var id := t.newSlots[slot];
      var u := DropRef(t, slot);
      if u.info[id].nRefCount == 0 then Delete(u, id) else u
  }

  // ------------------------------------------------------------ new <-> tried

  /** All new-table references of an entry removed; it stays counted as new. */
  function Unref(t: Tables, id: int): Tables
    requires id in t.info
  {
    t.(newSlots := map s | s in t.newSlots && t.newSlots[s] != id :: t.newSlots[s],
       info := t.info[id := t.info[id].(nRefCount := 0)])
  }

  function Demote(t: Tables, slot: Slot): Tables
    requires slot in t.triedSlots && t.triedSlots[slot] in t.info
  {
    var id := t.triedSlots[slot];
    t.(triedSlots := t.triedSlots - {slot},
       info := t.info[id := t.info[id].(fInTried := false)],
       nTried := t.nTried - 1,
       nNew := t.nNew + 1)
  }

  function Promote(t: Tables, id: int, slot: Slot): Tables
    requires id in t.info
  {
    t.(triedSlots := t.triedSlots[slot := id],
       info := t.info[id := t.info[id].(fInTried := true)],
       nTried := t.nTried + 1,
       nNew := t.nNew - 1)
  }
}
