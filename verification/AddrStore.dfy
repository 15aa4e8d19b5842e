/**
 What the address manager writes to disk and how it builds its tables from that. Ids are not
 written: new entries are numbered in their order, then tried entries.
 */
module AddrStore {
  import opened Common
  import opened AddrTables
  import opened AddrInvariant

  /** The part of an entry that is written; when it was last tried is not. */
  datatype Saved = Saved(service: Service, nServices: bv64, nTime: nat, source: NetAddr, nLastSuccess: int,
                         nAttempts: int)

  function Save(i: Info): Saved { Saved(i.service, i.nServices, i.nTime, i.source, i.nLastSuccess, i.nAttempts) }

  function Load(s: Saved, pos: int): Info {
    Info(s.service, s.nServices, s.nTime, s.source, 0, s.nLastSuccess, s.nAttempts, 0, false, pos)
  }

  datatype Disk = Disk(
    version: int,
    keySize: int,
    key: int,
    nNew: int,
    nTried: int,
    uBuckets: int,
    newInfos: seq<Saved>,
    triedInfos: seq<Saved>,
    buckets: seq<seq<int>>)

  /** n ^ (1 << 30) */
  function Flip30(n: int): int { if n / 0x4000_0000 % 2 == 1 then n - 0x4000_0000 else n + 0x4000_0000 }

  lemma FlipTwice(n: int)
    ensures Flip30(Flip30(n)) == n
  {
  }

  // ------------------------------------------------------------ writing

  function NewList(t: Tables, n: int): (r: seq<int>)
    decreases n
  {
    if n <= 0 then []
    else NewList(t, n - 1) + (if n - 1 in t.info && t.info[n - 1].nRefCount != 0 then [n - 1] else [])
  }

  function TriedList(t: Tables, n: int): (r: seq<int>)
    decreases n
  {
    if n <= 0 then []
    else TriedList(t, n - 1) + (if n - 1 in t.info && t.info[n - 1].fInTried then [n - 1] else [])
  }

  /** The occupied slots of a new bucket, from a position on. */
  function BucketSlots(c: Config, t: Tables, bucket: int, i: int): seq<Slot>
    decreases c.bucketSize - i
  {
    if i >= c.bucketSize then []
    else (if (bucket, i) in t.newSlots then [(bucket, i)] else []) + BucketSlots(c, t, bucket, i + 1)
  }

  /** Every id in `ids` has an entry. */
  predicate Known(t: Tables, ids: seq<int>) { forall k :: 0 <= k < |ids| ==> ids[k] in t.info }

  function Saves(t: Tables, ids: seq<int>): seq<Saved>
    requires Known(t, ids)
  {
    seq(|ids|, k requires 0 <= k < |ids| => Save(t.info[ids[k]]))
  }

  predicate SlotsFilled(t: Tables, slots: seq<Slot>) { forall k :: 0 <= k < |slots| ==> slots[k] in t.newSlots }

  /** The number an id gets: how many new entries come before it. */
  function Indexes(t: Tables, slots: seq<Slot>): seq<int>
    requires SlotsFilled(t, slots)
  {
    seq(|slots|, k requires 0 <= k < |slots| => |NewList(t, t.newSlots[slots[k]])|)
  }

  lemma {:induction false} ListsKnown(t: Tables, n: int)
    ensures Known(t, NewList(t, n)) && Known(t, TriedList(t, n))
    ensures forall k :: 0 <= k < |NewList(t, n)| ==>
      0 <= NewList(t, n)[k] < n && t.info[NewList(t, n)[k]].nRefCount != 0
    ensures forall k :: 0 <= k < |TriedList(t, n)| ==>
      0 <= TriedList(t, n)[k] < n && t.info[TriedList(t, n)[k]].fInTried
    decreases n
  {
    if n > 0 { ListsKnown(t, n - 1); }
  }

  lemma {:induction false} BucketSlotsFilled(c: Config, t: Tables, bucket: int, i: int)
    requires 0 <= i
    ensures SlotsFilled(t, BucketSlots(c, t, bucket, i))
    ensures forall k :: 0 <= k < |BucketSlots(c, t, bucket, i)| ==>
      BucketSlots(c, t, bucket, i)[k].0 == bucket && i <= BucketSlots(c, t, bucket, i)[k].1 < c.bucketSize
    ensures forall j, k :: 0 <= j < k < |BucketSlots(c, t, bucket, i)| ==>
      BucketSlots(c, t, bucket, i)[j] != BucketSlots(c, t, bucket, i)[k]
    ensures forall s :: s in t.newSlots && s.0 == bucket && i <= s.1 < c.bucketSize ==>
      s in BucketSlots(c, t, bucket, i)
    decreases c.bucketSize - i
  {
    if i < c.bucketSize {
      BucketSlotsFilled(c, t, bucket, i + 1);
      var rest := BucketSlots(c, t, bucket, i + 1);
      forall s | s in t.newSlots && s.0 == bucket && i <= s.1 < c.bucketSize ensures s in BucketSlots(c, t, bucket, i) {
        if s.1 == i { assert s == (bucket, i); } else { assert s in rest; }
      }
    }
  }

  function DiskOf(c: Config, key: int, t: Tables): Disk
    requires c.Valid()
  {
    ListsKnown(t, t.idCount);
    Disk(1, 32, key, t.nNew, t.nTried, Flip30(c.newBuckets),
         Saves(t, NewList(t, t.idCount)), Saves(t, TriedList(t, t.idCount)),
         seq(c.newBuckets, b requires 0 <= b < c.newBuckets => BucketOf(c, t, b)))
  }

  function BucketOf(c: Config, t: Tables, b: int): seq<int> {
    BucketSlotsFilled(c, t, b, 0);
    Indexes(t, BucketSlots(c, t, b, 0))
  }

  // ------------------------------------------------------------ reading

  lemma PushIndexed(t: Tables, u: Tables, id: int)
    requires Indexed(t) && id !in t.info && u.random == t.random + [id]
    requires u.info.Keys == t.info.Keys + {id} && u.info[id].nRandomPos == |t.random|
    requires forall x :: x in t.info ==> u.info[x].nRandomPos == t.info[x].nRandomPos
    ensures Indexed(u)
  {
    forall i | 0 <= i < |u.random| ensures u.random[i] in u.info && u.info[u.random[i]].nRandomPos == i {
      if i < |t.random| { var x := t.random[i]; assert x in t.info; }
    }
  }

  lemma AddRefIndexed(t: Tables, id: int, slot: Slot)
    requires Indexed(t) && id in t.info
    ensures Indexed(AddRef(t, id, slot))
  {
    var u := AddRef(t, id, slot);
    forall i | 0 <= i < |u.random| ensures u.random[i] in u.info && u.info[u.random[i]].nRandomPos == i {
      var x := t.random[i];
      assert x in t.info;
    }
  }

  /** Keys are the numbers below n. */
  ghost predicate Dense(t: Tables, n: int) { forall k :: k in t.info <==> 0 <= k < n }

  predicate SameLayout(c: Config, disk: Disk) { disk.version == 1 && Buckets(disk) == c.newBuckets }

  function Buckets(disk: Disk): int { if disk.version != 0 then Flip30(disk.uBuckets) else disk.uBuckets }

  /** The first n entries of the new table. When the buckets cannot be used, each entry tries the
      slot of its own source. */
  function LoadNew(c: Config, disk: Disk, n: nat): (t: Tables)
    requires n <= |disk.newInfos|
    ensures Indexed(t) && Dense(t, n) && |t.random| == n
  {
    if n == 0 then EMPTY.(nNew := disk.nNew, nTried := disk.nTried)
    else
      var t := LoadNew(c, disk, n - 1);
      var info := Load(disk.newInfos[n - 1], |t.random|);
      var u := t.(info := t.info[n - 1 := info], byHost := t.byHost[info.service.host := n - 1],
                  random := t.random + [n - 1]);
      PushIndexed(t, u, n - 1);
      var slot := NewSlot(c, disk.key, info.service, info.source);
      if !SameLayout(c, disk) && slot !in u.newSlots then AddRefIndexed(u, n - 1, slot); AddRef(u, n - 1, slot) else u
  }

  /** The first n entries of the tried table; one whose slot is taken is lost. */
  function LoadTried(c: Config, disk: Disk, n: nat): (t: Tables)
    requires n <= |disk.triedInfos|
    ensures Indexed(t) && Dense(t, t.idCount) && t.idCount >= |disk.newInfos| && |t.random| == t.idCount
  {
    if n == 0 then LoadNew(c, disk, |disk.newInfos|).(idCount := |disk.newInfos|)
    else
      var t := LoadTried(c, disk, n - 1);
      var info := Load(disk.triedInfos[n - 1], |t.random|).(fInTried := true);
      var slot := TriedSlot(c, disk.key, info.service);
      if slot in t.triedSlots then t.(nTried := t.nTried - 1)
      else
        var u := t.(info := t.info[t.idCount := info], byHost := t.byHost[info.service.host := t.idCount],
                    random := t.random + [t.idCount], triedSlots := t.triedSlots[slot := t.idCount],
                    idCount := t.idCount + 1);
        PushIndexed(t, u, t.idCount);
        u
  }

  /** One index of a new bucket. */
  function LoadRef(c: Config, disk: Disk, t: Tables, bucket: int, index: int): (u: Tables)
    requires Indexed(t) && forall k :: 0 <= k < |disk.newInfos| ==> k in t.info
    ensures Indexed(u) && u.info.Keys == t.info.Keys && u.idCount == t.idCount
  {
    if 0 <= index < |disk.newInfos| then
      var slot := (bucket, c.position(disk.key, true, bucket, t.info[index].service));
      if SameLayout(c, disk) && slot !in t.newSlots && t.info[index].nRefCount < c.newPerAddress
      then AddRefIndexed(t, index, slot); AddRef(t, index, slot)
      else t
    else t
  }

  function LoadBucket(c: Config, disk: Disk, t: Tables, bucket: int, ids: seq<int>, n: nat): (u: Tables)
    requires Indexed(t) && n <= |ids| && forall k :: 0 <= k < |disk.newInfos| ==> k in t.info
    ensures Indexed(u) && u.info.Keys == t.info.Keys && u.idCount == t.idCount
  {
    if n == 0 then t else LoadRef(c, disk, LoadBucket(c, disk, t, bucket, ids, n - 1), bucket, ids[n - 1])
  }

  function LoadBuckets(c: Config, disk: Disk, t: Tables, n: nat): (u: Tables)
    requires Indexed(t) && n <= |disk.buckets| && forall k :: 0 <= k < |disk.newInfos| ==> k in t.info
    ensures Indexed(u) && u.info.Keys == t.info.Keys && u.idCount == t.idCount
  {
    if n == 0 then t
    else
      var s := LoadBuckets(c, disk, t, n - 1);
      LoadBucket(c, disk, s, n - 1, disk.buckets[n - 1], |disk.buckets[n - 1]|)
  }

  lemma DeleteIndexed(t: Tables, id: int)
    requires Indexed(t) && id in t.info
    ensures Indexed(Delete(t, id)) && Delete(t, id).info.Keys == t.info.Keys - {id}
    ensures Delete(t, id).idCount == t.idCount
  {
    var last := |t.random| - 1;
    SwapRandomIndexed(t, t.info[id].nRandomPos, last);
    SwapRandomMoves(t, t.info[id].nRandomPos, last);
    SwappedLast(t, t.info[id].nRandomPos, last);
    var s := SwapRandom(t, t.info[id].nRandomPos, last);
    hide SwapRandom;
    LastDropped(s, Delete(t, id), id);
  }

  lemma LastDropped(s: Tables, u: Tables, id: int)
    requires Indexed(s) && |s.random| > 0 && s.random[|s.random| - 1] == id
    requires u.info == s.info - {id} && u.random == s.random[..|s.random| - 1]
    ensures Indexed(u)
  {
    forall i | 0 <= i < |u.random| ensures u.random[i] in u.info && u.info[u.random[i]].nRandomPos == i {
      var x := s.random[i];
      assert x in s.info && s.info[x].nRandomPos == i;
    }
    assert s.info[id].nRandomPos == |s.random| - 1;
    forall x | x in u.info ensures 0 <= u.info[x].nRandomPos < |u.random| && u.random[u.info[x].nRandomPos] == x {
      assert s.random[s.info[x].nRandomPos] == x;
    }
  }

  lemma SwappedLast(t: Tables, i: int, last: int)
    requires 0 <= i < |t.random| && last == |t.random| - 1 && t.random[i] in t.info && t.random[last] in t.info
    ensures SwapRandom(t, i, last).random[last] == t.random[i]
  {
  }

  /** Entries from an id on that are neither tried nor referenced are dropped. */
  function Prune(t: Tables, id: int): (u: Tables)
    requires Indexed(t)
    ensures Indexed(u)
    decreases t.idCount - id
  {
    if id >= t.idCount then t
    else if id in t.info && !t.info[id].fInTried && t.info[id].nRefCount == 0 then
      DeleteIndexed(t, id);
      Prune(Delete(t, id), id + 1)
    else Prune(t, id + 1)
  }

  function LoadAll(c: Config, disk: Disk): (t: Tables) {
    var t := LoadTried(c, disk, |disk.triedInfos|);
    Prune(LoadBuckets(c, disk, t, |disk.buckets|), 0)
  }
}
