/** The loops of `CAddrMan::Serialize` and `Unserialize`. */
module AddrPeers {
  import opened Common
  import opened AddrTables
  import opened AddrInvariant
  import opened AddrStore
  import opened AddrReload

  /** The entries below n have been written, and every id below n has its number. */
  ghost predicate NewWritten(t: Tables, n: int, infos: seq<Saved>, nIds: int, ids: map<int, int>) {
    && Known(t, NewList(t, n)) && infos == Saves(t, NewList(t, n)) && nIds == |NewList(t, n)|
    && (forall i :: i in t.info && 0 <= i < n ==> i in ids && ids[i] == |NewList(t, i)|)
  }

  lemma NewWrittenNext(t: Tables, n: nat, infos: seq<Saved>, nIds: int, ids: map<int, int>)
    requires NewWritten(t, n, infos, nIds, ids)
    ensures n in t.info && t.info[n].nRefCount != 0 ==>
      NewWritten(t, n + 1, infos + [Save(t.info[n])], nIds + 1, ids[n := nIds])
    ensures n in t.info && t.info[n].nRefCount == 0 ==> NewWritten(t, n + 1, infos, nIds, ids[n := nIds])
    ensures n !in t.info ==> NewWritten(t, n + 1, infos, nIds, ids)
  {
    ListsKnown(t, n + 1);
  }

  method WriteNew(c: Config, key: int, t: Tables) returns (infos: seq<Saved>, mapUnkIds: map<int, int>)
    requires Inv(c, key, t)
    ensures exists nIds :: NewWritten(t, t.idCount, infos, nIds, mapUnkIds)
  {
    NewHasRefs(c, key, t);
    CountsAreLengths(c, key, t);
    CounterIsNat(c, key, t);
    hide Inv, NewWritten;
    infos, mapUnkIds := [], map[];
    var nIds := 0;
    NothingWritten(t);
    for it := 0 to t.idCount
      invariant NewWritten(t, it, infos, nIds, mapUnkIds)
    {
      NewWrittenNext(t, it, infos, nIds, mapUnkIds);
      if it in t.info {
        ghost var before := mapUnkIds;
        mapUnkIds := mapUnkIds[it := nIds];
        if t.info[it].nRefCount != 0 {
          NumberIsLess(t, it, infos, nIds, before);
          assert nIds != t.nNew;
          infos := infos + [Save(t.info[it])];
          nIds := nIds + 1;
        }
      }
    }
  }

  lemma NothingWritten(t: Tables)
    ensures NewWritten(t, 0, [], 0, map[]) && TriedWritten(t, 0, [], 0)
  {
  }

  lemma NumberIsLess(t: Tables, n: nat, infos: seq<Saved>, nIds: int, ids: map<int, int>)
    requires n < t.idCount && n in t.info && t.info[n].nRefCount != 0
    requires NewWritten(t, n, infos, nIds, ids)
    ensures nIds < |NewList(t, t.idCount)|
  {
    NewRank(t, t.idCount, n);
  }

  lemma CounterIsNat(c: Config, key: int, t: Tables)
    requires Inv(c, key, t)
    ensures 0 <= t.idCount
  {
    hide Indexed, TriedExact, NewPlaced, RefCounts, Counters, Stats;
  }

  ghost predicate TriedWritten(t: Tables, n: int, infos: seq<Saved>, nIds: int) {
    Known(t, TriedList(t, n)) && infos == Saves(t, TriedList(t, n)) && nIds == |TriedList(t, n)|
  }

  lemma TriedWrittenNext(t: Tables, n: nat, infos: seq<Saved>, nIds: int)
    requires TriedWritten(t, n, infos, nIds) && n < t.idCount
    ensures n in t.info && t.info[n].fInTried ==> TriedWritten(t, n + 1, infos + [Save(t.info[n])], nIds + 1)
    ensures n in t.info && t.info[n].fInTried ==> nIds < |TriedList(t, t.idCount)|
    ensures n !in t.info || !t.info[n].fInTried ==> TriedWritten(t, n + 1, infos, nIds)
  {
    ListsKnown(t, n + 1);
    TriedGrows(t, n + 1, t.idCount);
  }

  method WriteTried(c: Config, key: int, t: Tables) returns (infos: seq<Saved>)
    requires Inv(c, key, t)
    ensures exists nIds :: TriedWritten(t, t.idCount, infos, nIds)
  {
    CountsAreLengths(c, key, t);
    CounterIsNat(c, key, t);
    hide Inv, TriedWritten;
    infos := [];
    var nIds := 0;
    NothingWritten(t);
    for it := 0 to t.idCount
      invariant TriedWritten(t, it, infos, nIds)
    {
      TriedWrittenNext(t, it, infos, nIds);
      if it in t.info && t.info[it].fInTried {
        assert nIds != t.nTried;
        infos := infos + [Save(t.info[it])];
        nIds := nIds + 1;
      }
    }
  }

  lemma {:induction false} TriedGrows(t: Tables, m: int, n: int)
    requires m <= n
    ensures |TriedList(t, m)| <= |TriedList(t, n)|
    decreases n - m
  {
    if m < n { TriedGrows(t, m, n - 1); }
  }

  /** The slots below position i of the bucket have been written. */
  ghost predicate BucketWritten(c: Config, t: Tables, bucket: nat, i: nat, indexes: seq<int>) {
    && SlotsFilled(t, BucketSlots(c, t, bucket, i)) && SlotsFilled(t, BucketSlots(c, t, bucket, 0))
    && Indexes(t, BucketSlots(c, t, bucket, 0)) == indexes + Indexes(t, BucketSlots(c, t, bucket, i))
  }

  lemma BucketWrittenNext(c: Config, t: Tables, bucket: nat, i: nat, indexes: seq<int>)
    requires BucketWritten(c, t, bucket, i, indexes) && i < c.bucketSize
    ensures
      var s := (bucket as int, i as int);
      BucketWritten(c, t, bucket, i + 1, if s in t.newSlots then indexes + [|NewList(t, t.newSlots[s])|] else indexes)
  {
    BucketSlotsFilled(c, t, bucket, i + 1);
    var s := (bucket as int, i as int);
    var rest := BucketSlots(c, t, bucket, i + 1);
    hide NewList;
    if s in t.newSlots {
      var x := |NewList(t, t.newSlots[s])|;
      assert Indexes(t, [s] + rest) == [x] + Indexes(t, rest);
      assert indexes + ([x] + Indexes(t, rest)) == (indexes + [x]) + Indexes(t, rest);
    } else {
      assert [] + rest == rest;
    }
  }

  lemma BucketEnds(c: Config, t: Tables, bucket: nat, indexes: seq<int>)
    requires c.Valid()
    ensures BucketWritten(c, t, bucket, 0, [])
    ensures BucketWritten(c, t, bucket, c.bucketSize, indexes) ==> indexes == BucketOf(c, t, bucket)
  {
    BucketSlotsFilled(c, t, bucket, 0);
    assert Indexes(t, []) == [];
    assert indexes + [] == indexes;
    hide NewList;
  }

  method WriteBucket(c: Config, key: int, t: Tables, bucket: nat, mapUnkIds: map<int, int>)
    returns (nSize: int, indexes: seq<int>)
    requires c.Valid() && Inv(c, key, t)
    requires forall i :: i in t.info ==> i in mapUnkIds && mapUnkIds[i] == |NewList(t, i)|
    ensures indexes == BucketOf(c, t, bucket) && nSize == |indexes|
  {
    InvParts(c, key, t);
    hide Inv, NewList, Indexed, HostInverse, TriedExact, RefCounts, Counters, Stats, BucketWritten, BucketOf;
    nSize, indexes := 0, [];
    BucketEnds(c, t, bucket, []);
    assert 0 < c.bucketSize;
    for i := 0 to c.bucketSize
      invariant BucketWritten(c, t, bucket, i, indexes) && nSize == |indexes|
    {
      BucketWrittenNext(c, t, bucket, i, indexes);
      if (bucket as int, i as int) in t.newSlots {
        var id := t.newSlots[(bucket as int, i as int)];
        assert id in t.info;
        nSize := nSize + 1;
        indexes := indexes + [mapUnkIds[id]];
      }
    }
    BucketEnds(c, t, bucket, indexes);
  }

  method Serialize(c: Config, key: int, t: Tables) returns (disk: Disk)
    requires c.Valid() && Inv(c, key, t)
    ensures disk == DiskOf(c, key, t)
  {
    hide NewList, TriedList, BucketOf;
    NewHasRefs(c, key, t);
    var newInfos, mapUnkIds := WriteNew(c, key, t);
    var triedInfos := WriteTried(c, key, t);
    hide Inv;
    assert forall i :: i in t.info ==> i in mapUnkIds && mapUnkIds[i] == |NewList(t, i)|;
    var buckets: seq<seq<int>> := [];
    assert 0 < c.newBuckets;
    for bucket := 0 to c.newBuckets
      invariant |buckets| == bucket && forall b :: 0 <= b < bucket ==> buckets[b] == BucketOf(c, t, b)
    {
      var nSize, indexes := WriteBucket(c, key, t, bucket, mapUnkIds);
      buckets := buckets + [indexes];
    }
    disk := Disk(1, 32, key, t.nNew, t.nTried, Flip30(c.newBuckets), newInfos, triedInfos, buckets);
  }

  // ------------------------------------------------------------ Unserialize

  method ReadNew(c: Config, disk: Disk) returns (t: Tables)
    ensures t == LoadNew(c, disk, |disk.newInfos|).(idCount := |disk.newInfos|)
  {
    hide NewSlot, Indexed;
    t := EMPTY.(nNew := disk.nNew, nTried := disk.nTried);
    for n := 0 to |disk.newInfos|
      invariant t == LoadNew(c, disk, n)
    {
      var info := Load(disk.newInfos[n], |t.random|);
      t := t.(info := t.info[n := info], byHost := t.byHost[info.service.host := n], random := t.random + [n]);
      if disk.version != 1 || Buckets(disk) != c.newBuckets {
        var slot := NewSlot(c, disk.key, info.service, info.source);
        if slot !in t.newSlots {
          t := AddRef(t, n, slot);
        }
      }
    }
    t := t.(idCount := |disk.newInfos|);
  }

  method ReadTried(c: Config, disk: Disk, start: Tables) returns (t: Tables)
    requires start == LoadTried(c, disk, 0)
    ensures t == LoadTried(c, disk, |disk.triedInfos|)
  {
    hide TriedSlot, Indexed, LoadNew;
    t := start;
    for n := 0 to |disk.triedInfos|
      invariant t == LoadTried(c, disk, n)
    {
      var info := Load(disk.triedInfos[n], |t.random|);
      var slot := TriedSlot(c, disk.key, info.service);
      if slot !in t.triedSlots {
        info := info.(fInTried := true);
        t := t.(info := t.info[t.idCount := info], byHost := t.byHost[info.service.host := t.idCount],
                random := t.random + [t.idCount], triedSlots := t.triedSlots[slot := t.idCount],
                idCount := t.idCount + 1);
      } else {
        t := t.(nTried := t.nTried - 1);
      }
    }
  }

  method ReadBucket(c: Config, disk: Disk, start: Tables, bucket: nat, ids: seq<int>) returns (t: Tables)
    requires Indexed(start) && forall k :: 0 <= k < |disk.newInfos| ==> k in start.info
    ensures t == LoadBucket(c, disk, start, bucket, ids, |ids|)
  {
    hide Indexed, AddRef;
    t := start;
    for n := 0 to |ids|
      invariant t == LoadBucket(c, disk, start, bucket, ids, n)
    {
      var nIndex := ids[n];
      if 0 <= nIndex < |disk.newInfos| {
        var slot := (bucket as int, c.position(disk.key, true, bucket, t.info[nIndex].service));
        if disk.version == 1 && Buckets(disk) == c.newBuckets && slot !in t.newSlots
          && t.info[nIndex].nRefCount < c.newPerAddress {
          t := AddRef(t, nIndex, slot);
        }
      }
    }
  }

  method PruneAll(start: Tables) returns (t: Tables)
    requires Indexed(start)
    ensures t == Prune(start, 0)
  {
    hide Indexed, Delete;
    t := start;
    var id := 0;
    while id < t.idCount
      invariant Indexed(t) && Prune(t, id) == Prune(start, 0)
      decreases t.idCount - id
    {
      if id in t.info && !t.info[id].fInTried && t.info[id].nRefCount == 0 {
        DeleteIndexed(t, id);
        Deletable(t, id);
        t := Delete(t, id);
      }
      id := id + 1;
    }
  }

  lemma Deletable(t: Tables, id: int)
    requires Indexed(t) && id in t.info
    ensures 0 <= t.info[id].nRandomPos < |t.random| && t.random[t.info[id].nRandomPos] == id
    ensures t.random[|t.random| - 1] in t.info
  {
  }

  /** Into a new object; a key of another size is refused. */
  method Unserialize(c: Config, disk: Disk) returns (r: Option<(int, Tables)>)
    ensures r == if disk.keySize != 32 then None else Some((disk.key, LoadAll(c, disk)))
  {
    hide LoadNew, LoadTried, LoadBuckets, Indexed, Prune;
    if disk.keySize != 32 {
      return None;
    }
    var t := ReadNew(c, disk);
    StartTried(c, disk);
    t := ReadTried(c, disk, t);
    NewEntriesThere(c, disk);
    t := ReadBuckets(c, disk, t);
    t := PruneAll(t);
    return Some((disk.key, t));
  }

  lemma StartTried(c: Config, disk: Disk)
    ensures LoadTried(c, disk, 0) == LoadNew(c, disk, |disk.newInfos|).(idCount := |disk.newInfos|)
  {
    hide LoadNew;
  }

  method ReadBuckets(c: Config, disk: Disk, start: Tables) returns (t: Tables)
    requires Indexed(start) && forall k :: 0 <= k < |disk.newInfos| ==> k in start.info
    ensures t == LoadBuckets(c, disk, start, |disk.buckets|)
  {
    hide Indexed, LoadBucket;
    t := start;
    for bucket := 0 to |disk.buckets|
      invariant t == LoadBuckets(c, disk, start, bucket)
    {
      t := ReadBucket(c, disk, t, bucket, disk.buckets[bucket]);
    }
  }

  lemma NewEntriesThere(c: Config, disk: Disk)
    ensures forall k :: 0 <= k < |disk.newInfos| ==> k in LoadTried(c, disk, |disk.triedInfos|).info
  {
    hide LoadTried;
    var t := LoadTried(c, disk, |disk.triedInfos|);
    assert Dense(t, t.idCount) && t.idCount >= |disk.newInfos|;
  }
}
