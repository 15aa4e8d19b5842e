/** Reading back what was written: every entry, both tables and all references come back, under
    new ids. */
module AddrReload {
  import opened Common
  import opened AddrTables
  import opened AddrInvariant
  import opened AddrStore

  // ------------------------------------------------------------ the list of ids

  /** The old ids in the order of the new ones. */
  ghost function OldIds(t: Tables): seq<int> { NewList(t, t.idCount) + TriedList(t, t.idCount) }

  ghost predicate Distinct(ids: seq<int>) { forall i, j :: 0 <= i < j < |ids| ==> ids[i] != ids[j] }

  lemma {:induction false} ListsSorted(t: Tables, n: int)
    ensures forall i, j :: 0 <= i < j < |NewList(t, n)| ==> NewList(t, n)[i] < NewList(t, n)[j]
    ensures forall i, j :: 0 <= i < j < |TriedList(t, n)| ==> TriedList(t, n)[i] < TriedList(t, n)[j]
    decreases n
  {
    if n > 0 {
      ListsSorted(t, n - 1);
      ListsKnown(t, n - 1);
    }
  }

  /** An entry of the new table is found at the place that is its rank. */
  lemma {:induction false} NewRank(t: Tables, n: int, id: int)
    requires 0 <= id < n && id in t.info && t.info[id].nRefCount != 0
    ensures |NewList(t, id)| < |NewList(t, n)| && NewList(t, n)[|NewList(t, id)|] == id
    decreases n
  {
    if id < n - 1 { NewRank(t, n - 1, id); }
  }

  lemma {:induction false} TriedFound(t: Tables, n: int, id: int)
    requires 0 <= id < n && id in t.info && t.info[id].fInTried
    ensures id in TriedList(t, n)
    decreases n
  {
    if id < n - 1 { TriedFound(t, n - 1, id); }
  }

  /** The ids are those of all entries, each once: first the new, then the tried. */
  ghost predicate Listed(t: Tables, ids: seq<int>, m: nat) {
    && m <= |ids| && Distinct(ids)
    && (forall k :: 0 <= k < |ids| ==> ids[k] in t.info && (t.info[ids[k]].fInTried <==> k >= m))
    && (forall id :: id in t.info ==> id in ids)
  }

  lemma OldIdsListed(c: Config, key: int, t: Tables)
    requires Inv(c, key, t)
    ensures Listed(t, OldIds(t), |NewList(t, t.idCount)|)
  {
    var n := t.idCount;
    ListsKnown(t, n);
    ListsSorted(t, n);
    NewHasRefs(c, key, t);
    var a, b := NewList(t, n), TriedList(t, n);
    hide Inv, NewList, TriedList;
    var ids := a + b;
    assert OldIds(t) == ids;
    forall k | 0 <= k < |ids| ensures ids[k] in t.info && (t.info[ids[k]].fInTried <==> k >= |a|) {
      if k < |a| { assert ids[k] == a[k]; } else { assert ids[k] == b[k - |a|]; }
    }
    forall i, j | 0 <= i < j < |ids| ensures ids[i] != ids[j] {
      assert t.info[ids[i]].fInTried <==> i >= |a|;
      assert t.info[ids[j]].fInTried <==> j >= |a|;
    }
    forall id | id in t.info ensures id in ids {
      if t.info[id].fInTried { TriedFound(t, n, id); } else { NewRank(t, n, id); assert id in a; }
    }
  }

  /** Tried entries have no references and the others have some; ids are below the counter. */
  lemma NewHasRefs(c: Config, key: int, t: Tables)
    requires Inv(c, key, t)
    ensures forall id :: id in t.info ==> (t.info[id].nRefCount != 0 <==> !t.info[id].fInTried) && 0 <= id < t.idCount
  {
    hide Indexed, TriedExact, NewPlaced, Counters, Stats;
    forall id | id in t.info ensures (t.info[id].nRefCount != 0 <==> !t.info[id].fInTried) && 0 <= id < t.idCount {
      assert id !in {};
    }
  }

  lemma {:induction false} DistinctCount(ids: seq<int>, s: set<int>)
    requires Distinct(ids) && forall id :: id in s <==> id in ids
    ensures |s| == |ids|
  {
    if ids == [] {
      forall id ensures id !in s { assert id !in ids; }
      assert s == {};
    } else {
      var n := |ids| - 1;
      var rest := ids[..n];
      assert ids == rest + [ids[n]];
      assert ids[n] !in rest by { forall i | 0 <= i < n ensures rest[i] != ids[n] { assert rest[i] == ids[i]; } }
      forall id ensures id in s - {ids[n]} <==> id in rest {}
      DistinctCount(rest, s - {ids[n]});
    }
  }

  /** The assertions of Serialize: there are as many entries to write as are counted. */
  lemma CountsAreLengths(c: Config, key: int, t: Tables)
    requires Inv(c, key, t)
    ensures |NewList(t, t.idCount)| == t.nNew && |TriedList(t, t.idCount)| == t.nTried
  {
    var n := t.idCount;
    ListsKnown(t, n);
    ListsSorted(t, n);
    NewHasRefs(c, key, t);
    CountersAre(c, key, t);
    var a, b := NewList(t, n), TriedList(t, n);
    hide Inv;
    forall id ensures id in NewIds(t) <==> id in a { if id in NewIds(t) { NewRank(t, n, id); } }
    forall id ensures id in TriedIds(t) <==> id in b { if id in TriedIds(t) { TriedFound(t, n, id); } }
    hide NewList, TriedList, NewIds, TriedIds;
    DistinctCount(a, NewIds(t));
    DistinctCount(b, TriedIds(t));
  }

  lemma CountersAre(c: Config, key: int, t: Tables)
    requires Inv(c, key, t)
    ensures t.nTried == |TriedIds(t)| && t.nNew == |NewIds(t)|
  {
    hide Indexed, TriedExact, NewPlaced, RefCounts, Stats, HostInverse, TriedIds, NewIds;
  }

  // ------------------------------------------------------------ entries

  function LoadedAs(t: Tables, ids: seq<int>, k: nat): Info
    requires k < |ids| && ids[k] in t.info
  {
    Load(Save(t.info[ids[k]]), k).(fInTried := t.info[ids[k]].fInTried)
  }

  ghost predicate HostsTo(t: Tables, ids: seq<int>, n: nat, byHost: map<NetAddr, int>)
    requires n <= |ids| && Known(t, ids)
  {
    && (forall k :: 0 <= k < n ==> t.info[ids[k]].service.host in byHost && byHost[t.info[ids[k]].service.host] == k)
    && (forall h :: h in byHost ==> 0 <= byHost[h] < n && t.info[ids[byHost[h]]].service.host == h)
  }

  ghost predicate TriedTo(c: Config, key: int, t: Tables, ids: seq<int>, n: nat, slots: map<Slot, int>)
    requires n <= |ids| && Known(t, ids)
  {
    && (forall k :: 0 <= k < n && t.info[ids[k]].fInTried ==>
          var s := TriedSlot(c, key, t.info[ids[k]].service); s in slots && slots[s] == k)
    && (forall s :: s in slots ==>
          && 0 <= slots[s] < n && t.info[ids[slots[s]]].fInTried
          && s == TriedSlot(c, key, t.info[ids[slots[s]]].service))
  }

  /** The first n entries have been read, and no references yet. */
  ghost predicate Read(c: Config, key: int, t: Tables, ids: seq<int>, n: nat, u: Tables) {
    && n <= |ids| && Known(t, ids)
    && Dense(u, n) && |u.random| == n && (forall k :: 0 <= k < n ==> u.random[k] == k)
    && (forall k :: 0 <= k < n ==> u.info[k] == LoadedAs(t, ids, k))
    && HostsTo(t, ids, n, u.byHost)
    && TriedTo(c, key, t, ids, n, u.triedSlots)
    && u.newSlots == map[] && u.nNew == t.nNew && u.nTried == t.nTried
  }

  lemma HostsDiffer(t: Tables, ids: seq<int>, j: nat, k: nat)
    requires HostInverse(t) && Known(t, ids) && Distinct(ids) && j < k < |ids|
    ensures t.info[ids[j]].service.host != t.info[ids[k]].service.host
  {
    assert ids[j] in t.info && ids[k] in t.info;
  }

  lemma HostsNext(t: Tables, ids: seq<int>, n: nat, byHost: map<NetAddr, int>)
    requires HostInverse(t) && Known(t, ids) && Distinct(ids) && n < |ids| && HostsTo(t, ids, n, byHost)
    ensures HostsTo(t, ids, n + 1, byHost[t.info[ids[n]].service.host := n])
  {
    forall j | 0 <= j < n ensures t.info[ids[j]].service.host != t.info[ids[n]].service.host {
      HostsDiffer(t, ids, j, n);
    }
    hide HostInverse;
  }

  /** One more new entry. */
  lemma ReadNew(c: Config, key: int, t: Tables, ids: seq<int>, m: nat, n: nat, u: Tables, v: Tables)
    requires HostInverse(t) && Listed(t, ids, m) && n < m && Read(c, key, t, ids, n, u)
    requires
      var info := Load(Save(t.info[ids[n]]), |u.random|);
      v == u.(info := u.info[n := info], byHost := u.byHost[info.service.host := n], random := u.random + [n])
    ensures Read(c, key, t, ids, n + 1, v)
  {
    HostsNext(t, ids, n, u.byHost);
    hide HostInverse, HostsTo, Distinct;
    assert !t.info[ids[n]].fInTried;
    assert LoadedAs(t, ids, n) == Load(Save(t.info[ids[n]]), n);
    hide TriedSlot;
    assert TriedTo(c, key, t, ids, n + 1, v.triedSlots);
  }

  lemma {:induction false} LoadNewIs(c: Config, key: int, t: Tables, n: nat)
    requires c.Valid() && Inv(c, key, t) && n <= |NewList(t, t.idCount)|
    ensures |DiskOf(c, key, t).newInfos| == |NewList(t, t.idCount)|
    ensures Read(c, key, t, OldIds(t), n, LoadNew(c, DiskOf(c, key, t), n))
    decreases n
  {
    var disk := DiskOf(c, key, t);
    OldIdsListed(c, key, t);
    FlipTwice(c.newBuckets);
    var ids := OldIds(t);
    assert HostInverse(t);
    hide Inv, HostInverse, Listed, NewList, TriedList;
    if n == 0 {
      NothingRead(c, key, t, ids, LoadNew(c, disk, 0), |NewList(t, t.idCount)|);
    } else {
      LoadNewIs(c, key, t, n - 1);
      assert disk.newInfos[n - 1] == Save(t.info[ids[n - 1]]);
      hide DiskOf;
      ReadNew(c, key, t, ids, |NewList(t, t.idCount)|, n - 1, LoadNew(c, disk, n - 1), LoadNew(c, disk, n));
    }
  }

  lemma NothingRead(c: Config, key: int, t: Tables, ids: seq<int>, u: Tables, m: nat)
    requires Listed(t, ids, m) && u == EMPTY.(nNew := t.nNew, nTried := t.nTried)
    ensures Read(c, key, t, ids, 0, u)
  {
  }

  /** The slot of the next tried entry is free: two entries never share one. */
  lemma SlotIsFree(c: Config, key: int, t: Tables, ids: seq<int>, m: nat, n: nat, slots: map<Slot, int>)
    requires TriedExact(c, key, t) && Listed(t, ids, m) && m <= n < |ids| && Known(t, ids)
    requires TriedTo(c, key, t, ids, n, slots)
    ensures TriedSlot(c, key, t.info[ids[n]].service) !in slots
  {
    hide TriedSlot;
    var s := TriedSlot(c, key, t.info[ids[n]].service);
    var id := ids[n];
    assert id in t.info && t.info[id].fInTried;
    SlotsDiffer(c, key, t);
    hide TriedExact;
  }

  lemma SlotsDiffer(c: Config, key: int, t: Tables)
    requires TriedExact(c, key, t)
    ensures forall i, j :: i in t.info && j in t.info && t.info[i].fInTried && t.info[j].fInTried && i != j ==>
      TriedSlot(c, key, t.info[i].service) != TriedSlot(c, key, t.info[j].service)
  {
    hide TriedSlot;
  }

  lemma TriedNext(c: Config, key: int, t: Tables, ids: seq<int>, m: nat, n: nat, slots: map<Slot, int>)
    requires TriedExact(c, key, t) && Listed(t, ids, m) && m <= n < |ids| && Known(t, ids)
    requires TriedTo(c, key, t, ids, n, slots)
    ensures TriedTo(c, key, t, ids, n + 1, slots[TriedSlot(c, key, t.info[ids[n]].service) := n])
  {
    SlotIsFree(c, key, t, ids, m, n, slots);
    hide TriedSlot, TriedExact, Distinct;
    assert t.info[ids[n]].fInTried;
  }

  function PushTried(u: Tables, info: Info, n: int, slot: Slot): Tables {
    u.(info := u.info[n := info], byHost := u.byHost[info.service.host := n], random := u.random + [n],
       triedSlots := u.triedSlots[slot := n], idCount := n + 1)
  }

  /** One more tried entry. */
  lemma ReadTried(c: Config, key: int, t: Tables, ids: seq<int>, m: nat, n: nat, u: Tables)
    requires HostInverse(t) && TriedExact(c, key, t) && Listed(t, ids, m) && m <= n < |ids|
    requires Read(c, key, t, ids, n, u)
    ensures TriedSlot(c, key, t.info[ids[n]].service) !in u.triedSlots
    ensures
      Read(c, key, t, ids, n + 1,
           PushTried(u, Load(Save(t.info[ids[n]]), |u.random|).(fInTried := true), n,
                     TriedSlot(c, key, t.info[ids[n]].service)))
  {
    HostsNext(t, ids, n, u.byHost);
    SlotIsFree(c, key, t, ids, m, n, u.triedSlots);
    TriedNext(c, key, t, ids, m, n, u.triedSlots);
    hide HostInverse, TriedExact, HostsTo, TriedTo, Distinct, TriedSlot;
    assert t.info[ids[n]].fInTried;
    assert LoadedAs(t, ids, n) == Load(Save(t.info[ids[n]]), n).(fInTried := true);
  }

  lemma LoadTriedStep(c: Config, disk: Disk, n: nat)
    requires 0 < n <= |disk.triedInfos|
    ensures
      var u := LoadTried(c, disk, n - 1);
      var slot := TriedSlot(c, disk.key, disk.triedInfos[n - 1].service);
      slot !in u.triedSlots ==>
        LoadTried(c, disk, n) ==
          PushTried(u, Load(disk.triedInfos[n - 1], |u.random|).(fInTried := true), u.idCount, slot)
  {
    hide TriedSlot, LoadNew;
  }

  lemma {:induction false} LoadTriedIs(c: Config, key: int, t: Tables, n: nat)
    requires c.Valid() && Inv(c, key, t) && n <= |TriedList(t, t.idCount)|
    ensures |DiskOf(c, key, t).triedInfos| == |TriedList(t, t.idCount)|
    ensures
      var u := LoadTried(c, DiskOf(c, key, t), n);
      Read(c, key, t, OldIds(t), |NewList(t, t.idCount)| + n, u) && u.idCount == |NewList(t, t.idCount)| + n
    decreases n
  {
    hide *;
    LoadNewIs(c, key, t, |NewList(t, t.idCount)|);
    TriedCount(c, key, t);
    if n == 0 {
      LoadTriedNone(c, DiskOf(c, key, t));
      Renumbered(c, key, t, OldIds(t), |NewList(t, t.idCount)|, LoadNew(c, DiskOf(c, key, t), |NewList(t, t.idCount)|));
    } else {
      LoadTriedIs(c, key, t, n - 1);
      LoadTriedNext(c, key, t, n, LoadTried(c, DiskOf(c, key, t), n - 1));
    }
  }

  lemma TriedCount(c: Config, key: int, t: Tables)
    requires c.Valid()
    ensures |DiskOf(c, key, t).triedInfos| == |TriedList(t, t.idCount)|
  {
    hide NewList, TriedList;
  }

  lemma LoadTriedNext(c: Config, key: int, t: Tables, n: nat, u: Tables)
    requires c.Valid() && Inv(c, key, t) && 0 < n <= |TriedList(t, t.idCount)|
    requires |DiskOf(c, key, t).triedInfos| == |TriedList(t, t.idCount)|
    requires u == LoadTried(c, DiskOf(c, key, t), n - 1)
    requires Read(c, key, t, OldIds(t), |NewList(t, t.idCount)| + n - 1, u)
    requires u.idCount == |NewList(t, t.idCount)| + n - 1
    ensures
      var v := LoadTried(c, DiskOf(c, key, t), n);
      Read(c, key, t, OldIds(t), |NewList(t, t.idCount)| + n, v) && v.idCount == |NewList(t, t.idCount)| + n
  {
    hide *;
    OldIdsListed(c, key, t);
    DiskKey(c, key, t);
    InvParts(c, key, t);
    SavedTried(c, key, t, n - 1);
    LoadTriedStep(c, DiskOf(c, key, t), n);
    ReadTried(c, key, t, OldIds(t), |NewList(t, t.idCount)|, |NewList(t, t.idCount)| + n - 1, u);
    PushedCount(u, Load(DiskOf(c, key, t).triedInfos[n - 1], |u.random|).(fInTried := true), u.idCount,
                TriedSlot(c, key, DiskOf(c, key, t).triedInfos[n - 1].service));
  }

  lemma PushedCount(u: Tables, info: Info, n: int, slot: Slot)
    ensures PushTried(u, info, n, slot).idCount == n + 1
  {
  }

  lemma LoadTriedNone(c: Config, disk: Disk)
    ensures LoadTried(c, disk, 0) == LoadNew(c, disk, |disk.newInfos|).(idCount := |disk.newInfos|)
  {
    hide LoadNew;
  }

  lemma InvParts(c: Config, key: int, t: Tables)
    requires Inv(c, key, t)
    ensures HostInverse(t) && TriedExact(c, key, t) && Indexed(t) && NewPlaced(c, key, t) && RefCounts(c, t, {})
    ensures Counters(t) && Stats(t)
  {
    hide HostInverse, TriedExact, Indexed, NewPlaced, RefCounts, Counters, Stats;
  }

  lemma SavedTried(c: Config, key: int, t: Tables, k: nat)
    requires c.Valid() && Inv(c, key, t) && k < |TriedList(t, t.idCount)|
    ensures
      var ids, m := OldIds(t), |NewList(t, t.idCount)|;
      && |DiskOf(c, key, t).triedInfos| == |TriedList(t, t.idCount)|
      && m + k < |ids| && ids[m + k] in t.info && DiskOf(c, key, t).triedInfos[k] == Save(t.info[ids[m + k]])
      && DiskOf(c, key, t).triedInfos[k].service == t.info[ids[m + k]].service
  {
    ListsKnown(t, t.idCount);
    hide Inv, NewList, TriedList;
    assert OldIds(t)[|NewList(t, t.idCount)| + k] == TriedList(t, t.idCount)[k];
  }

  lemma DiskKey(c: Config, key: int, t: Tables)
    requires c.Valid()
    ensures DiskOf(c, key, t).key == key && DiskOf(c, key, t).keySize == 32 && SameLayout(c, DiskOf(c, key, t))
  {
    FlipTwice(c.newBuckets);
    hide NewList, TriedList;
  }

  lemma Renumbered(c: Config, key: int, t: Tables, ids: seq<int>, n: nat, u: Tables)
    requires Read(c, key, t, ids, n, u)
    ensures Read(c, key, t, ids, n, u.(idCount := n))
  {
    hide HostsTo, TriedTo;
  }

  // ------------------------------------------------------------ references

  ghost function RefsIn(t: Tables, done: set<Slot>, id: int): set<Slot> {
    set s | s in done && s in t.newSlots && t.newSlots[s] == id
  }

  /** The references of the slots in `done` have been read on top of `base`. */
  ghost predicate RefsRead(t: Tables, ids: seq<int>, done: set<Slot>, base: Tables, u: Tables)
    requires Known(t, ids)
  {
    && u == base.(info := u.info, newSlots := u.newSlots) && Dense(base, |ids|) && u.info.Keys == base.info.Keys
    && done <= t.newSlots.Keys && u.newSlots.Keys == done
    && (forall s :: s in done ==> 0 <= u.newSlots[s] < |ids| && ids[u.newSlots[s]] == t.newSlots[s])
    && (forall k :: 0 <= k < |ids| ==> u.info[k] == LoadedAs(t, ids, k).(nRefCount := |RefsIn(t, done, ids[k])|))
  }

  lemma RefsInNext(t: Tables, done: set<Slot>, s: Slot, id: int)
    requires s in t.newSlots && s !in done
    ensures |RefsIn(t, done + {s}, id)| == |RefsIn(t, done, id)| + (if t.newSlots[s] == id then 1 else 0)
    ensures t.newSlots[s] == id && done <= t.newSlots.Keys ==> |RefsIn(t, done, id)| < |Refs(t, id)|
  {
    var a, b := RefsIn(t, done, id), RefsIn(t, done + {s}, id);
    if t.newSlots[s] == id {
      assert b == a + {s} && s !in a;
      if done <= t.newSlots.Keys {
        assert a <= Refs(t, id) - {s};
        Fewer(a, Refs(t, id), s);
      }
    } else {
      assert b == a;
    }
  }

  lemma Fewer<T>(a: set<T>, b: set<T>, x: T)
    requires a <= b - {x} && x in b
    ensures |a| < |b|
  {
    assert b - {x} == a + (b - {x} - a);
  }

  lemma RefBack(c: Config, key: int, t: Tables, ids: seq<int>, m: nat, done: set<Slot>, base: Tables, disk: Disk,
                s: Slot, index: nat, u: Tables)
    requires c.Valid() && Inv(c, key, t) && Listed(t, ids, m) && Known(t, ids) && RefsRead(t, ids, done, base, u)
    requires Indexed(u)
    requires s in t.newSlots && s !in done && index < m && ids[index] == t.newSlots[s]
    requires disk.key == key && SameLayout(c, disk) && |disk.newInfos| == m
    ensures (forall k :: 0 <= k < |disk.newInfos| ==> k in u.info)
    ensures RefsRead(t, ids, done + {s}, base, LoadRef(c, disk, u, s.0, index))
  {
    var id := ids[index];
    RefsInNext(t, done, s, id);
    PlacedAt(c, key, t, s);
    hide Inv, Indexed, SameLayout;
    assert u.info[index].service == t.info[id].service;
    var slot := (s.0, c.position(key, true, s.0, u.info[index].service));
    assert slot == s;
    var v := AddRef(u, index, s);
    assert LoadRef(c, disk, u, s.0, index) == v;
    hide LoadRef;
    RefAdded(t, ids, done, base, s, index, u, v);
  }

  lemma PlacedAt(c: Config, key: int, t: Tables, s: Slot)
    requires Inv(c, key, t) && s in t.newSlots
    ensures t.newSlots[s] in t.info && 0 <= s.0 < c.newBuckets
    ensures s.1 == c.position(key, true, s.0, t.info[t.newSlots[s]].service)
    ensures !t.info[t.newSlots[s]].fInTried && |Refs(t, t.newSlots[s])| <= c.newPerAddress
  {
    hide Indexed, HostInverse, TriedExact, Counters, Stats;
    var id := t.newSlots[s];
    assert id in t.info && id !in {};
    assert s in Refs(t, id);
    assert t.info[id].fInTried ==> |Refs(t, id)| == 0;
  }

  lemma RefAdded(t: Tables, ids: seq<int>, done: set<Slot>, base: Tables, s: Slot, index: nat, u: Tables, v: Tables)
    requires Known(t, ids) && RefsRead(t, ids, done, base, u) && Distinct(ids)
    requires s in t.newSlots && s !in done && index < |ids| && ids[index] == t.newSlots[s]
    requires index in u.info && v == AddRef(u, index, s)
    ensures RefsRead(t, ids, done + {s}, base, v)
  {
    forall k | 0 <= k < |ids| ensures v.info[k] == LoadedAs(t, ids, k).(nRefCount := |RefsIn(t, done + {s}, ids[k])|) {
      RefsInNext(t, done, s, ids[k]);
      RefInfo(t, ids, done, base, s, index, u, k);
    }
    hide RefsIn, LoadedAs, Distinct;
    assert v.newSlots == u.newSlots[s := index];
    assert v.newSlots.Keys == done + {s};
    assert v.info.Keys == u.info.Keys;
  }

  lemma RefInfo(t: Tables, ids: seq<int>, done: set<Slot>, base: Tables, s: Slot, index: nat, u: Tables, k: nat)
    requires Known(t, ids) && RefsRead(t, ids, done, base, u) && Distinct(ids) && k < |ids|
    requires s in t.newSlots && index < |ids| && ids[index] == t.newSlots[s] && index in u.info
    ensures k in u.info
    ensures AddRef(u, index, s).info[k] ==
      LoadedAs(t, ids, k).(nRefCount := |RefsIn(t, done, ids[k])| + (if t.newSlots[s] == ids[k] then 1 else 0))
  {
    hide RefsIn, LoadedAs;
    assert k < index ==> ids[k] != ids[index];
    assert index < k ==> ids[index] != ids[k];
  }

  // ------------------------------------------------------------ buckets

  /** The occupied slots of the buckets below b. */
  ghost function Below(t: Tables, b: int): set<Slot> { set s | s in t.newSlots && s.0 < b }

  ghost function FirstSlots(slots: seq<Slot>, n: nat): set<Slot>
    requires n <= |slots|
  {
    set k | 0 <= k < n :: slots[k]
  }

  lemma BucketIndex(c: Config, key: int, t: Tables, b: nat, k: nat)
    requires c.Valid() && Inv(c, key, t) && k < |BucketSlots(c, t, b, 0)|
    ensures
      var s := BucketSlots(c, t, b, 0)[k];
      && s in t.newSlots && s.0 == b && |BucketOf(c, t, b)| == |BucketSlots(c, t, b, 0)|
      && 0 <= BucketOf(c, t, b)[k] < |NewList(t, t.idCount)|
      && BucketOf(c, t, b)[k] < |OldIds(t)| && OldIds(t)[BucketOf(c, t, b)[k]] == t.newSlots[s]
  {
    BucketSlotsFilled(c, t, b, 0);
    var s := BucketSlots(c, t, b, 0)[k];
    PlacedAt(c, key, t, s);
    NewHasRefs(c, key, t);
    NewRank(t, t.idCount, t.newSlots[s]);
  }

  /** The first n slots of a bucket, on top of all buckets before it. */
  lemma {:induction false} BucketBack(c: Config, key: int, t: Tables, base: Tables, disk: Disk, b: nat, n: nat,
                                      u: Tables)
    requires c.Valid() && Inv(c, key, t) && disk == DiskOf(c, key, t) && n <= |BucketSlots(c, t, b, 0)|
    requires Indexed(u) && Known(t, OldIds(t)) && RefsRead(t, OldIds(t), Below(t, b), base, u)
    ensures forall k :: 0 <= k < |disk.newInfos| ==> k in u.info
    ensures n <= |BucketOf(c, t, b)|
    ensures RefsRead(t, OldIds(t), Below(t, b) + FirstSlots(BucketSlots(c, t, b, 0), n), base,
                     LoadBucket(c, disk, u, b, BucketOf(c, t, b), n))
    decreases n
  {
    hide *;
    NewThere(c, key, t, disk, Below(t, b), base, u);
    BucketLength(c, t, b);
    if n == 0 {
      BucketStart(c, disk, t, u, b);
    } else {
      BucketBack(c, key, t, base, disk, b, n - 1, u);
      BucketStep(c, key, t, base, disk, b, n, u, LoadBucket(c, disk, u, b, BucketOf(c, t, b), n - 1));
    }
  }

  lemma BucketLength(c: Config, t: Tables, b: nat)
    ensures |BucketOf(c, t, b)| == |BucketSlots(c, t, b, 0)|
  {
    hide BucketSlots;
  }

  lemma NewThere(c: Config, key: int, t: Tables, disk: Disk, done: set<Slot>, base: Tables, u: Tables)
    requires c.Valid() && Inv(c, key, t) && disk == DiskOf(c, key, t) && Known(t, OldIds(t))
    requires RefsRead(t, OldIds(t), done, base, u)
    ensures forall k :: 0 <= k < |disk.newInfos| ==> k in u.info
    ensures |disk.newInfos| == |NewList(t, t.idCount)|
  {
    hide Inv, NewList, TriedList, RefsIn, LoadedAs;
  }

  lemma BucketStart(c: Config, disk: Disk, t: Tables, u: Tables, b: nat)
    requires Indexed(u) && forall k :: 0 <= k < |disk.newInfos| ==> k in u.info
    ensures LoadBucket(c, disk, u, b, BucketOf(c, t, b), 0) == u
    ensures Below(t, b) + FirstSlots(BucketSlots(c, t, b, 0), 0) == Below(t, b)
  {
    hide BucketOf, BucketSlots, LoadRef;
  }

  lemma SlotsNext(c: Config, t: Tables, b: nat, n: nat)
    requires 0 < n <= |BucketSlots(c, t, b, 0)|
    ensures
      var slots := BucketSlots(c, t, b, 0);
      var done := Below(t, b) + FirstSlots(slots, n - 1);
      slots[n - 1] !in done && done + {slots[n - 1]} == Below(t, b) + FirstSlots(slots, n)
  {
    BucketSlotsFilled(c, t, b, 0);
    hide BucketSlots;
  }

  lemma BucketStep(c: Config, key: int, t: Tables, base: Tables, disk: Disk, b: nat, n: nat, u0: Tables, u: Tables)
    requires c.Valid() && Inv(c, key, t) && disk == DiskOf(c, key, t)
    requires 0 < n <= |BucketSlots(c, t, b, 0)| == |BucketOf(c, t, b)|
    requires Indexed(u0) && forall k :: 0 <= k < |disk.newInfos| ==> k in u0.info
    requires u == LoadBucket(c, disk, u0, b, BucketOf(c, t, b), n - 1)
    requires Known(t, OldIds(t))
    requires RefsRead(t, OldIds(t), Below(t, b) + FirstSlots(BucketSlots(c, t, b, 0), n - 1), base, u)
    ensures RefsRead(t, OldIds(t), Below(t, b) + FirstSlots(BucketSlots(c, t, b, 0), n), base,
                     LoadBucket(c, disk, u0, b, BucketOf(c, t, b), n))
  {
    hide *;
    var s, done := BucketSlots(c, t, b, 0)[n - 1], Below(t, b) + FirstSlots(BucketSlots(c, t, b, 0), n - 1);
    BucketIndex(c, key, t, b, n - 1);
    SlotsNext(c, t, b, n);
    OldIdsListed(c, key, t);
    DiskKey(c, key, t);
    NewThere(c, key, t, disk, done, base, u);
    RefBack(c, key, t, OldIds(t), |NewList(t, t.idCount)|, done, base, disk, s, BucketOf(c, t, b)[n - 1], u);
    LoadBucketStep(c, disk, u0, b, BucketOf(c, t, b), n);
  }

  lemma LoadBucketStep(c: Config, disk: Disk, t: Tables, bucket: int, ids: seq<int>, n: nat)
    requires Indexed(t) && 0 < n <= |ids| && forall k :: 0 <= k < |disk.newInfos| ==> k in t.info
    ensures LoadBucket(c, disk, t, bucket, ids, n) ==
      LoadRef(c, disk, LoadBucket(c, disk, t, bucket, ids, n - 1), bucket, ids[n - 1])
  {
    hide LoadRef;
  }

  /** All slots of the buckets below n. */
  lemma {:induction false} BucketsBack(c: Config, key: int, t: Tables, base: Tables, n: nat)
    requires c.Valid() && Inv(c, key, t) && n <= c.newBuckets
    requires Indexed(base) && Known(t, OldIds(t)) && RefsRead(t, OldIds(t), {}, base, base)
    ensures n <= |DiskOf(c, key, t).buckets| == c.newBuckets
    ensures forall k :: 0 <= k < |DiskOf(c, key, t).newInfos| ==> k in base.info
    ensures RefsRead(t, OldIds(t), Below(t, n), base, LoadBuckets(c, DiskOf(c, key, t), base, n))
    decreases n
  {
    hide *;
    var disk := DiskOf(c, key, t);
    NewThere(c, key, t, disk, {}, base, base);
    DiskBuckets(c, key, t);
    if n == 0 {
      NoneBelow(c, key, t, disk, base);
    } else {
      BucketsBack(c, key, t, base, n - 1);
      var u := LoadBuckets(c, disk, base, n - 1);
      BucketBack(c, key, t, base, disk, n - 1, |BucketSlots(c, t, n - 1, 0)|, u);
      BucketLength(c, t, n - 1);
      WholeBucket(c, key, t, n - 1);
      LoadBucketsStep(c, disk, base, n);
    }
  }

  lemma DiskBuckets(c: Config, key: int, t: Tables)
    requires c.Valid()
    ensures |DiskOf(c, key, t).buckets| == c.newBuckets
    ensures forall b :: 0 <= b < c.newBuckets ==> DiskOf(c, key, t).buckets[b] == BucketOf(c, t, b)
  {
    hide NewList, TriedList, BucketOf;
  }

  lemma NoneBelow(c: Config, key: int, t: Tables, disk: Disk, base: Tables)
    requires c.Valid() && Inv(c, key, t) && Indexed(base) && forall k :: 0 <= k < |disk.newInfos| ==> k in base.info
    ensures Below(t, 0) == {} && LoadBuckets(c, disk, base, 0) == base
  {
    InvParts(c, key, t);
    hide Inv, LoadBucket;
  }

  lemma WholeBucket(c: Config, key: int, t: Tables, b: nat)
    requires c.Valid() && Inv(c, key, t)
    ensures Below(t, b) + FirstSlots(BucketSlots(c, t, b, 0), |BucketSlots(c, t, b, 0)|) == Below(t, b + 1)
  {
    BucketSlotsFilled(c, t, b, 0);
    InvParts(c, key, t);
    hide Inv, BucketSlots;
    var slots := BucketSlots(c, t, b, 0);
    forall s ensures s in Below(t, b) + FirstSlots(slots, |slots|) <==> s in Below(t, b + 1) {
      if s in t.newSlots && s.0 == b {
        assert 0 <= s.1 < c.bucketSize;
        assert s in slots;
        var k :| 0 <= k < |slots| && slots[k] == s;
      }
    }
  }

  lemma LoadBucketsStep(c: Config, disk: Disk, t: Tables, n: nat)
    requires Indexed(t) && 0 < n <= |disk.buckets| && forall k :: 0 <= k < |disk.newInfos| ==> k in t.info
    ensures
      LoadBuckets(c, disk, t, n) ==
      LoadBucket(c, disk, LoadBuckets(c, disk, t, n - 1), n - 1, disk.buckets[n - 1], |disk.buckets[n - 1]|)
  {
    hide LoadBucket;
  }

  // ------------------------------------------------------------ the whole

  /** The same manager under new ids: every entry as it was, but for when it was last tried and
      its place in the random order; the same hosts, slots and counts. */
  ghost predicate Renamed(c: Config, key: int, t: Tables, ids: seq<int>, u: Tables) {
    && Known(t, ids) && Distinct(ids) && (forall id :: id in t.info ==> id in ids)
    && Dense(u, |ids|) && u.idCount == |ids|
    && (forall k :: 0 <= k < |ids| ==> u.info[k] == t.info[ids[k]].(nLastTry := 0, nRandomPos := k))
    && |u.random| == |ids| && (forall k :: 0 <= k < |ids| ==> u.random[k] == k)
    && HostsTo(t, ids, |ids|, u.byHost)
    && TriedTo(c, key, t, ids, |ids|, u.triedSlots)
    && u.newSlots.Keys == t.newSlots.Keys
    && (forall s :: s in t.newSlots ==> 0 <= u.newSlots[s] < |ids| && ids[u.newSlots[s]] == t.newSlots[s])
    && u.nNew == t.nNew && u.nTried == t.nTried
  }

  lemma AllBelow(c: Config, key: int, t: Tables)
    requires Inv(c, key, t)
    ensures Below(t, c.newBuckets) == t.newSlots.Keys
    ensures forall id :: RefsIn(t, t.newSlots.Keys, id) == Refs(t, id)
  {
    InvParts(c, key, t);
    hide Inv;
    forall s ensures s in Below(t, c.newBuckets) <==> s in t.newSlots.Keys {}
    forall id ensures RefsIn(t, t.newSlots.Keys, id) == Refs(t, id) {
      forall s ensures s in RefsIn(t, t.newSlots.Keys, id) <==> s in Refs(t, id) {}
    }
  }

  lemma NoRefsYet(c: Config, key: int, t: Tables, ids: seq<int>, base: Tables)
    requires Read(c, key, t, ids, |ids|, base)
    ensures Known(t, ids) && RefsRead(t, ids, {}, base, base)
  {
    forall k | 0 <= k < |ids| ensures base.info[k] == LoadedAs(t, ids, k).(nRefCount := |RefsIn(t, {}, ids[k])|) {
      assert RefsIn(t, {}, ids[k]) == {};
    }
    hide HostsTo, TriedTo, RefsIn;
  }

  lemma AllRead(c: Config, key: int, t: Tables, ids: seq<int>, m: nat, base: Tables, u: Tables)
    requires Inv(c, key, t) && Listed(t, ids, m) && Read(c, key, t, ids, |ids|, base) && base.idCount == |ids|
    requires RefsRead(t, ids, t.newSlots.Keys, base, u)
    ensures Renamed(c, key, t, ids, u)
  {
    AllBelow(c, key, t);
    InvParts(c, key, t);
    hide Inv, RefsIn, HostsTo, TriedTo, HostInverse, Indexed, TriedExact, NewPlaced, Counters, Stats, Refs, Distinct;
    forall k | 0 <= k < |ids| ensures u.info[k] == t.info[ids[k]].(nLastTry := 0, nRandomPos := k) {
      assert t.info[ids[k]].nRefCount == |Refs(t, ids[k])|;
    }
  }

  lemma {:induction false} PruneNone(u: Tables, id: int)
    requires Indexed(u) && forall k :: k in u.info ==> u.info[k].fInTried || u.info[k].nRefCount != 0
    ensures Prune(u, id) == u
    decreases u.idCount - id
  {
    hide Indexed, Delete;
    if id < u.idCount { PruneNone(u, id + 1); }
  }

  lemma NothingToPrune(c: Config, key: int, t: Tables, ids: seq<int>, u: Tables)
    requires Inv(c, key, t) && Renamed(c, key, t, ids, u)
    ensures forall k :: k in u.info ==> u.info[k].fInTried || u.info[k].nRefCount != 0
  {
    NewHasRefs(c, key, t);
    hide Inv, HostsTo, TriedTo, Distinct;
    forall k | k in u.info ensures u.info[k].fInTried || u.info[k].nRefCount != 0 {
      assert ids[k] in t.info;
    }
  }

  lemma RenamedRefs(c: Config, key: int, t: Tables, ids: seq<int>, u: Tables, k: nat)
    requires Renamed(c, key, t, ids, u) && k < |ids|
    ensures Refs(u, k) == Refs(t, ids[k])
  {
    hide HostsTo, TriedTo;
    forall s ensures s in Refs(u, k) <==> s in Refs(t, ids[k]) {
      if s in t.newSlots {
        var j := u.newSlots[s];
        assert j < k ==> ids[j] != ids[k];
        assert k < j ==> ids[k] != ids[j];
      }
    }
  }

  lemma RenamedRefCounts(c: Config, key: int, t: Tables, ids: seq<int>, u: Tables)
    requires Inv(c, key, t) && Renamed(c, key, t, ids, u)
    ensures RefCounts(c, u, {})
  {
    InvParts(c, key, t);
    forall k | 0 <= k < |ids| ensures Refs(u, k) == Refs(t, ids[k]) { RenamedRefs(c, key, t, ids, u, k); }
    hide Inv, HostsTo, TriedTo, Distinct, HostInverse, Indexed, TriedExact, NewPlaced, Counters, Stats, Refs;
    forall k | k in u.info
      ensures u.info[k].nRefCount == |Refs(u, k)|
      ensures u.info[k].fInTried ==> u.info[k].nRefCount == 0
      ensures !u.info[k].fInTried ==> 0 < u.info[k].nRefCount <= c.newPerAddress
    {
      var id := ids[k];
      assert id in t.info && id !in {};
    }
  }

  lemma RenamedInfo(c: Config, key: int, t: Tables, ids: seq<int>, u: Tables)
    requires Renamed(c, key, t, ids, u)
    ensures Dense(u, |ids|) && Known(t, ids)
    ensures forall k :: k in u.info ==>
      0 <= k < |ids| && u.info[k].service == t.info[ids[k]].service && u.info[k].fInTried == t.info[ids[k]].fInTried
    ensures Indexed(u)
  {
    hide HostsTo, TriedTo, Distinct;
  }

  lemma RenamedHosts(c: Config, key: int, t: Tables, ids: seq<int>, u: Tables)
    requires Renamed(c, key, t, ids, u)
    ensures HostInverse(u)
  {
    hide TriedTo, Distinct;
  }

  lemma RenamedTried(c: Config, key: int, t: Tables, ids: seq<int>, u: Tables)
    requires Renamed(c, key, t, ids, u)
    ensures TriedExact(c, key, u)
  {
    RenamedInfo(c, key, t, ids, u);
    var n, slots := |ids|, u.triedSlots;
    assert TriedTo(c, key, t, ids, n, slots);
    hide Renamed, TriedSlot, Indexed;
  }

  lemma RenamedSlots(c: Config, key: int, t: Tables, ids: seq<int>, u: Tables)
    requires Renamed(c, key, t, ids, u)
    ensures forall s :: s in u.newSlots ==>
      s in t.newSlots && 0 <= u.newSlots[s] < |ids| && ids[u.newSlots[s]] == t.newSlots[s]
  {
    hide HostsTo, TriedTo, Distinct;
  }

  lemma RenamedNew(c: Config, key: int, t: Tables, ids: seq<int>, u: Tables)
    requires NewPlaced(c, key, t) && Renamed(c, key, t, ids, u)
    ensures NewPlaced(c, key, u)
  {
    hide Renamed, Indexed;
    RenamedInfo(c, key, t, ids, u);
    RenamedSlots(c, key, t, ids, u);
    forall s | s in u.newSlots
      ensures u.newSlots[s] in u.info && 0 <= s.0 < c.newBuckets
      ensures s.1 == c.position(key, true, s.0, u.info[u.newSlots[s]].service)
    {
      var id := t.newSlots[s];
      assert id in t.info;
    }
  }

  lemma RenamedStats(c: Config, key: int, t: Tables, ids: seq<int>, u: Tables)
    requires Stats(t) && Renamed(c, key, t, ids, u)
    ensures Stats(u)
  {
    hide HostsTo, TriedTo, Distinct;
    forall k | k in u.info ensures GoodStats(u.info[k]) {
      var id := ids[k];
      assert id in t.info && GoodStats(t.info[id]);
    }
  }

  function Range(a: int, b: int): (s: set<int>)
    ensures forall k :: k in s <==> a <= k < b
    ensures a <= b ==> |s| == b - a
    decreases b - a
  {
    if a >= b then {} else Range(a, b - 1) + {b - 1}
  }

  lemma RenamedCounts(c: Config, key: int, t: Tables, m: nat, u: Tables)
    requires Inv(c, key, t) && Renamed(c, key, t, OldIds(t), u) && Listed(t, OldIds(t), m)
    requires m == |NewList(t, t.idCount)|
    ensures Counters(u)
  {
    CountsAreLengths(c, key, t);
    OldIdsLength(t);
    RenamedInfo(c, key, t, OldIds(t), u);
    RenamedTotals(c, key, t, OldIds(t), u);
    ListedFlags(t, OldIds(t), m);
    hide *;
    CountRanges(t, OldIds(t), m, u);
  }

  lemma RenamedTotals(c: Config, key: int, t: Tables, ids: seq<int>, u: Tables)
    requires Renamed(c, key, t, ids, u)
    ensures u.nNew == t.nNew && u.nTried == t.nTried
  {
  }

  lemma ListedFlags(t: Tables, ids: seq<int>, m: nat)
    requires Listed(t, ids, m)
    ensures Known(t, ids) && m <= |ids| && forall k :: 0 <= k < |ids| ==> (t.info[ids[k]].fInTried <==> k >= m)
  {
  }

  lemma CountRanges(t: Tables, ids: seq<int>, m: nat, u: Tables)
    requires Known(t, ids) && m <= |ids| && forall k :: 0 <= k < |ids| ==> (t.info[ids[k]].fInTried <==> k >= m)
    requires Dense(u, |ids|)
    requires forall k :: k in u.info ==> 0 <= k < |ids| && u.info[k].fInTried == t.info[ids[k]].fInTried
    requires u.nNew == m && u.nTried == |ids| - m
    ensures Counters(u)
  {
    forall k ensures k in NewIds(u) <==> k in Range(0, m) {}
    forall k ensures k in TriedIds(u) <==> k in Range(m, |ids|) {}
    assert NewIds(u) == Range(0, m);
    assert TriedIds(u) == Range(m, |ids|);
  }

  /** Reading into a new manager what a consistent one has written loses no entry: both tables,
      the address data and the reference counts are restored up to the names of the ids, and the
      result is consistent again. */
  lemma ReloadRestores(c: Config, key: int, t: Tables)
    requires c.Valid() && Inv(c, key, t)
    ensures
      var u := LoadAll(c, DiskOf(c, key, t));
      Renamed(c, key, t, OldIds(t), u) && Inv(c, key, u)
  {
    hide *;
    var disk, ids, m := DiskOf(c, key, t), OldIds(t), |NewList(t, t.idCount)|;
    OldIdsListed(c, key, t);
    LoadTriedIs(c, key, t, |TriedList(t, t.idCount)|);
    OldIdsLength(t);
    var base := LoadTried(c, disk, |TriedList(t, t.idCount)|);
    NoRefsYet(c, key, t, ids, base);
    AllBelow(c, key, t);
    ValidCount(c);
    BucketsBack(c, key, t, base, c.newBuckets);
    var u := LoadBuckets(c, disk, base, c.newBuckets);
    AllRead(c, key, t, ids, m, base, u);
    NothingToPrune(c, key, t, ids, u);
    InvParts(c, key, t);
    RenamedInfo(c, key, t, ids, u);
    RenamedHosts(c, key, t, ids, u);
    RenamedTried(c, key, t, ids, u);
    RenamedNew(c, key, t, ids, u);
    RenamedStats(c, key, t, ids, u);
    PruneNone(u, 0);
    LoadAllIs(c, disk);
    RenamedRefCounts(c, key, t, ids, u);
    RenamedCounts(c, key, t, m, u);
    Assemble(c, key, u, {});
    InvIs(c, key, u);
  }

  lemma OldIdsLength(t: Tables)
    ensures |OldIds(t)| == |NewList(t, t.idCount)| + |TriedList(t, t.idCount)|
  {
    hide NewList, TriedList;
  }

  lemma ValidCount(c: Config)
    requires c.Valid()
    ensures 0 < c.newBuckets
  {
  }

  lemma LoadAllIs(c: Config, disk: Disk)
    requires forall k :: 0 <= k < |disk.newInfos| ==> k in LoadTried(c, disk, |disk.triedInfos|).info
    ensures LoadAll(c, disk) == Prune(LoadBuckets(c, disk, LoadTried(c, disk, |disk.triedInfos|), |disk.buckets|), 0)
  {
    hide LoadTried, LoadBuckets, Prune;
  }

  lemma InvIs(c: Config, key: int, u: Tables)
    requires InvPend(c, key, u, {}) && Stats(u)
    ensures Inv(c, key, u)
  {
    hide InvPend, Stats;
  }
}
