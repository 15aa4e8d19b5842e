/**
 Reading files that the manager has not written itself: one whose buckets cannot be used is still
 read into consistent tables, one that names a host twice need not be.
 */
module AddrFiles {
  import opened Common
  import opened AddrTables
  import opened AddrInvariant
  import opened AddrStore
  import C = AddrCheck
  import O = AddrOps
  import R = AddrReload

  // ------------------------------------------------------------ one more entry

  lemma PushInv(c: Config, key: int, t: Tables, u: Tables, id: int, pend: set<int>)
    requires InvPend(c, key, t, pend) && OneMore(t, u, id) && u.info[id].nRefCount == 0
    requires id == t.idCount && u.idCount == id + 1 && u.random == t.random + [id]
    requires u.info[id].nRandomPos == |t.random|
    requires u.info[id].service.host !in t.byHost && u.byHost == t.byHost[u.info[id].service.host := id]
    requires u.newSlots == t.newSlots && u.triedSlots == t.triedSlots && u.nNew == t.nNew + 1 && u.nTried == t.nTried
    ensures InvPend(c, key, u, pend + {id})
  {
    PushIndexed(t, u, id);
    MoreCounts(t, u, id);
    MoreTried(c, key, t, u, id);
    MorePlaced(c, key, t, u, id);
    PushRefs(c, t, u, id, pend);
    PushHosts(t, u, id);
    hide Indexed, HostInverse, TriedExact, NewPlaced, RefCounts, Counters;
    Assemble(c, key, u, pend + {id});
  }

  lemma PushHosts(t: Tables, u: Tables, id: int)
    requires HostInverse(t) && OneMore(t, u, id) && id == t.idCount && u.idCount == id + 1
    requires u.info[id].service.host !in t.byHost && u.byHost == t.byHost[u.info[id].service.host := id]
    ensures HostInverse(u)
  {
  }

  lemma PushRefs(c: Config, t: Tables, u: Tables, id: int, pend: set<int>)
    requires RefCounts(c, t, pend) && OneMore(t, u, id) && u.info[id].nRefCount == 0 && u.newSlots == t.newSlots
    requires forall s :: s in t.newSlots ==> t.newSlots[s] in t.info
    ensures RefCounts(c, u, pend + {id})
  {
    forall i ensures Refs(u, i) == Refs(t, i) {}
    assert Refs(t, id) == {};
  }

  // ------------------------------------------------------------ the new table

  function SlotOf(c: Config, disk: Disk, k: nat): Slot
    requires k < |disk.newInfos|
  {
    NewSlot(c, disk.key, disk.newInfos[k].service, disk.newInfos[k].source)
  }

  /** An earlier new entry goes to the same slot. */
  predicate Collides(c: Config, disk: Disk, k: nat)
    requires k < |disk.newInfos|
  {
    exists j :: 0 <= j < k && SlotOf(c, disk, j) == SlotOf(c, disk, k)
  }

  ghost function Lost(c: Config, disk: Disk, n: nat): set<int>
    requires n <= |disk.newInfos|
  {
    set k | 0 <= k < n && Collides(c, disk, k)
  }

  function Entries(disk: Disk): seq<Saved> { disk.newInfos + disk.triedInfos }

  /** The counts are those of the entries, no host is named twice, and times are what the check asks. */
  ghost predicate Fine(disk: Disk) {
    && disk.nNew == |disk.newInfos| && disk.nTried == |disk.triedInfos|
    && (forall i, j :: 0 <= i < j < |Entries(disk)| ==> Entries(disk)[i].service.host != Entries(disk)[j].service.host)
    && (forall i :: 0 <= i < |disk.newInfos| ==> disk.newInfos[i].nLastSuccess >= 0)
    && (forall i :: 0 <= i < |disk.triedInfos| ==> disk.triedInfos[i].nLastSuccess > 0)
  }

  /** The tables after n new entries, counted as far as they have been read. */
  ghost function NewRead(c: Config, disk: Disk, n: nat): Tables
    requires n <= |disk.newInfos|
  {
    LoadNew(c, disk, n).(idCount := n, nNew := n, nTried := 0)
  }

  ghost predicate NewFacts(c: Config, disk: Disk, n: nat, t: Tables)
    requires n <= |disk.newInfos|
  {
    && t.triedSlots == map[]
    && (forall s :: s in t.newSlots <==> exists j :: 0 <= j < n && SlotOf(c, disk, j) == s)
    && (forall h :: h in t.byHost <==> exists j :: 0 <= j < n && disk.newInfos[j].service.host == h)
    && (forall k :: 0 <= k < n ==> IsSaved(t, k, disk.newInfos[k], false))
  }

  /** Entry id is the one saved. */
  predicate IsSaved(t: Tables, id: int, s: Saved, tried: bool) {
    id in t.info && Save(t.info[id]) == s && t.info[id].nLastTry == 0 && t.info[id].fInTried == tried
  }

  lemma {:induction false} NewReadInv(c: Config, disk: Disk, n: nat)
    requires c.Valid() && Fine(disk) && !SameLayout(c, disk) && n <= |disk.newInfos|
    ensures InvPend(c, disk.key, NewRead(c, disk, n), Lost(c, disk, n)) && NewFacts(c, disk, n, NewRead(c, disk, n))
  {
    hide *;
    if n == 0 {
      NewReadNone(c, disk);
    } else {
      NewReadInv(c, disk, n - 1);
      NewReadNext(c, disk, n - 1);
    }
  }

  lemma NewReadNone(c: Config, disk: Disk)
    ensures InvPend(c, disk.key, NewRead(c, disk, 0), Lost(c, disk, 0)) && NewFacts(c, disk, 0, NewRead(c, disk, 0))
  {
    assert Lost(c, disk, 0) == {};
    assert NewRead(c, disk, 0) == EMPTY;
    EmptyInv(c, disk.key);
  }

  /** The next entry, before it is given its slot. */
  ghost function Pushed(t: Tables, s: Saved): Tables {
    t.(info := t.info[t.idCount := Load(s, |t.random|)], byHost := t.byHost[s.service.host := t.idCount],
       random := t.random + [t.idCount], idCount := t.idCount + 1, nNew := t.nNew + 1)
  }

  lemma PushedInv(c: Config, key: int, t: Tables, s: Saved, pend: set<int>)
    requires InvPend(c, key, t, pend) && s.service.host !in t.byHost
    ensures InvPend(c, key, Pushed(t, s), pend + {t.idCount})
  {
    var u := Pushed(t, s);
    assert t.idCount !in t.info;
    assert OneMore(t, u, t.idCount);
    PushInv(c, key, t, u, t.idCount, pend);
  }

  lemma NewReadNext(c: Config, disk: Disk, n: nat)
    requires c.Valid() && Fine(disk) && !SameLayout(c, disk) && n < |disk.newInfos|
    requires InvPend(c, disk.key, NewRead(c, disk, n), Lost(c, disk, n)) && NewFacts(c, disk, n, NewRead(c, disk, n))
    ensures InvPend(c, disk.key, NewRead(c, disk, n + 1), Lost(c, disk, n + 1))
    ensures NewFacts(c, disk, n + 1, NewRead(c, disk, n + 1))
  {
    var t, s := NewRead(c, disk, n), disk.newInfos[n];
    var u, slot := Pushed(t, s), SlotOf(c, disk, n);
    NewHostIsNew(disk, n);
    hide InvPend;
    PushedInv(c, disk.key, t, s, Lost(c, disk, n));
    NewReadStep(c, disk, n);
    LostNext(c, disk, n);
    assert slot in t.newSlots <==> Collides(c, disk, n);
    if slot !in t.newSlots {
      SlotFits(c, disk, n);
      AddRefInv(c, disk.key, u, n, slot, Lost(c, disk, n) + {n});
    }
    NewFactsNext(c, disk, n, t);
  }

  lemma NewHostIsNew(disk: Disk, n: nat)
    requires Fine(disk) && n < |disk.newInfos|
    ensures forall j :: 0 <= j < n ==> disk.newInfos[j].service.host != disk.newInfos[n].service.host
  {
    forall j | 0 <= j < n ensures disk.newInfos[j].service.host != disk.newInfos[n].service.host {
      assert Entries(disk)[j] == disk.newInfos[j] && Entries(disk)[n] == disk.newInfos[n];
    }
  }

  lemma NewReadStep(c: Config, disk: Disk, n: nat)
    requires !SameLayout(c, disk) && n < |disk.newInfos|
    ensures
      var u, slot := Pushed(NewRead(c, disk, n), disk.newInfos[n]), SlotOf(c, disk, n);
      && n in u.info && u.info[n] == Load(disk.newInfos[n], |NewRead(c, disk, n).random|)
      && NewRead(c, disk, n + 1) == if slot in u.newSlots then u else AddRef(u, n, slot)
  {
    hide NewSlot, Indexed;
  }

  lemma LostNext(c: Config, disk: Disk, n: nat)
    requires n < |disk.newInfos|
    ensures Lost(c, disk, n + 1) == if Collides(c, disk, n) then Lost(c, disk, n) + {n as int}
      else Lost(c, disk, n) + {n as int} - {n as int}
  {
  }

  lemma SlotFits(c: Config, disk: Disk, n: nat)
    requires c.Valid() && n < |disk.newInfos|
    ensures
      var slot := SlotOf(c, disk, n);
      0 <= slot.0 < c.newBuckets && slot.1 == c.position(disk.key, true, slot.0, disk.newInfos[n].service)
  {
  }

  lemma NewFactsNext(c: Config, disk: Disk, n: nat, t: Tables)
    requires n < |disk.newInfos| && NewFacts(c, disk, n, t) && t.idCount == n
    ensures
      var u, slot := Pushed(t, disk.newInfos[n]), SlotOf(c, disk, n);
      NewFacts(c, disk, n + 1, if slot in u.newSlots then u else AddRef(u, n, slot))
  {
    hide NewSlot, SlotOf;
  }

  // ------------------------------------------------------------ the tried table

  function TriedSlotOf(c: Config, disk: Disk, k: nat): Slot
    requires k < |disk.triedInfos|
  {
    TriedSlot(c, disk.key, disk.triedInfos[k].service)
  }

  /** An earlier tried entry goes to the same slot. */
  predicate TriedCollides(c: Config, disk: Disk, k: nat)
    requires k < |disk.triedInfos|
  {
    exists j :: 0 <= j < k && TriedSlotOf(c, disk, j) == TriedSlotOf(c, disk, k)
  }

  /** The tables after all new and m tried entries, counted as far as they have been read. */
  ghost function TriedRead(c: Config, disk: Disk, m: nat): Tables
    requires m <= |disk.triedInfos|
  {
    var t := LoadTried(c, disk, m);
    t.(nNew := |disk.newInfos|, nTried := t.nTried - disk.nTried + m)
  }

  /** The entry in a slot is the one saved, but for its place in the random order. */
  predicate HoldsSaved(t: Tables, slot: Slot, s: Saved) {
    slot in t.triedSlots && IsSaved(t, t.triedSlots[slot], s, true)
  }

  ghost predicate HostRead(c: Config, disk: Disk, m: nat, h: NetAddr)
    requires m <= |disk.triedInfos|
  {
    || (exists j :: 0 <= j < |disk.newInfos| && disk.newInfos[j].service.host == h)
    || (exists j :: 0 <= j < m && !TriedCollides(c, disk, j) && disk.triedInfos[j].service.host == h)
  }

  ghost predicate TriedFacts(c: Config, disk: Disk, m: nat, t: Tables)
    requires m <= |disk.triedInfos|
  {
    && t.newSlots == NewRead(c, disk, |disk.newInfos|).newSlots && t.idCount >= |disk.newInfos|
    && (forall s :: s in t.triedSlots <==> exists j :: 0 <= j < m && TriedSlotOf(c, disk, j) == s)
    && (forall h :: h in t.byHost <==> HostRead(c, disk, m, h))
    && NewHeld(disk, t) && TriedHeld(c, disk, m, t) && OnlySaved(disk, m, t)
  }

  predicate NewHeld(disk: Disk, t: Tables) {
    forall k :: 0 <= k < |disk.newInfos| ==> IsSaved(t, k, disk.newInfos[k], false)
  }

  predicate TriedHeld(c: Config, disk: Disk, m: nat, t: Tables)
    requires m <= |disk.triedInfos|
  {
    forall j :: 0 <= j < m && !TriedCollides(c, disk, j) ==> HoldsSaved(t, TriedSlotOf(c, disk, j), disk.triedInfos[j])
  }

  ghost predicate OnlySaved(disk: Disk, m: nat, t: Tables)
    requires m <= |disk.triedInfos|
  {
    forall id :: id in t.info && id >= |disk.newInfos| ==>
      exists j :: 0 <= j < m && IsSaved(t, id, disk.triedInfos[j], true)
  }

  lemma {:induction false} TriedReadInv(c: Config, disk: Disk, m: nat)
    requires c.Valid() && Fine(disk) && !SameLayout(c, disk) && m <= |disk.triedInfos|
    ensures InvPend(c, disk.key, TriedRead(c, disk, m), Lost(c, disk, |disk.newInfos|))
    ensures TriedFacts(c, disk, m, TriedRead(c, disk, m))
  {
    hide *;
    if m == 0 {
      NewReadInv(c, disk, |disk.newInfos|);
      TriedReadNone(c, disk);
    } else {
      TriedReadInv(c, disk, m - 1);
      TriedReadNext(c, disk, m - 1);
    }
  }

  lemma TriedReadNone(c: Config, disk: Disk)
    requires Fine(disk)
    requires InvPend(c, disk.key, NewRead(c, disk, |disk.newInfos|), Lost(c, disk, |disk.newInfos|))
    requires NewFacts(c, disk, |disk.newInfos|, NewRead(c, disk, |disk.newInfos|))
    ensures InvPend(c, disk.key, TriedRead(c, disk, 0), Lost(c, disk, |disk.newInfos|))
    ensures TriedFacts(c, disk, 0, TriedRead(c, disk, 0))
  {
    hide *;
    TriedStart(c, disk);
    TriedFactsStart(c, disk);
  }

  lemma TriedStart(c: Config, disk: Disk)
    requires Fine(disk)
    ensures TriedRead(c, disk, 0) == NewRead(c, disk, |disk.newInfos|)
  {
    CountersKept(c, disk, |disk.newInfos|);
    hide LoadNew;
  }

  lemma TriedFactsStart(c: Config, disk: Disk)
    requires NewFacts(c, disk, |disk.newInfos|, NewRead(c, disk, |disk.newInfos|))
    ensures TriedFacts(c, disk, 0, NewRead(c, disk, |disk.newInfos|))
  {
    DenseIs(c, disk, |disk.newInfos|);
    hide LoadNew, SlotOf, TriedSlotOf, TriedCollides;
  }

  lemma {:induction false} CountersKept(c: Config, disk: Disk, n: nat)
    requires n <= |disk.newInfos|
    ensures LoadNew(c, disk, n).nNew == disk.nNew && LoadNew(c, disk, n).nTried == disk.nTried
  {
    hide NewSlot, SameLayout;
    if n > 0 { CountersKept(c, disk, n - 1); }
  }

  lemma DenseIs(c: Config, disk: Disk, n: nat)
    requires n <= |disk.newInfos|
    ensures forall k :: k in LoadNew(c, disk, n).info <==> 0 <= k < n
  {
    assert Dense(LoadNew(c, disk, n), n);
  }

  lemma TriedReadNext(c: Config, disk: Disk, m: nat)
    requires c.Valid() && Fine(disk) && !SameLayout(c, disk) && m < |disk.triedInfos|
    requires InvPend(c, disk.key, TriedRead(c, disk, m), Lost(c, disk, |disk.newInfos|))
    requires TriedFacts(c, disk, m, TriedRead(c, disk, m))
    ensures InvPend(c, disk.key, TriedRead(c, disk, m + 1), Lost(c, disk, |disk.newInfos|))
    ensures TriedFacts(c, disk, m + 1, TriedRead(c, disk, m + 1))
  {
    var t, s, pend := TriedRead(c, disk, m), disk.triedInfos[m], Lost(c, disk, |disk.newInfos|);
    var u, slot := Pushed(t, s), TriedSlotOf(c, disk, m);
    TriedHostIsNew(c, disk, m);
    TriedTaken(c, disk, m, t);
    TriedReadStep(c, disk, m);
    LostBelow(c, disk, |disk.newInfos|);
    CounterAbove(c, disk, m, t);
    if slot in t.triedSlots {
      TriedFactsSkip(c, disk, m, t);
    } else {
      HostNotRead(c, disk, m, t);
      hide *;
      PushedInv(c, disk.key, t, s, pend);
      PushedEntry(t, s);
      TriedSlotIs(c, disk, m);
      PromoteInv(c, disk.key, u, t.idCount, slot, pend + {t.idCount});
      PendWithout(pend, t.idCount);
      TriedFactsNext(c, disk, m, t);
    }
  }

  lemma PendWithout(pend: set<int>, id: int)
    requires id !in pend
    ensures pend + {id} - {id} == pend
  {
  }

  lemma TriedSlotIs(c: Config, disk: Disk, m: nat)
    requires m < |disk.triedInfos|
    ensures TriedSlotOf(c, disk, m) == TriedSlot(c, disk.key, disk.triedInfos[m].service)
  {
  }

  lemma PushedEntry(t: Tables, s: Saved)
    ensures Pushed(t, s).info == t.info[t.idCount := Load(s, |t.random|)] && Pushed(t, s).triedSlots == t.triedSlots
    ensures Load(s, |t.random|).service == s.service
  {
  }

  lemma LostBelow(c: Config, disk: Disk, n: nat)
    requires n <= |disk.newInfos|
    ensures forall k :: k in Lost(c, disk, n) ==> 0 <= k < n
  {
  }

  lemma CounterAbove(c: Config, disk: Disk, m: nat, t: Tables)
    requires m <= |disk.triedInfos| && TriedFacts(c, disk, m, t)
    ensures t.idCount >= |disk.newInfos|
  {
  }

  lemma TriedTaken(c: Config, disk: Disk, m: nat, t: Tables)
    requires m < |disk.triedInfos| && TriedFacts(c, disk, m, t)
    ensures TriedSlotOf(c, disk, m) in t.triedSlots <==> TriedCollides(c, disk, m)
  {
    hide TriedSlotOf;
  }

  lemma TriedHostIsNew(c: Config, disk: Disk, m: nat)
    requires Fine(disk) && m < |disk.triedInfos|
    ensures !HostRead(c, disk, m, disk.triedInfos[m].service.host)
  {
    var n := |disk.newInfos|;
    assert Entries(disk)[n + m] == disk.triedInfos[m];
    forall j | 0 <= j < n ensures disk.newInfos[j].service.host != disk.triedInfos[m].service.host {
      assert Entries(disk)[j] == disk.newInfos[j];
    }
    forall j | 0 <= j < m ensures disk.triedInfos[j].service.host != disk.triedInfos[m].service.host {
      assert Entries(disk)[n + j] == disk.triedInfos[j];
    }
    hide TriedCollides;
  }

  lemma HostNotRead(c: Config, disk: Disk, m: nat, t: Tables)
    requires m < |disk.triedInfos| && TriedFacts(c, disk, m, t)
    requires !HostRead(c, disk, m, disk.triedInfos[m].service.host)
    ensures disk.triedInfos[m].service.host !in t.byHost
  {
    hide HostRead;
  }

  lemma TriedReadStep(c: Config, disk: Disk, m: nat)
    requires m < |disk.triedInfos|
    ensures
      var t, slot := TriedRead(c, disk, m), TriedSlotOf(c, disk, m);
      && t.idCount in Pushed(t, disk.triedInfos[m]).info
      && TriedRead(c, disk, m + 1) ==
        if slot in t.triedSlots then t else Promote(Pushed(t, disk.triedInfos[m]), t.idCount, slot)
  {
    hide TriedSlot, Indexed, LoadNew;
  }

  lemma TriedFactsSkip(c: Config, disk: Disk, m: nat, t: Tables)
    requires m < |disk.triedInfos| && TriedFacts(c, disk, m, t) && TriedSlotOf(c, disk, m) in t.triedSlots
    requires TriedCollides(c, disk, m)
    ensures TriedFacts(c, disk, m + 1, t)
  {
    hide TriedSlotOf, TriedCollides, HoldsSaved, NewRead;
  }

  lemma TriedFactsNext(c: Config, disk: Disk, m: nat, t: Tables)
    requires m < |disk.triedInfos| && TriedFacts(c, disk, m, t) && TriedSlotOf(c, disk, m) !in t.triedSlots
    requires !TriedCollides(c, disk, m) && t.idCount !in t.info
    requires forall s :: s in t.triedSlots ==> t.triedSlots[s] in t.info
    ensures t.idCount in Pushed(t, disk.triedInfos[m]).info
    ensures TriedFacts(c, disk, m + 1, Promote(Pushed(t, disk.triedInfos[m]), t.idCount, TriedSlotOf(c, disk, m)))
  {
    var s, slot := disk.triedInfos[m], TriedSlotOf(c, disk, m);
    var u := Promote(Pushed(t, s), t.idCount, slot);
    TriedInfoIs(t, s, slot);
    hide TriedSlotOf, TriedCollides, NewRead, Promote, Pushed;
    TriedHeldNext(c, disk, m, t, u);
    OnlySavedNext(c, disk, m, t, u);
    SlotsReadNext(c, disk, m, t, u);
    HostsReadNext(c, disk, m, t, u);
    hide TriedHeld, OnlySaved, HostRead;
  }

  /** The entry is in the tried table, and all others are as they were. */
  lemma TriedInfoIs(t: Tables, s: Saved, slot: Slot)
    requires t.idCount !in t.info
    ensures
      var u := Promote(Pushed(t, s), t.idCount, slot);
      && u.info == t.info[t.idCount := Load(s, |t.random|).(fInTried := true)] && u.newSlots == t.newSlots
      && u.triedSlots == t.triedSlots[slot := t.idCount] && u.byHost == t.byHost[s.service.host := t.idCount]
      && u.idCount == t.idCount + 1 && IsSaved(u, t.idCount, s, true)
  {
  }

  lemma TriedHeldNext(c: Config, disk: Disk, m: nat, t: Tables, u: Tables)
    requires m < |disk.triedInfos| && TriedHeld(c, disk, m, t) && t.idCount !in t.info
    requires forall s :: s in t.triedSlots ==> t.triedSlots[s] in t.info
    requires t.info.Keys <= u.info.Keys && forall id :: id in t.info ==> u.info[id] == t.info[id]
    requires TriedSlotOf(c, disk, m) !in t.triedSlots
    requires u.triedSlots == t.triedSlots[TriedSlotOf(c, disk, m) := t.idCount]
    requires IsSaved(u, t.idCount, disk.triedInfos[m], true)
    ensures TriedHeld(c, disk, m + 1, u)
  {
    hide TriedSlotOf, TriedCollides;
    forall j | 0 <= j < m + 1 && !TriedCollides(c, disk, j)
      ensures HoldsSaved(u, TriedSlotOf(c, disk, j), disk.triedInfos[j])
    {
      if j < m {
        var slot := TriedSlotOf(c, disk, j);
        assert HoldsSaved(t, slot, disk.triedInfos[j]);
        assert u.triedSlots[slot] == t.triedSlots[slot];
      }
    }
  }

  lemma OnlySavedNext(c: Config, disk: Disk, m: nat, t: Tables, u: Tables)
    requires m < |disk.triedInfos| && OnlySaved(disk, m, t) && u.info.Keys == t.info.Keys + {t.idCount}
    requires forall id :: id in t.info && id != t.idCount ==> u.info[id] == t.info[id]
    requires IsSaved(u, t.idCount, disk.triedInfos[m], true)
    ensures OnlySaved(disk, m + 1, u)
  {
    forall id | id in u.info && id >= |disk.newInfos|
      ensures exists j :: 0 <= j < m + 1 && IsSaved(u, id, disk.triedInfos[j], true)
    {
      if id != t.idCount {
        assert id in t.info;
        var j :| 0 <= j < m && IsSaved(t, id, disk.triedInfos[j], true);
        assert IsSaved(u, id, disk.triedInfos[j], true);
      }
    }
  }

  lemma HostsReadNext(c: Config, disk: Disk, m: nat, t: Tables, u: Tables)
    requires m < |disk.triedInfos| && !TriedCollides(c, disk, m)
    requires forall h :: h in t.byHost <==> HostRead(c, disk, m, h)
    requires u.byHost == t.byHost[disk.triedInfos[m].service.host := t.idCount]
    ensures forall h :: h in u.byHost <==> HostRead(c, disk, m + 1, h)
  {
    hide TriedCollides;
    forall h ensures HostRead(c, disk, m + 1, h) <==> HostRead(c, disk, m, h) || h == disk.triedInfos[m].service.host {}
    hide HostRead;
  }

  lemma SlotsReadNext(c: Config, disk: Disk, m: nat, t: Tables, u: Tables)
    requires m < |disk.triedInfos| && u.triedSlots == t.triedSlots[TriedSlotOf(c, disk, m) := t.idCount]
    requires forall s :: s in t.triedSlots <==> exists j :: 0 <= j < m && TriedSlotOf(c, disk, j) == s
    ensures forall s :: s in u.triedSlots <==> exists j :: 0 <= j < m + 1 && TriedSlotOf(c, disk, j) == s
  {
    hide TriedSlotOf;
  }

  // ------------------------------------------------------------ the end of the file

  lemma {:induction false} NoBucket(c: Config, disk: Disk, t: Tables, bucket: int, ids: seq<int>, n: nat)
    requires Indexed(t) && n <= |ids| && (forall k :: 0 <= k < |disk.newInfos| ==> k in t.info) && !SameLayout(c, disk)
    ensures LoadBucket(c, disk, t, bucket, ids, n) == t
  {
    hide Indexed, SameLayout;
    if n > 0 { NoBucket(c, disk, t, bucket, ids, n - 1); }
  }

  lemma {:induction false} NoBuckets(c: Config, disk: Disk, t: Tables, n: nat)
    requires Indexed(t) && n <= |disk.buckets| && (forall k :: 0 <= k < |disk.newInfos| ==> k in t.info)
    requires !SameLayout(c, disk)
    ensures LoadBuckets(c, disk, t, n) == t
  {
    hide Indexed, LoadBucket, SameLayout;
    if n > 0 {
      NoBuckets(c, disk, t, n - 1);
      NoBucket(c, disk, t, n - 1, disk.buckets[n - 1], |disk.buckets[n - 1]|);
    }
  }

  /** The entries that are not lost are as before, up to their places in the random order. */
  ghost predicate PrunedOf(t: Tables, u: Tables, lost: set<int>) {
    && u.info.Keys == t.info.Keys - lost && u.triedSlots == t.triedSlots && u.newSlots == t.newSlots
    && forall x :: x in u.info ==> O.Untouched(t, u, x)
  }

  lemma PrunedTwice(t: Tables, s: Tables, u: Tables, a: set<int>, b: set<int>)
    requires PrunedOf(t, s, a) && PrunedOf(s, u, b)
    ensures PrunedOf(t, u, a + b)
  {
  }

  lemma Deleted(t: Tables, id: int)
    requires Indexed(t) && id in t.info
    ensures 0 <= t.info[id].nRandomPos < |t.random| && t.random[t.info[id].nRandomPos] == id
    ensures t.random[|t.random| - 1] in t.info
    ensures PrunedOf(t, Delete(t, id), {id}) && Delete(t, id).idCount == t.idCount
  {
    O.DeleteEffect(t, id);
  }

  lemma {:induction false} PruneInv(c: Config, key: int, t: Tables, id: int, pend: set<int>)
    requires InvPend(c, key, t, pend) && forall x :: x in pend ==> id <= x < t.idCount
    ensures Indexed(t) && InvPend(c, key, Prune(t, id), {}) && PrunedOf(t, Prune(t, id), pend)
    decreases t.idCount - id
  {
    hide *;
    PendingIs(c, key, t, pend);
    if id >= t.idCount {
      PruneNone(t, id, pend);
    } else if id in pend {
      DeleteInv(c, key, t, id, pend);
      Deleted(t, id);
      PruneThis(t, id);
      PruneInv(c, key, Delete(t, id), id + 1, pend - {id});
      PrunedTwice(t, Delete(t, id), Prune(t, id), {id}, pend - {id});
      assert {id} + (pend - {id}) == pend;
    } else {
      PruneNext(t, id);
      PruneInv(c, key, t, id + 1, pend);
    }
  }

  lemma PruneNone(t: Tables, id: int, pend: set<int>)
    requires Indexed(t) && id >= t.idCount && forall x :: x in pend ==> id <= x < t.idCount
    ensures pend == {} && Prune(t, id) == t && PrunedOf(t, t, {})
  {
    forall x ensures x !in pend {}
    hide Indexed;
  }

  lemma PruneThis(t: Tables, id: int)
    requires Indexed(t) && id < t.idCount && id in t.info && !t.info[id].fInTried && t.info[id].nRefCount == 0
    ensures 0 <= t.info[id].nRandomPos < |t.random| && t.random[t.info[id].nRandomPos] == id
    ensures t.random[|t.random| - 1] in t.info && Indexed(Delete(t, id)) && Prune(t, id) == Prune(Delete(t, id), id + 1)
  {
    DeleteIndexed(t, id);
    assert t.random[|t.random| - 1] in t.info;
    hide Delete, Indexed;
  }

  lemma PruneNext(t: Tables, id: int)
    requires Indexed(t) && id < t.idCount && (id in t.info ==> t.info[id].fInTried || t.info[id].nRefCount != 0)
    ensures Prune(t, id) == Prune(t, id + 1)
  {
    hide Indexed, Delete;
  }

  lemma PendingIs(c: Config, key: int, t: Tables, pend: set<int>)
    requires InvPend(c, key, t, pend)
    ensures Indexed(t)
    ensures forall id :: id in t.info ==> (id in pend <==> !t.info[id].fInTried && t.info[id].nRefCount == 0)
    ensures forall id :: id in pend ==> id in t.info
  {
    hide Indexed, HostInverse, TriedExact, NewPlaced, Counters;
  }

  // ------------------------------------------------------------ the theorem

  /** The entry is there, with what was saved of it. */
  predicate Kept(u: Tables, s: Saved, tried: bool) {
    s.service.host in u.byHost && IsSaved(u, u.byHost[s.service.host], s, tried)
  }

  ghost predicate NewRebuilt(c: Config, disk: Disk, u: Tables) {
    forall k :: 0 <= k < |disk.newInfos| ==> NewRebuiltAt(c, disk, u, k)
  }

  ghost predicate NewRebuiltAt(c: Config, disk: Disk, u: Tables, k: nat)
    requires k < |disk.newInfos|
  {
    if Collides(c, disk, k) then disk.newInfos[k].service.host !in u.byHost else Kept(u, disk.newInfos[k], false)
  }

  ghost predicate TriedRebuilt(c: Config, disk: Disk, u: Tables) {
    forall j :: 0 <= j < |disk.triedInfos| ==> TriedRebuiltAt(c, disk, u, j)
  }

  ghost predicate TriedRebuiltAt(c: Config, disk: Disk, u: Tables, j: nat)
    requires j < |disk.triedInfos|
  {
    if TriedCollides(c, disk, j) then disk.triedInfos[j].service.host !in u.byHost
      else Kept(u, disk.triedInfos[j], true)
  }

  /** A file whose buckets cannot be used, because of its version or of another number of buckets, is
      read into consistent tables. Lost are exactly the new entries whose slot for their own source,
      and the tried entries whose slot, an earlier one goes to. */
  lemma RebuildIsSound(c: Config, disk: Disk)
    requires c.Valid() && Fine(disk) && !SameLayout(c, disk)
    ensures
      var u := LoadAll(c, disk);
      Inv(c, disk.key, u) && NewRebuilt(c, disk, u) && TriedRebuilt(c, disk, u)
  {
    hide *;
    var lost, m := Lost(c, disk, |disk.newInfos|), |disk.triedInfos|;
    var t := TriedRead(c, disk, m);
    TriedReadInv(c, disk, m);
    LostBelow(c, disk, |disk.newInfos|);
    CounterAbove(c, disk, m, t);
    AllIs(c, disk);
    var u := LoadAll(c, disk);
    PruneInv(c, disk.key, t, 0, lost);
    InvHosts(c, disk.key, t, lost);
    InvHosts(c, disk.key, u, {});
    PrunedStats(c, disk, t, u, lost);
    R.InvIs(c, disk.key, u);
    AllNewRebuilt(c, disk, t, u);
    AllTriedRebuilt(c, disk, t, u, lost);
  }

  lemma AllNewRebuilt(c: Config, disk: Disk, t: Tables, u: Tables)
    requires TriedFacts(c, disk, |disk.triedInfos|, t) && HostInverse(t) && HostInverse(u)
    requires PrunedOf(t, u, Lost(c, disk, |disk.newInfos|))
    ensures NewRebuilt(c, disk, u)
  {
    hide TriedFacts, HostInverse, PrunedOf, Collides, Kept;
    forall k | 0 <= k < |disk.newInfos| ensures NewRebuiltAt(c, disk, u, k) { NewKept(c, disk, t, u, k); }
  }

  lemma AllTriedRebuilt(c: Config, disk: Disk, t: Tables, u: Tables, lost: set<int>)
    requires Fine(disk) && TriedFacts(c, disk, |disk.triedInfos|, t) && HostInverse(t) && HostInverse(u)
    requires PrunedOf(t, u, lost) && forall id :: id in lost ==> id in t.info && !t.info[id].fInTried
    ensures TriedRebuilt(c, disk, u)
  {
    hide Fine, TriedFacts, HostInverse, PrunedOf, TriedCollides, Kept, HostRead;
    forall j | 0 <= j < |disk.triedInfos| ensures TriedRebuiltAt(c, disk, u, j) {
      if TriedCollides(c, disk, j) { TriedHostLost(c, disk, j); }
      TriedKept(c, disk, t, u, lost, j);
    }
  }

  lemma InvHosts(c: Config, key: int, t: Tables, pend: set<int>)
    requires InvPend(c, key, t, pend)
    ensures HostInverse(t) && (forall id :: id in pend ==> id in t.info && !t.info[id].fInTried)
    ensures forall id :: id in t.info ==> id >= 0
  {
    hide Indexed, TriedExact, NewPlaced, Counters;
  }

  lemma AllIs(c: Config, disk: Disk)
    requires Fine(disk) && !SameLayout(c, disk)
    ensures Indexed(TriedRead(c, disk, |disk.triedInfos|))
    ensures LoadAll(c, disk) == Prune(TriedRead(c, disk, |disk.triedInfos|), 0)
  {
    var t := LoadTried(c, disk, |disk.triedInfos|);
    NewCountKept(c, disk, |disk.triedInfos|);
    assert t == TriedRead(c, disk, |disk.triedInfos|);
    NoBuckets(c, disk, t, |disk.buckets|);
    hide LoadTried, LoadBuckets, Prune, Indexed;
  }

  lemma {:induction false} NewCountKept(c: Config, disk: Disk, m: nat)
    requires m <= |disk.triedInfos|
    ensures LoadTried(c, disk, m).nNew == disk.nNew
  {
    hide TriedSlot, Indexed, LoadNew;
    if m > 0 { NewCountKept(c, disk, m - 1); } else { CountersKept(c, disk, |disk.newInfos|); }
  }

  lemma PrunedStats(c: Config, disk: Disk, t: Tables, u: Tables, lost: set<int>)
    requires Fine(disk) && TriedFacts(c, disk, |disk.triedInfos|, t) && PrunedOf(t, u, lost)
    requires forall id :: id in t.info ==> id >= 0
    ensures Stats(u)
  {
    hide NewRead, HostRead, TriedHeld, TriedSlotOf;
    forall id | id in u.info ensures GoodStats(u.info[id]) {
      assert O.Untouched(t, u, id);
      if id < |disk.newInfos| {
        assert IsSaved(t, id, disk.newInfos[id], false);
      } else {
        var j :| 0 <= j < |disk.triedInfos| && IsSaved(t, id, disk.triedInfos[j], true);
      }
    }
  }

  lemma NewKept(c: Config, disk: Disk, t: Tables, u: Tables, k: nat)
    requires k < |disk.newInfos| && TriedFacts(c, disk, |disk.triedInfos|, t) && HostInverse(t) && HostInverse(u)
    requires PrunedOf(t, u, Lost(c, disk, |disk.newInfos|))
    ensures if Collides(c, disk, k) then disk.newInfos[k].service.host !in u.byHost
      else Kept(u, disk.newInfos[k], false)
  {
    hide NewRead, HostRead, TriedHeld, OnlySaved, TriedSlotOf, Collides;
    assert IsSaved(t, k, disk.newInfos[k], false);
    var h := disk.newInfos[k].service.host;
    assert t.info[k].service.host == h && t.byHost[h] == k;
    assert k as int in Lost(c, disk, |disk.newInfos|) <==> Collides(c, disk, k);
    StayedHost(t, u, Lost(c, disk, |disk.newInfos|), k);
  }

  /** An entry keeps its host if it stays, and nobody else has it if it is lost. */
  lemma StayedHost(t: Tables, u: Tables, lost: set<int>, id: int)
    requires HostInverse(t) && HostInverse(u) && PrunedOf(t, u, lost) && id in t.info
    ensures
      var h := t.info[id].service.host;
      if id in lost then h !in u.byHost
      else
        h in u.byHost && u.byHost[h] == id && id in u.info
        && u.info[id] == t.info[id].(nRandomPos := u.info[id].nRandomPos)
  {
    var h := t.info[id].service.host;
    if h in u.byHost { assert O.Untouched(t, u, u.byHost[h]); }
    if id !in lost { assert O.Untouched(t, u, id); }
  }

  lemma TriedHostLost(c: Config, disk: Disk, j: nat)
    requires Fine(disk) && j < |disk.triedInfos| && TriedCollides(c, disk, j)
    ensures !HostRead(c, disk, |disk.triedInfos|, disk.triedInfos[j].service.host)
  {
    var n := |disk.newInfos|;
    assert Entries(disk)[n + j] == disk.triedInfos[j];
    forall i | 0 <= i < n ensures disk.newInfos[i].service.host != disk.triedInfos[j].service.host {
      assert Entries(disk)[i] == disk.newInfos[i];
    }
    forall i | 0 <= i < |disk.triedInfos| && i != j
      ensures disk.triedInfos[i].service.host != disk.triedInfos[j].service.host
    {
      assert Entries(disk)[n + i] == disk.triedInfos[i];
    }
    hide TriedCollides;
  }

  lemma TriedKept(c: Config, disk: Disk, t: Tables, u: Tables, lost: set<int>, j: nat)
    requires j < |disk.triedInfos| && TriedFacts(c, disk, |disk.triedInfos|, t) && HostInverse(t) && HostInverse(u)
    requires PrunedOf(t, u, lost) && forall id :: id in lost ==> id in t.info && !t.info[id].fInTried
    requires TriedCollides(c, disk, j) ==> !HostRead(c, disk, |disk.triedInfos|, disk.triedInfos[j].service.host)
    ensures if TriedCollides(c, disk, j) then disk.triedInfos[j].service.host !in u.byHost
      else Kept(u, disk.triedInfos[j], true)
  {
    hide NewRead, HostRead, NewHeld, OnlySaved, TriedSlotOf, TriedCollides;
    var h := disk.triedInfos[j].service.host;
    if TriedCollides(c, disk, j) {
      forall x | x in u.info ensures u.info[x].service.host in t.byHost { assert O.Untouched(t, u, x); }
    } else {
      var slot := TriedSlotOf(c, disk, j);
      assert HoldsSaved(t, slot, disk.triedInfos[j]);
      StayedHost(t, u, lost, t.triedSlots[slot]);
    }
  }

  /** So what a consistent manager has written for another number of buckets can be read. */
  lemma OtherLayout(from: Config, c: Config, key: int, t: Tables)
    requires from.Valid() && c.Valid() && Inv(from, key, t) && from.newBuckets != c.newBuckets
    ensures Fine(DiskOf(from, key, t)) && !SameLayout(c, DiskOf(from, key, t))
    ensures Inv(c, key, LoadAll(c, DiskOf(from, key, t)))
  {
    WrittenIsFine(from, key, t);
    FlipTwice(from.newBuckets);
    WrittenKey(from, key, t);
    hide *;
    RebuildIsSound(c, DiskOf(from, key, t));
  }

  lemma WrittenKey(c: Config, key: int, t: Tables)
    requires c.Valid()
    ensures DiskOf(c, key, t).key == key && DiskOf(c, key, t).uBuckets == Flip30(c.newBuckets)
    ensures DiskOf(c, key, t).version == 1
  {
  }

  lemma WrittenIsFine(c: Config, key: int, t: Tables)
    requires c.Valid() && Inv(c, key, t)
    ensures Fine(DiskOf(c, key, t))
  {
    hide *;
    R.OldIdsListed(c, key, t);
    R.CountsAreLengths(c, key, t);
    R.InvParts(c, key, t);
    WrittenEntries(c, key, t);
    ListedIsFine(t, DiskOf(c, key, t), R.OldIds(t));
  }

  lemma StatsAt(t: Tables, id: int)
    requires Stats(t) && id in t.info
    ensures GoodStats(t.info[id])
  {
  }

  lemma ListedIsFine(t: Tables, disk: Disk, ids: seq<int>)
    requires R.Listed(t, ids, |disk.newInfos|) && |Entries(disk)| == |ids| && HostInverse(t) && Stats(t)
    requires disk.nNew == |disk.newInfos| && disk.nTried == |disk.triedInfos|
    requires forall i :: 0 <= i < |ids| ==> ids[i] in t.info && Entries(disk)[i] == Save(t.info[ids[i]])
    ensures Fine(disk)
  {
    var n := |disk.newInfos|;
    forall i, j | 0 <= i < j < |ids| ensures Entries(disk)[i].service.host != Entries(disk)[j].service.host {
      assert ids[i] != ids[j];
      assert t.byHost[t.info[ids[i]].service.host] == ids[i] && t.byHost[t.info[ids[j]].service.host] == ids[j];
    }
    forall i | 0 <= i < |ids| ensures GoodStats(t.info[ids[i]]) { StatsAt(t, ids[i]); }
    forall i | 0 <= i < n ensures disk.newInfos[i].nLastSuccess >= 0 { assert Entries(disk)[i] == disk.newInfos[i]; }
    forall i | 0 <= i < |disk.triedInfos| ensures disk.triedInfos[i].nLastSuccess > 0 {
      assert Entries(disk)[n + i] == disk.triedInfos[i];
      assert t.info[ids[n + i]].fInTried;
    }
  }

  lemma WrittenEntries(c: Config, key: int, t: Tables)
    requires c.Valid()
    ensures
      var disk, ids := DiskOf(c, key, t), R.OldIds(t);
      && disk.nNew == t.nNew && disk.nTried == t.nTried
      && |disk.newInfos| == |NewList(t, t.idCount)| && |disk.triedInfos| == |TriedList(t, t.idCount)|
      && |Entries(disk)| == |ids|
      && forall i :: 0 <= i < |ids| ==> ids[i] in t.info && Entries(disk)[i] == Save(t.info[ids[i]])
  {
    ListsKnown(t, t.idCount);
    hide NewList, TriedList;
  }

  // ------------------------------------------------------------ a host named twice

  /** Two new entries for the same host, of which the first is in a bucket. */
  function TwiceFile(c: Config, key: int, s: Saved): Disk
    requires c.Valid()
  {
    Disk(1, 32, key, 2, 0, Flip30(c.newBuckets), [s, s], [],
         seq(c.newBuckets, b requires 0 <= b < c.newBuckets => TwiceBucket(b)))
  }

  function TwiceBucket(b: int): seq<int> { if b == 0 then [0] else [] }

  /** Both entries read, the index naming the second. */
  ghost function TwiceNew(s: Saved): Tables {
    EMPTY.(idCount := 2, info := map[0 := Load(s, 0), 1 := Load(s, 1)], byHost := map[s.service.host := 1],
           random := [0, 1], nNew := 2)
  }

  ghost function TwiceSlot(c: Config, key: int, s: Saved): Slot { (0, c.position(key, true, 0, s.service)) }

  lemma TwiceRead(c: Config, key: int, s: Saved)
    requires c.Valid()
    ensures SameLayout(c, TwiceFile(c, key, s)) && LoadTried(c, TwiceFile(c, key, s), 0) == TwiceNew(s)
  {
    var disk := TwiceFile(c, key, s);
    FlipTwice(c.newBuckets);
    hide Flip30, NewSlot, Indexed;
    assert LoadNew(c, disk, 1) ==
           EMPTY.(info := map[0 := Load(s, 0)], byHost := map[s.service.host := 0], random := [0], nNew := 2);
    var t := LoadNew(c, disk, 2);
    assert t.random == [0, 1] && t.byHost == map[s.service.host := 1];
    assert t.info == map[0 := Load(s, 0), 1 := Load(s, 1)];
  }

  lemma {:induction false} TwiceBuckets(c: Config, key: int, s: Saved, n: nat)
    requires c.Valid() && 0 < n <= c.newBuckets
    ensures Indexed(TwiceNew(s)) && |TwiceFile(c, key, s).buckets| == c.newBuckets
    ensures forall k :: 0 <= k < |TwiceFile(c, key, s).newInfos| ==> k in TwiceNew(s).info
    ensures LoadBuckets(c, TwiceFile(c, key, s), TwiceNew(s), n) == AddRef(TwiceNew(s), 0, TwiceSlot(c, key, s))
  {
    var disk, t := TwiceFile(c, key, s), TwiceNew(s);
    TwiceRead(c, key, s);
    assert disk.buckets[n - 1] == TwiceBucket(n - 1);
    hide Indexed, SameLayout, AddRef;
    if n == 1 {
      assert LoadBuckets(c, disk, t, 0) == t;
      assert LoadBucket(c, disk, t, 0, [0], 0) == t;
      TwiceRef(c, key, s);
      assert LoadBucket(c, disk, t, 0, [0], 1) == LoadRef(c, disk, t, 0, 0);
    } else {
      TwiceBuckets(c, key, s, n - 1);
    }
  }

  lemma TwiceRef(c: Config, key: int, s: Saved)
    requires c.Valid() && SameLayout(c, TwiceFile(c, key, s)) && Indexed(TwiceNew(s))
    ensures LoadRef(c, TwiceFile(c, key, s), TwiceNew(s), 0, 0) == AddRef(TwiceNew(s), 0, TwiceSlot(c, key, s))
  {
    hide SameLayout, Indexed;
  }

  /** What the file is read into: the second entry is pruned, and its host with it. */
  ghost function TwiceTables(c: Config, key: int, s: Saved): Tables {
    Tables(2, map[0 := Load(s, 0).(nRefCount := 1)], map[], [0], 0, 1, map[], map[TwiceSlot(c, key, s) := 0])
  }

  lemma TwiceIs(c: Config, key: int, s: Saved)
    requires c.Valid()
    ensures LoadAll(c, TwiceFile(c, key, s)) == TwiceTables(c, key, s)
  {
    var disk := TwiceFile(c, key, s);
    TwiceRead(c, key, s);
    TwiceBuckets(c, key, s, c.newBuckets);
    var t := AddRef(TwiceNew(s), 0, TwiceSlot(c, key, s));
    AddRefIndexed(TwiceNew(s), 0, TwiceSlot(c, key, s));
    assert LoadAll(c, disk) == Prune(t, 0) by { hide LoadBuckets, LoadTried, Prune, AddRef, TwiceNew, Indexed; }
    TwicePruned(c, key, s, t);
  }

  lemma TwicePruned(c: Config, key: int, s: Saved, t: Tables)
    requires Indexed(t) && t == AddRef(TwiceNew(s), 0, TwiceSlot(c, key, s))
    ensures Prune(t, 0) == TwiceTables(c, key, s)
  {
    PruneNext(t, 0);
    PruneThis(t, 1);
    var u := Delete(t, 1);
    assert u == TwiceTables(c, key, s);
    PruneNone(u, 2, {});
  }

  /** The check passes on what such a file is read into, although the only host is not indexed. */
  lemma CheckMissesHost(c: Config, key: int, s: Saved)
    requires c.Valid() && key != 0 && s.nLastSuccess >= 0
    ensures
      var t := LoadAll(c, TwiceFile(c, key, s));
      C.CheckOk(c, key, t) && 0 in t.info && t.info[0].service.host !in t.byHost && !Inv(c, key, t)
  {
    TwiceIs(c, key, s);
    var t := TwiceTables(c, key, s);
    TwicePasses(c, key, s);
    assert 0 in t.info && t.info[0].service.host !in t.byHost;
    hide TwiceTables, LoadAll, TwiceFile;
    assert Inv(c, key, t) ==> HostInverse(t);
  }

  lemma TwicePasses(c: Config, key: int, s: Saved)
    requires c.Valid() && key != 0 && s.nLastSuccess >= 0
    ensures C.CheckOk(c, key, TwiceTables(c, key, s))
  {
    var t, slot := TwiceTables(c, key, s), TwiceSlot(c, key, s);
    assert C.EntryOk(c, t, 0);
    assert TriedIds(t) == {} && NewIds(t) == {0};
    forall x ensures x in Refs(t, 0) <==> x == slot { InRefs(t, 0, x); }
    assert Refs(t, 0) == {slot};
  }

  // ------------------------------------------------------------ a used object

  lemma NoOrder(t: Tables)
    requires Indexed(t) && t.random == []
    ensures t.info == map[]
  {
    forall id ensures id !in t.info {}
  }

  lemma NoEntries(t: Tables)
    requires HostInverse(t) && t.info == map[]
    ensures t.byHost == map[]
  {
    forall h ensures h !in t.byHost {}
  }

  /** A cleared object is consistent if and only if it had neither entries nor hosts. */
  lemma ClearedInv(c: Config, key: int, t: Tables)
    ensures Inv(c, key, Cleared(t)) <==> t.info == map[] && t.byHost == map[]
  {
    var u := Cleared(t);
    if Inv(c, key, u) {
      NoOrder(u);
      NoEntries(u);
    } else if t.info == map[] && t.byHost == map[] {
      assert u == EMPTY;
      EmptyInv(c, key);
    }
  }

  /** Reading a file without entries into a used object, which clears it first and then prunes what
      has no reference: nothing is pruned, so entries that were there stay, and are not consistent. */
  lemma EmptyFileIntoUsed(c: Config, key: int, key1: int, t: Tables)
    requires Inv(c, key, t)
    ensures forall id :: id in Cleared(t).info ==> Cleared(t).info[id].fInTried || Cleared(t).info[id].nRefCount != 0
    ensures Inv(c, key1, Cleared(t)) <==> t.info == map[]
  {
    ClearedInv(c, key1, t);
    R.InvParts(c, key, t);
    hide Inv, Indexed, TriedExact, NewPlaced, Counters, Stats;
    if t.info == map[] { NoEntries(t); }
  }
}
