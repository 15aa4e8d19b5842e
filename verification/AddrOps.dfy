/**
 What the public operations of the address manager do to its tables, and that they keep
 the tables consistent over every run.
 */
module AddrOps {
  import opened AddrTables
  import opened AddrInvariant

  /** What an entry knows about its address; its place in the tables is left out. */
  function Record(i: Info): Info { i.(nRefCount := 0, fInTried := false, nRandomPos := 0) }

  /** Entry x is as before, up to its place in the random order. */
  ghost predicate Untouched(t: Tables, u: Tables, x: int) {
    x in t.info && x in u.info && u.info[x] == t.info[x].(nRandomPos := u.info[x].nRandomPos)
  }

  lemma DeleteEffect(t: Tables, id: int)
    requires Indexed(t) && id in t.info
    ensures Delete(t, id).info.Keys == t.info.Keys - {id}
    ensures forall x :: x in t.info && x != id ==> Untouched(t, Delete(t, id), x)
    ensures Delete(t, id).triedSlots == t.triedSlots && Delete(t, id).newSlots == t.newSlots
    ensures Delete(t, id).idCount == t.idCount && Delete(t, id).nTried == t.nTried
  {
    var last := |t.random| - 1;
    SwapRandomMoves(t, t.info[id].nRandomPos, last);
    var s := SwapRandom(t, t.info[id].nRandomPos, last);
    var u := Delete(t, id);
    forall x | x in t.info && x != id ensures Untouched(t, u, x) {
      assert x in s.info && u.info[x] == s.info[x];
    }
  }

  lemma ClearNewEffect(t: Tables, slot: Slot)
    requires Indexed(t) && (slot in t.newSlots ==> t.newSlots[slot] in t.info)
    ensures var u := ClearNew(t, slot);
            && (forall x :: x in t.info && (slot in t.newSlots ==> x != t.newSlots[slot]) ==> Untouched(t, u, x))
            && (forall x :: x in u.info ==>
                  && x in t.info
                  && Record(u.info[x]) == Record(t.info[x])
                  && u.info[x].fInTried == t.info[x].fInTried)
            && u.newSlots == t.newSlots - {slot}
            && u.triedSlots == t.triedSlots && u.nTried == t.nTried && u.idCount == t.idCount
  {
    if slot in t.newSlots {
      var id := t.newSlots[slot];
      var d := DropRef(t, slot);
      assert Indexed(d) by { DropRefIndexed(t, slot); }
      if d.info[id].nRefCount == 0 {
        DeleteEffect(d, id);
        var u := Delete(d, id);
        forall x | x in t.info && x != id ensures Untouched(t, u, x) {
          assert Untouched(d, u, x);
        }
        forall x | x in u.info
          ensures x in t.info && Record(u.info[x]) == Record(t.info[x]) && u.info[x].fInTried == t.info[x].fInTried {
          assert x in d.info && x != id && Untouched(t, u, x);
        }
      }
    }
  }

  lemma DropRefIndexed(t: Tables, slot: Slot)
    requires Indexed(t) && slot in t.newSlots && t.newSlots[slot] in t.info
    ensures Indexed(DropRef(t, slot))
  {
    SamePositions(t, DropRef(t, slot));
  }

  lemma SamePositions(t: Tables, u: Tables)
    requires Indexed(t) && u.random == t.random && u.info.Keys == t.info.Keys
    requires forall id :: id in t.info ==> u.info[id].nRandomPos == t.info[id].nRandomPos
    ensures Indexed(u)
  {
    forall i | 0 <= i < |u.random| ensures u.random[i] in u.info && u.info[u.random[i]].nRandomPos == i {
      var id := t.random[i];
      assert id in t.info;
    }
  }

  /** The part of consistency that the operations need to be defined: the random order is
      indexed and every id in a table has an entry. */
  ghost predicate Sound(t: Tables) {
    && Indexed(t)
    && (forall s :: s in t.newSlots ==> t.newSlots[s] in t.info)
    && (forall s :: s in t.triedSlots ==> t.triedSlots[s] in t.info)
  }

  lemma InvIsSound(c: Config, key: int, t: Tables, pend: set<int>)
    requires InvPend(c, key, t, pend)
    ensures Sound(t)
  {
  }

  // ------------------------------------------------------------ moving to tried

  /** The new-table slot that the holder of a tried slot goes back to. */
  function BackSlot(c: Config, key: int, t: Tables, slot: Slot): Slot
    requires slot in t.triedSlots && t.triedSlots[slot] in t.info
  {
    var e := t.triedSlots[slot];
    NewSlot(c, key, t.info[e].service, t.info[e].source)
  }

  /** Move the holder of a tried slot back to the new table, at the place its own source
      address gives, dropping the reference that was there. */
  function Evict(c: Config, key: int, t: Tables, slot: Slot): Tables
    requires Sound(t) && slot in t.triedSlots
    requires forall s :: s in t.newSlots ==> t.newSlots[s] != t.triedSlots[slot]
  {
    var back := BackSlot(c, key, t, slot);
    SamePositions(t, Demote(t, slot));
    ClearNewEffect(Demote(t, slot), back);
    assert Untouched(Demote(t, slot), ClearNew(Demote(t, slot), back), t.triedSlots[slot]);
    AddRef(ClearNew(Demote(t, slot), back), t.triedSlots[slot], back)
  }

  lemma EvictInv(c: Config, key: int, t: Tables, slot: Slot, pend: set<int>)
    requires c.Valid() && InvPend(c, key, t, pend) && slot in t.triedSlots
    ensures Sound(t) && forall s :: s in t.newSlots ==> t.newSlots[s] != t.triedSlots[slot]
    ensures InvPend(c, key, Evict(c, key, t, slot), pend)
  {
    hide *;
    InvIsSound(c, key, t, pend);
    TriedHasNoRef(c, key, t, slot, pend);
    var e, back := TriedEntry(c, key, t, slot, pend);
    var d := Demote(t, slot);
    DemoteInv(c, key, t, slot, pend);
    DemotedSound(t, slot);
    ClearNewInv(c, key, d, back, pend + {e});
    BackFits(c, key, t, slot, e, back);
    AddRefInv(c, key, ClearNew(d, back), e, back, pend + {e});
    EvictIs(c, key, t, slot);
    assert pend + {e} - {e} == pend;
  }

  lemma TriedEntry(c: Config, key: int, t: Tables, slot: Slot, pend: set<int>) returns (e: int, back: Slot)
    requires InvPend(c, key, t, pend) && slot in t.triedSlots
    ensures e == t.triedSlots[slot] && e in t.info && t.info[e].fInTried && t.info[e].nRefCount == 0 && e !in pend
    ensures back == BackSlot(c, key, t, slot)
  {
    hide Indexed, HostInverse, NewPlaced, Counters, TriedSlot, Refs;
    e := t.triedSlots[slot];
    back := BackSlot(c, key, t, slot);
  }

  lemma DemotedSound(t: Tables, slot: Slot)
    requires Sound(t) && slot in t.triedSlots
    ensures Indexed(Demote(t, slot))
    ensures forall s :: s in Demote(t, slot).newSlots ==> Demote(t, slot).newSlots[s] in Demote(t, slot).info
  {
    SamePositions(t, Demote(t, slot));
  }

  lemma BackFits(c: Config, key: int, t: Tables, slot: Slot, e: int, back: Slot)
    requires c.Valid() && Sound(t) && slot in t.triedSlots
    requires forall s :: s in t.newSlots ==> t.newSlots[s] != t.triedSlots[slot]
    requires e == t.triedSlots[slot] && e in t.info && t.info[e].nRefCount == 0 && back == BackSlot(c, key, t, slot)
    ensures
      var d := Demote(t, slot);
      && Indexed(d) && (back in d.newSlots ==> d.newSlots[back] in d.info)
      && var w := ClearNew(d, back);
      && e in w.info && !w.info[e].fInTried && w.info[e].nRefCount < c.newPerAddress
      && back !in w.newSlots && 0 <= back.0 < c.newBuckets && back.1 == c.position(key, true, back.0, w.info[e].service)
  {
    DemotedSound(t, slot);
    var d := Demote(t, slot);
    ClearNewEffect(d, back);
    hide ClearNew, Indexed;
    assert Untouched(d, ClearNew(d, back), e);
  }

  lemma EvictIs(c: Config, key: int, t: Tables, slot: Slot)
    requires Sound(t) && slot in t.triedSlots && forall s :: s in t.newSlots ==> t.newSlots[s] != t.triedSlots[slot]
    requires Indexed(Demote(t, slot))
    requires
      var d, back := Demote(t, slot), BackSlot(c, key, t, slot);
      (back in d.newSlots ==> d.newSlots[back] in d.info) && t.triedSlots[slot] in ClearNew(d, back).info
    ensures Evict(c, key, t, slot) ==
      AddRef(ClearNew(Demote(t, slot), BackSlot(c, key, t, slot)), t.triedSlots[slot], BackSlot(c, key, t, slot))
  {
    hide ClearNew, Indexed, AddRef;
  }

  lemma TriedHasNoRef(c: Config, key: int, t: Tables, slot: Slot, pend: set<int>)
    requires InvPend(c, key, t, pend) && slot in t.triedSlots
    ensures forall s :: s in t.newSlots ==> t.newSlots[s] != t.triedSlots[slot]
  {
    hide Indexed, HostInverse, NewPlaced, Counters, TriedSlot, Refs;
    var e := t.triedSlots[slot];
    assert |Refs(t, e)| == 0;
    forall s | s in t.newSlots ensures t.newSlots[s] != e { InRefs(t, e, s); }
  }

  lemma EvictEffect(c: Config, key: int, t: Tables, slot: Slot)
    requires Sound(t) && slot in t.triedSlots
    requires forall s :: s in t.newSlots ==> t.newSlots[s] != t.triedSlots[slot]
    ensures
      var u := Evict(c, key, t, slot);
      var e := t.triedSlots[slot];
      && e in u.info && !u.info[e].fInTried && u.info[e].nRefCount == t.info[e].nRefCount + 1
      && u.newSlots == t.newSlots[BackSlot(c, key, t, slot) := e]
      && u.triedSlots == t.triedSlots - {slot}
  {
    var e := t.triedSlots[slot];
    var back := BackSlot(c, key, t, slot);
    var d := Demote(t, slot);
    DemotedSound(t, slot);
    ClearNewEffect(d, back);
    hide ClearNew, Indexed, BackSlot;
    assert Untouched(d, ClearNew(d, back), e);
  }

  lemma EvictRecord(c: Config, key: int, t: Tables, slot: Slot, x: int)
    requires Sound(t) && slot in t.triedSlots
    requires forall s :: s in t.newSlots ==> t.newSlots[s] != t.triedSlots[slot]
    requires x in Evict(c, key, t, slot).info
    ensures
      var u := Evict(c, key, t, slot);
      x in t.info && Record(u.info[x]) == Record(t.info[x]) && (u.info[x].fInTried ==> t.info[x].fInTried)
  {
    var d := Demote(t, slot);
    SamePositions(t, d);
    var v := ClearNew(d, BackSlot(c, key, t, slot));
    ClearNewEffect(d, BackSlot(c, key, t, slot));
    assert x in v.info;
    assert x in d.info;
  }

  lemma EvictUntouched(c: Config, key: int, t: Tables, slot: Slot, x: int)
    requires Sound(t) && slot in t.triedSlots
    requires forall s :: s in t.newSlots ==> t.newSlots[s] != t.triedSlots[slot]
    requires x in t.info && x != t.triedSlots[slot]
    requires var back := BackSlot(c, key, t, slot); back in t.newSlots ==> x != t.newSlots[back]
    ensures Untouched(t, Evict(c, key, t, slot), x)
  {
    var d := Demote(t, slot);
    SamePositions(t, d);
    ClearNewEffect(d, BackSlot(c, key, t, slot));
    assert x in d.info && Untouched(d, ClearNew(d, BackSlot(c, key, t, slot)), x);
  }

  /** What making room for an entry in the tried table needs of the tables. */
  ghost predicate RoomReady(c: Config, key: int, t: Tables, id: int) {
    && id in t.info
    && Sound(Unref(t, id))
    && var slot := TriedSlot(c, key, t.info[id].service);
       slot in t.triedSlots ==>
         && t.triedSlots[slot] != id
         && forall s :: s in Unref(t, id).newSlots ==> Unref(t, id).newSlots[s] != t.triedSlots[slot]
  }

  lemma InvRoomReady(c: Config, key: int, t: Tables, id: int)
    requires InvPend(c, key, t, {}) && id in t.info && !t.info[id].fInTried
    ensures RoomReady(c, key, t, id)
  {
    UnrefInv(c, key, t, id, {});
    InvIsSound(c, key, Unref(t, id), {id});
    var slot := TriedSlot(c, key, t.info[id].service);
    if slot in t.triedSlots {
      assert t.info[t.triedSlots[slot]].fInTried;
      TriedHasNoRef(c, key, Unref(t, id), slot, {id});
    }
  }

  /** The state in which an entry has left the new table and its tried slot is free. */
  function MakeRoom(c: Config, key: int, t: Tables, id: int): Tables
    requires RoomReady(c, key, t, id)
  {
    var slot := TriedSlot(c, key, t.info[id].service);
    if slot in t.triedSlots then Evict(c, key, Unref(t, id), slot) else Unref(t, id)
  }

  /** Move an entry from the new table to the tried table. */
  function MakeTried(c: Config, key: int, t: Tables, id: int): Tables
    requires RoomReady(c, key, t, id)
  {
    MakeRoomEffect(c, key, t, id);
    Promote(MakeRoom(c, key, t, id), id, TriedSlot(c, key, t.info[id].service))
  }

  lemma MakeRoomInv(c: Config, key: int, t: Tables, id: int)
    requires c.Valid() && InvPend(c, key, t, {}) && id in t.info && !t.info[id].fInTried
    ensures RoomReady(c, key, t, id) && InvPend(c, key, MakeRoom(c, key, t, id), {id})
  {
    InvRoomReady(c, key, t, id);
    UnrefInv(c, key, t, id, {});
    var slot := TriedSlot(c, key, t.info[id].service);
    if slot in t.triedSlots {
      EvictInv(c, key, Unref(t, id), slot, {id});
    }
  }

  lemma MakeRoomEffect(c: Config, key: int, t: Tables, id: int)
    requires RoomReady(c, key, t, id)
    ensures
      var u := MakeRoom(c, key, t, id);
      && u.triedSlots == t.triedSlots - {TriedSlot(c, key, t.info[id].service)}
      && id in u.info && u.info[id] == t.info[id].(nRefCount := 0, nRandomPos := u.info[id].nRandomPos)
      && (forall x :: x in u.info ==> x in t.info && Record(u.info[x]) == Record(t.info[x]))
      && (forall x :: x in u.info && u.info[x].fInTried ==> t.info[x].fInTried)
  {
    var slot := TriedSlot(c, key, t.info[id].service);
    if slot in t.triedSlots {
      RoomByEviction(c, key, t, id, slot);
    }
  }

  lemma RoomByEviction(c: Config, key: int, t: Tables, id: int, slot: Slot)
    requires id in t.info && Sound(Unref(t, id)) && slot in t.triedSlots && t.triedSlots[slot] != id
    requires forall s :: s in Unref(t, id).newSlots ==> Unref(t, id).newSlots[s] != t.triedSlots[slot]
    ensures
      var u := Evict(c, key, Unref(t, id), slot);
      && u.triedSlots == t.triedSlots - {slot}
      && id in u.info && u.info[id] == t.info[id].(nRefCount := 0, nRandomPos := u.info[id].nRandomPos)
      && (forall x :: x in u.info ==> x in t.info && Record(u.info[x]) == Record(t.info[x]))
      && (forall x :: x in u.info && u.info[x].fInTried ==> t.info[x].fInTried)
  {
    var t1 := Unref(t, id);
    var u := Evict(c, key, t1, slot);
    EvictEffect(c, key, t1, slot);
    EvictUntouched(c, key, t1, slot, id);
    forall x | x in u.info
      ensures x in t.info && Record(u.info[x]) == Record(t.info[x]) && (u.info[x].fInTried ==> t.info[x].fInTried) {
      EvictRecord(c, key, t1, slot, x);
    }
  }

  lemma MakeTriedInv(c: Config, key: int, t: Tables, id: int)
    requires c.Valid() && InvPend(c, key, t, {}) && id in t.info && !t.info[id].fInTried
    ensures RoomReady(c, key, t, id) && InvPend(c, key, MakeTried(c, key, t, id), {})
  {
    MakeRoomInv(c, key, t, id);
    MakeRoomEffect(c, key, t, id);
    PromoteInv(c, key, MakeRoom(c, key, t, id), id, TriedSlot(c, key, t.info[id].service), {id});
    assert {id} - {id} == {};
  }

  // ------------------------------------------------------------ Good, Attempt, Connected

  /** The entry for a host exists and is for the same port. */
  predicate Known(t: Tables, s: Service) {
    s.host in t.byHost && t.byHost[s.host] in t.info && t.info[t.byHost[s.host]].service == s
  }

  function WithInfo(t: Tables, id: int, info: Info): Tables {
    t.(info := t.info[id := info])
  }

  function Succeeded(i: Info, nTime: int): Info {
    i.(nLastSuccess := nTime, nLastTry := nTime, nAttempts := 0)
  }

  function Good(c: Config, key: int, t: Tables, s: Service, nTime: int): Tables
    requires InvPend(c, key, t, {})
  {
    if !Known(t, s) then t
    else
      var id := t.byHost[s.host];
      var u := WithInfo(t, id, Succeeded(t.info[id], nTime));
      UpdateInv(c, key, t, id, Succeeded(t.info[id], nTime), {});
      if u.info[id].fInTried then u
      else
        InvRoomReady(c, key, u, id);
        MakeTried(c, key, u, id)
  }

  /** A confirmed address is in the tried table, in its own slot, without new-table
      references, and this is consistent exactly when the time given is positive. */
  lemma GoodInv(c: Config, key: int, t: Tables, s: Service, nTime: int)
    requires c.Valid() && Inv(c, key, t)
    ensures InvPend(c, key, Good(c, key, t, s, nTime), {})
    ensures Inv(c, key, Good(c, key, t, s, nTime)) <==> (Known(t, s) ==> nTime > 0)
  {
    var v := Good(c, key, t, s, nTime);
    if Known(t, s) {
      var id := t.byHost[s.host];
      var info := Succeeded(t.info[id], nTime);
      var u := WithInfo(t, id, info);
      UpdateInv(c, key, t, id, info, {});
      if !info.fInTried {
        MakeTriedInv(c, key, u, id);
        MakeTriedRecords(c, key, u, id);
      }
      assert v.info[id].nLastSuccess == nTime && v.info[id].fInTried;
      forall x | x in v.info && x != id ensures GoodStats(v.info[x]) {
        assert x in u.info && Record(v.info[x]) == Record(u.info[x]);
        assert GoodStats(t.info[x]);
      }
      if nTime <= 0 { assert !GoodStats(v.info[id]); }
    }
  }

  /** Tables u keep what tables t know about their addresses, and only id is newly tried. */
  ghost predicate KeepsRecords(t: Tables, u: Tables, id: int) {
    && (forall x :: x in u.info ==> x in t.info && Record(u.info[x]) == Record(t.info[x]))
    && (forall x :: x in u.info && u.info[x].fInTried && x != id ==> t.info[x].fInTried)
  }

  lemma MakeTriedRecords(c: Config, key: int, t: Tables, id: int)
    requires RoomReady(c, key, t, id)
    ensures
      var u := MakeTried(c, key, t, id);
      && id in u.info && u.info[id].fInTried && u.info[id].nRefCount == 0
      && u.triedSlots == t.triedSlots[TriedSlot(c, key, t.info[id].service) := id]
      && KeepsRecords(t, u, id)
  {
    MakeRoomEffect(c, key, t, id);
    PromoteRecords(t, MakeRoom(c, key, t, id), id, TriedSlot(c, key, t.info[id].service));
  }

  lemma PromoteRecords(t: Tables, r: Tables, id: int, slot: Slot)
    requires id in r.info && r.info[id].nRefCount == 0 && r.triedSlots == t.triedSlots - {slot}
    requires forall x :: x in r.info ==> x in t.info && Record(r.info[x]) == Record(t.info[x])
    requires forall x :: x in r.info && r.info[x].fInTried ==> t.info[x].fInTried
    ensures
      var u := Promote(r, id, slot);
      && id in u.info && u.info[id].fInTried && u.info[id].nRefCount == 0
      && u.triedSlots == t.triedSlots[slot := id]
      && KeepsRecords(t, u, id)
  {
    var u := Promote(r, id, slot);
    assert u.triedSlots == t.triedSlots[slot := id];
    forall x | x in u.info
      ensures x in t.info && Record(u.info[x]) == Record(t.info[x])
      ensures u.info[x].fInTried && x != id ==> t.info[x].fInTried {
      assert x in r.info;
    }
  }

  function Attempt(t: Tables, s: Service, nTime: int): Tables {
    if !Known(t, s) then t
    else
      var id := t.byHost[s.host];
      WithInfo(t, id, t.info[id].(nLastTry := nTime, nAttempts := t.info[id].nAttempts + 1))
  }

  lemma AttemptInv(c: Config, key: int, t: Tables, s: Service, nTime: int)
    requires Inv(c, key, t)
    ensures InvPend(c, key, Attempt(t, s, nTime), {})
    ensures Inv(c, key, Attempt(t, s, nTime)) <==> (Known(t, s) ==> nTime >= 0)
  {
    var u := Attempt(t, s, nTime);
    if Known(t, s) {
      var id := t.byHost[s.host];
      UpdateInv(c, key, t, id, u.info[id], {});
      assert GoodStats(t.info[id]);
      forall x | x in u.info && x != id ensures GoodStats(u.info[x]) { assert GoodStats(t.info[x]); }
      assert GoodStats(u.info[id]) <==> nTime >= 0;
    }
  }

  const CONNECTED_INTERVAL := 20 * 60

  function Connected(t: Tables, s: Service, nTime: int): Tables {
    if !Known(t, s) then t
    else
      var id := t.byHost[s.host];
      if nTime - t.info[id].nTime > CONNECTED_INTERVAL
      then WithInfo(t, id, t.info[id].(nTime := U32(nTime)))
      else t
  }

  lemma ConnectedInv(c: Config, key: int, t: Tables, s: Service, nTime: int)
    requires Inv(c, key, t)
    ensures Inv(c, key, Connected(t, s, nTime))
  {
    hide Indexed, HostInverse, NewPlaced, RefCounts, TriedExact, Counters, U32;
    var u := Connected(t, s, nTime);
    if Known(t, s) {
      var id := t.byHost[s.host];
      UpdateInv(c, key, t, id, u.info[id], {});
      forall x | x in u.info ensures GoodStats(u.info[x]) { assert GoodStats(t.info[x]); }
    }
  }

  // ------------------------------------------------------------ Add

  /** How an entry already present takes note of an announcement. */
  function Seen(i: Info, addr: Address, now: int, penalty: int): Info {
    var interval := if now - addr.nTime < DAY then 60 * 60 else DAY;
    var newer := addr.nTime != 0 && (i.nTime == 0 || i.nTime < addr.nTime - interval - penalty);
    i.(nTime := if newer then U32(Max0(addr.nTime - penalty)) else i.nTime,
       nServices := i.nServices | addr.nServices)
  }

  /** Whether an announcement of a known address gives it no further reference. */
  predicate Declined(c: Config, i: Info, addr: Address, draw: nat) {
    || addr.nTime == 0 || (i.nTime != 0 && addr.nTime <= i.nTime)
    || i.fInTried
    || i.nRefCount == c.newPerAddress
    || (i.nRefCount > 0 && draw % PowPos(i.nRefCount) != 0)
  }

  function PowPos(n: int): (r: int)
    ensures r > 0
  {
    if n <= 0 then 1 else 2 * PowPos(n - 1)
  }

  /** Whether a reference for entry id may go into a slot. */
  predicate MayPlace(t: Tables, id: int, slot: Slot, now: int)
    requires Sound(t) && id in t.info
  {
    slot in t.newSlots ==>
      var x := t.info[t.newSlots[slot]];
      IsTerrible(x, now) || (x.nRefCount > 1 && t.info[id].nRefCount == 0)
  }

  function Place(c: Config, key: int, t: Tables, id: int, source: NetAddr, now: int): Tables
    requires Sound(t) && id in t.info && 0 < |t.random|
  {
    var slot := NewSlot(c, key, t.info[id].service, source);
    if slot in t.newSlots && t.newSlots[slot] == id then t
    else if MayPlace(t, id, slot, now) then
      ClearNewEffect(t, slot);
      assert Untouched(t, ClearNew(t, slot), id);
      AddRef(ClearNew(t, slot), id, slot)
    else if t.info[id].nRefCount == 0 then Delete(t, id)
    else t
  }

  lemma PlaceInv(c: Config, key: int, t: Tables, id: int, source: NetAddr, now: int)
    requires c.Valid() && InvPend(c, key, t, if id in t.info && t.info[id].nRefCount == 0 then {id} else {})
    requires id in t.info && !t.info[id].fInTried && t.info[id].nRefCount < c.newPerAddress
    ensures Sound(t) && 0 < |t.random|
    ensures InvPend(c, key, Place(c, key, t, id, source, now), {})
  {
    var pend := if t.info[id].nRefCount == 0 then {id} else {};
    InvIsSound(c, key, t, pend);
    var slot := NewSlot(c, key, t.info[id].service, source);
    if slot in t.newSlots && t.newSlots[slot] == id {
      assert slot in Refs(t, id);
    } else if MayPlace(t, id, slot, now) {
      ClearNewEffect(t, slot);
      ClearNewInv(c, key, t, slot, pend);
      assert Untouched(t, ClearNew(t, slot), id);
      AddRefInv(c, key, ClearNew(t, slot), id, slot, pend);
      assert pend - {id} == {};
    } else if t.info[id].nRefCount == 0 {
      DeleteInv(c, key, t, id, pend);
      assert pend - {id} == {};
    }
  }

  lemma PlaceStats(c: Config, key: int, t: Tables, id: int, source: NetAddr, now: int)
    requires Sound(t) && id in t.info && 0 < |t.random| && Stats(t)
    ensures Stats(Place(c, key, t, id, source, now))
  {
    var slot := NewSlot(c, key, t.info[id].service, source);
    var u := Place(c, key, t, id, source, now);
    ClearNewEffect(t, slot);
    DeleteEffect(t, id);
    forall x | x in u.info ensures GoodStats(u.info[x]) {
      if slot in t.newSlots && t.newSlots[slot] == id {
      } else if MayPlace(t, id, slot, now) {
        assert x in ClearNew(t, slot).info;
      } else if t.info[id].nRefCount == 0 {
        assert x in t.info && x != id && Untouched(t, u, x);
      }
      assert GoodStats(t.info[x]);
    }
  }

  /** The tables and the answer after an announcement. */
  function Add(c: Config, key: int, t: Tables, addr: Address, source: NetAddr, penalty: int, now: int, draw: nat)
    : (Tables, bool)
    requires c.Valid() && Inv(c, key, t)
  {
    if !c.routable(addr.service.host) then (t, false)
    else if addr.service.host in t.byHost then
      var id := t.byHost[addr.service.host];
      var i := Seen(t.info[id], addr, now, penalty);
      UpdateInv(c, key, t, id, i, {});
      var u := WithInfo(t, id, i);
      if Declined(c, i, addr, draw) then (u, false)
      else
        InvIsSound(c, key, u, {});
        (Place(c, key, u, id, source, now), false)
    else
      var nTime := U32(Max0(addr.nTime - penalty));
      CreateNewInv(c, key, t, addr, source, nTime);
      var u := CreateNew(t, addr, source, nTime);
      InvIsSound(c, key, u, {t.idCount});
      (Place(c, key, u, t.idCount, source, now), true)
  }

  lemma AddInv(c: Config, key: int, t: Tables, addr: Address, source: NetAddr, penalty: int, now: int, draw: nat)
    requires c.Valid() && Inv(c, key, t)
    ensures Inv(c, key, Add(c, key, t, addr, source, penalty, now, draw).0)
  {
    if c.routable(addr.service.host) {
      if addr.service.host in t.byHost {
        AddKnownInv(c, key, t, addr, source, penalty, now, draw);
      } else {
        AddUnknownInv(c, key, t, addr, source, penalty, now, draw);
      }
    }
  }

  lemma AddKnownInv(c: Config, key: int, t: Tables, addr: Address, source: NetAddr, penalty: int, now: int, draw: nat)
    requires c.Valid() && Inv(c, key, t)
    requires c.routable(addr.service.host) && addr.service.host in t.byHost
    ensures Inv(c, key, Add(c, key, t, addr, source, penalty, now, draw).0)
  {
    var id := t.byHost[addr.service.host];
    var i := Seen(t.info[id], addr, now, penalty);
    var u := WithInfo(t, id, i);
    UpdateInv(c, key, t, id, i, {});
    forall x | x in u.info ensures GoodStats(u.info[x]) { assert GoodStats(t.info[x]); }
    if !Declined(c, i, addr, draw) {
      PlaceInv(c, key, u, id, source, now);
      PlaceStats(c, key, u, id, source, now);
    }
  }

  lemma CreateStats(t: Tables, addr: Address, source: NetAddr, nTime: nat)
    requires Stats(t)
    ensures Stats(CreateNew(t, addr, source, nTime))
  {
    var u := CreateNew(t, addr, source, nTime);
    forall x | x in u.info ensures GoodStats(u.info[x]) { if x != t.idCount { assert GoodStats(t.info[x]); } }
  }

  lemma AddUnknownInv(c: Config, key: int, t: Tables, addr: Address, source: NetAddr, penalty: int, now: int, draw: nat)
    requires c.Valid() && Inv(c, key, t)
    requires c.routable(addr.service.host) && addr.service.host !in t.byHost
    ensures Inv(c, key, Add(c, key, t, addr, source, penalty, now, draw).0)
  {
    var nTime := U32(Max0(addr.nTime - penalty));
    var u := CreateNew(t, addr, source, nTime);
    CreateNewInv(c, key, t, addr, source, nTime);
    CreateStats(t, addr, source, nTime);
    PlaceInv(c, key, u, t.idCount, source, now);
    PlaceStats(c, key, u, t.idCount, source, now);
  }
}
