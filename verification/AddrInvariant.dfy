/**
 The consistency that `CAddrMan::Check_` tests, strengthened with an exact inverse for the
 host index, and what each elementary table operation does to it. Entries in `pend` are
 in the middle of a move: counted as new, but without a reference.
 */
module AddrInvariant {
  import opened AddrTables

  ghost function Refs(t: Tables, id: int): set<Slot> {
    set s | s in t.newSlots && t.newSlots[s] == id
  }

  ghost function TriedIds(t: Tables): set<int> {
    set id | id in t.info && t.info[id].fInTried
  }

  ghost function NewIds(t: Tables): set<int> {
    set id | id in t.info && !t.info[id].fInTried
  }

  lemma InIds(t: Tables, i: int)
    ensures i in TriedIds(t) <==> i in t.info && t.info[i].fInTried
    ensures i in NewIds(t) <==> i in t.info && !t.info[i].fInTried
  {
  }

  lemma InRefs(t: Tables, id: int, s: Slot)
    ensures s in Refs(t, id) <==> s in t.newSlots && t.newSlots[s] == id
  {
  }

  /** The host index is the exact inverse of the entries. */
  ghost predicate HostInverse(t: Tables) {
    && (forall id :: id in t.info ==>
          t.info[id].service.host in t.byHost && t.byHost[t.info[id].service.host] == id)
    && (forall h :: h in t.byHost ==> t.byHost[h] in t.info && t.info[t.byHost[h]].service.host == h)
    && 0 <= t.idCount && (forall id :: id in t.info ==> 0 <= id < t.idCount)
  }

  /** Tried entries sit in exactly the slot their address hashes to, and nowhere else. */
  ghost predicate TriedExact(c: Config, key: int, t: Tables)
  {
    && (forall s :: s in t.triedSlots ==>
          && t.triedSlots[s] in t.info
          && t.info[t.triedSlots[s]].fInTried
          && s == TriedSlot(c, key, t.info[t.triedSlots[s]].service))
    && (forall id :: id in t.info && t.info[id].fInTried ==>
          var s := TriedSlot(c, key, t.info[id].service); s in t.triedSlots && t.triedSlots[s] == id)
  }

  /** New-table slots hold entries at the place their address hashes to in that bucket. */
  ghost predicate NewPlaced(c: Config, key: int, t: Tables)
  {
    forall s :: s in t.newSlots ==>
      && t.newSlots[s] in t.info
      && 0 <= s.0 < c.newBuckets
      && s.1 == c.position(key, true, s.0, t.info[t.newSlots[s]].service)
  }

  /** Reference counts are the numbers of slots, and only pending entries have none. */
  ghost predicate RefCounts(c: Config, t: Tables, pend: set<int>) {
    && (forall id :: id in t.info ==> t.info[id].nRefCount == |Refs(t, id)|)
    && (forall id :: id in t.info && t.info[id].fInTried ==> t.info[id].nRefCount == 0)
    && (forall id :: id in t.info && !t.info[id].fInTried && id !in pend ==>
          0 < t.info[id].nRefCount <= c.newPerAddress)
    && (forall id :: id in pend ==> id in t.info && !t.info[id].fInTried && t.info[id].nRefCount == 0)
  }

  ghost predicate Counters(t: Tables) {
    t.nTried == |TriedIds(t)| && t.nNew == |NewIds(t)|
  }

  predicate GoodStats(info: Info) {
    info.nLastTry >= 0 && info.nLastSuccess >= 0 && (info.fInTried ==> info.nLastSuccess != 0)
  }

  ghost predicate Stats(t: Tables) {
    forall id :: id in t.info ==> GoodStats(t.info[id])
  }

  ghost predicate InvPend(c: Config, key: int, t: Tables, pend: set<int>)
  {
    && Indexed(t)
    && HostInverse(t)
    && TriedExact(c, key, t)
    && NewPlaced(c, key, t)
    && RefCounts(c, t, pend)
    && Counters(t)
  }

  ghost predicate Inv(c: Config, key: int, t: Tables)
  {
    InvPend(c, key, t, {}) && Stats(t)
  }

  // ------------------------------------------------------------ what a step may leave alone

  lemma Assemble(c: Config, key: int, t: Tables, pend: set<int>)
    requires Indexed(t) && HostInverse(t) && TriedExact(c, key, t) && NewPlaced(c, key, t)
    requires RefCounts(c, t, pend) && Counters(t)
    ensures InvPend(c, key, t, pend)
  {
  }

  /** The same entries, hosts and random order; only statistics, counts and flags may differ. */
  ghost predicate SameShape(t: Tables, u: Tables) {
    && u.info.Keys == t.info.Keys
    && (forall id :: id in t.info ==>
          u.info[id].service == t.info[id].service && u.info[id].nRandomPos == t.info[id].nRandomPos)
    && u.random == t.random && u.byHost == t.byHost && u.idCount == t.idCount
  }

  ghost predicate SameFlags(t: Tables, u: Tables) {
    && u.info.Keys == t.info.Keys
    && (forall id :: id in t.info ==>
          u.info[id].service == t.info[id].service && u.info[id].fInTried == t.info[id].fInTried)
    && u.triedSlots == t.triedSlots && u.nTried == t.nTried && u.nNew == t.nNew
  }

  lemma KeepsIndex(t: Tables, u: Tables)
    requires Indexed(t) && HostInverse(t) && SameShape(t, u)
    ensures Indexed(u) && HostInverse(u)
  {
    forall i | 0 <= i < |u.random|
      ensures u.random[i] in u.info && u.info[u.random[i]].nRandomPos == i {
      var id := t.random[i];
      assert id in t.info;
    }
  }

  lemma KeepsTried(c: Config, key: int, t: Tables, u: Tables)
    requires TriedExact(c, key, t) && Counters(t) && SameFlags(t, u)
    ensures TriedExact(c, key, u) && Counters(u)
  {
    forall id ensures (id in TriedIds(u) <==> id in TriedIds(t)) && (id in NewIds(u) <==> id in NewIds(t)) {}
    assert TriedIds(u) == TriedIds(t) && NewIds(u) == NewIds(t);
    forall s | s in u.triedSlots
      ensures var id := u.triedSlots[s];
              id in u.info && u.info[id].fInTried && s == TriedSlot(c, key, u.info[id].service) {
      var id := t.triedSlots[s];
      assert id in t.info;
    }
  }

  lemma KeepsPlaces(c: Config, key: int, t: Tables, u: Tables)
    requires NewPlaced(c, key, t)
    requires forall s :: s in u.newSlots ==> s in t.newSlots && u.newSlots[s] == t.newSlots[s]
    requires forall s :: s in u.newSlots ==>
               u.newSlots[s] in u.info && u.info[u.newSlots[s]].service == t.info[t.newSlots[s]].service
    ensures NewPlaced(c, key, u)
  {
  }

  // ------------------------------------------------------------ elementary steps

  lemma EmptyInv(c: Config, key: int)
    ensures Inv(c, key, EMPTY)
  {
    assert TriedIds(EMPTY) == {} && NewIds(EMPTY) == {};
  }

  lemma SwapRandomIndexed(t: Tables, i: int, j: int)
    requires Indexed(t) && 0 <= i < |t.random| && 0 <= j < |t.random|
    ensures Indexed(SwapRandom(t, i, j))
  {
    var u := SwapRandom(t, i, j);
    var a, b := t.random[i], t.random[j];
    if i != j {
      assert u.random[i] == b && u.random[j] == a;
      assert u.info[a].nRandomPos == j && u.info[b].nRandomPos == i;
      forall k | 0 <= k < |u.random|
        ensures u.random[k] in u.info && u.info[u.random[k]].nRandomPos == k {}
      forall id | id in u.info
        ensures 0 <= u.info[id].nRandomPos < |u.random| && u.random[u.info[id].nRandomPos] == id {}
    }
  }

  lemma SwapRandomMoves(t: Tables, i: int, j: int)
    requires 0 <= i < |t.random| && 0 <= j < |t.random| && t.random[i] in t.info && t.random[j] in t.info
    ensures var u := SwapRandom(t, i, j);
            && u.info.Keys == t.info.Keys
            && (forall id :: id in t.info ==> u.info[id] == t.info[id].(nRandomPos := u.info[id].nRandomPos))
            && u == t.(info := u.info, random := u.random)
  {
    var a, b := t.random[i], t.random[j];
    if i != j {
      var moved := t.info[a := t.info[a].(nRandomPos := j)];
      assert SwapRandom(t, i, j).info == moved[b := moved[b].(nRandomPos := i)];
    }
  }

  /** Two tables that differ only in the random order are equally consistent. */
  lemma SameButOrder(c: Config, key: int, t: Tables, u: Tables, pend: set<int>)
    requires InvPend(c, key, t, pend) && Indexed(u)
    requires u.info.Keys == t.info.Keys
    requires forall id :: id in t.info ==> u.info[id] == t.info[id].(nRandomPos := u.info[id].nRandomPos)
    requires u == t.(info := u.info, random := u.random)
    ensures InvPend(c, key, u, pend)
  {
    assert SameFlags(t, u);
    KeepsTried(c, key, t, u);
    KeepsPlaces(c, key, t, u);
    OrderRefCounts(c, t, u, pend);
    Assemble(c, key, u, pend);
  }

  lemma OrderRefCounts(c: Config, t: Tables, u: Tables, pend: set<int>)
    requires RefCounts(c, t, pend) && u.newSlots == t.newSlots
    requires u.info.Keys == t.info.Keys
    requires forall id :: id in t.info ==>
               u.info[id].nRefCount == t.info[id].nRefCount && u.info[id].fInTried == t.info[id].fInTried
    ensures RefCounts(c, u, pend)
  {
    assert forall id :: Refs(u, id) == Refs(t, id);
  }

  lemma CreateNewInv(c: Config, key: int, t: Tables, addr: Address, source: NetAddr, nTime: nat)
    requires InvPend(c, key, t, {}) && addr.service.host !in t.byHost
    ensures InvPend(c, key, CreateNew(t, addr, source, nTime), {t.idCount})
  {
    var u := CreateNew(t, addr, source, nTime);
    var id := t.idCount;
    assert id !in t.info;
    CreateIndexed(t, addr, source, nTime);
    CreateSlots(c, key, t, addr, source, nTime);
    forall i ensures Refs(u, i) == Refs(t, i) {}
    forall s | s in t.newSlots ensures t.newSlots[s] != id { assert t.newSlots[s] in t.info; }
    assert Refs(t, id) == {};
    Assemble(c, key, u, {id});
  }

  lemma CreateIndexed(t: Tables, addr: Address, source: NetAddr, nTime: nat)
    requires Indexed(t) && HostInverse(t) && addr.service.host !in t.byHost
    ensures Indexed(CreateNew(t, addr, source, nTime)) && HostInverse(CreateNew(t, addr, source, nTime))
  {
    var u := CreateNew(t, addr, source, nTime);
    var id := t.idCount;
    assert id !in t.info;
    assert u.random[|t.random|] == id;
    forall i | 0 <= i < |u.random| ensures u.random[i] in u.info && u.info[u.random[i]].nRandomPos == i {
      if i < |t.random| { var x := t.random[i]; assert x in t.info && u.random[i] == x && x != id; }
    }
  }

  lemma CreateSlots(c: Config, key: int, t: Tables, addr: Address, source: NetAddr, nTime: nat)
    requires TriedExact(c, key, t) && NewPlaced(c, key, t) && Counters(t) && t.idCount !in t.info
    ensures var u := CreateNew(t, addr, source, nTime);
            TriedExact(c, key, u) && NewPlaced(c, key, u) && Counters(u)
  {
    hide TriedExact, NewPlaced, Counters;
    var u := CreateNew(t, addr, source, nTime);
    assert forall x :: x in t.info ==> x in u.info && u.info[x] == t.info[x];
    assert u.info.Keys == t.info.Keys + {t.idCount} && !u.info[t.idCount].fInTried;
    MoreCounts(t, u, t.idCount);
    MoreTried(c, key, t, u, t.idCount);
    MorePlaced(c, key, t, u, t.idCount);
  }

  /** One more entry, which is not tried. */
  ghost predicate OneMore(t: Tables, u: Tables, id: int) {
    id !in t.info && u.info.Keys == t.info.Keys + {id} && !u.info[id].fInTried
      && forall x :: x in t.info ==> u.info[x] == t.info[x]
  }

  lemma MoreCounts(t: Tables, u: Tables, id: int)
    requires Counters(t) && OneMore(t, u, id) && u.nTried == t.nTried && u.nNew == t.nNew + 1
    ensures Counters(u)
  {
    hide TriedIds, NewIds;
    forall i ensures (i in TriedIds(u) <==> i in TriedIds(t)) && (i in NewIds(u) <==> i in NewIds(t) || i == id) {
      InIds(t, i);
      InIds(u, i);
    }
    InIds(t, id);
    hide OneMore;
    assert TriedIds(u) == TriedIds(t);
    assert NewIds(u) == NewIds(t) + {id};
  }

  lemma MoreTried(c: Config, key: int, t: Tables, u: Tables, id: int)
    requires TriedExact(c, key, t) && OneMore(t, u, id) && u.triedSlots == t.triedSlots
    ensures TriedExact(c, key, u)
  {
    hide TriedSlot;
    forall s | s in u.triedSlots
      ensures var x := u.triedSlots[s];
              x in u.info && u.info[x].fInTried && s == TriedSlot(c, key, u.info[x].service) {
      var x := t.triedSlots[s];
      assert x in t.info;
    }
  }

  lemma MorePlaced(c: Config, key: int, t: Tables, u: Tables, id: int)
    requires NewPlaced(c, key, t) && OneMore(t, u, id) && u.newSlots == t.newSlots
    ensures NewPlaced(c, key, u)
  {
    forall s | s in u.newSlots
      ensures var x := u.newSlots[s];
              x in u.info && 0 <= s.0 < c.newBuckets && s.1 == c.position(key, true, s.0, u.info[x].service) {
      var x := t.newSlots[s];
      assert x in t.info;
    }
  }

  lemma DeleteInv(c: Config, key: int, t: Tables, id: int, pend: set<int>)
    requires InvPend(c, key, t, pend) && id in pend
    ensures InvPend(c, key, Delete(t, id), pend - {id})
  {
    PendingIndex(c, key, t, id, pend);
    hide *;
    SwapRandomInv(c, key, t, t.info[id].nRandomPos, |t.random| - 1, pend);
    DeleteIs(t, id);
    DropLastInv(c, key, SwapRandom(t, t.info[id].nRandomPos, |t.random| - 1), id, pend);
  }

  lemma PendingIndex(c: Config, key: int, t: Tables, id: int, pend: set<int>)
    requires InvPend(c, key, t, pend) && id in pend
    ensures id in t.info && 0 <= t.info[id].nRandomPos < |t.random| && t.random[t.info[id].nRandomPos] == id
    ensures t.random[|t.random| - 1] in t.info
  {
    hide HostInverse, TriedExact, NewPlaced, Counters;
  }

  lemma DeleteIs(t: Tables, id: int)
    requires id in t.info && 0 <= t.info[id].nRandomPos < |t.random| && t.random[t.info[id].nRandomPos] == id
    requires t.random[|t.random| - 1] in t.info
    ensures
      var s := SwapRandom(t, t.info[id].nRandomPos, |t.random| - 1);
      && |s.random| == |t.random| && s.random[|s.random| - 1] == id && id in s.info
      && Delete(t, id) == DropLast(s, id)
  {
    SwapRandomMoves(t, t.info[id].nRandomPos, |t.random| - 1);
  }

  lemma SwapRandomInv(c: Config, key: int, t: Tables, i: int, j: int, pend: set<int>)
    requires InvPend(c, key, t, pend) && 0 <= i < |t.random| && 0 <= j < |t.random|
    ensures InvPend(c, key, SwapRandom(t, i, j), pend)
  {
    SwapRandomIndexed(t, i, j);
    SwapRandomMoves(t, i, j);
    SameButOrder(c, key, t, SwapRandom(t, i, j), pend);
  }

  /** The last entry of the random order is removed. */
  ghost function DropLast(s: Tables, id: int): Tables
    requires id in s.info && 0 < |s.random|
  {
    s.(info := s.info - {id}, byHost := s.byHost - {s.info[id].service.host},
       random := s.random[..|s.random| - 1], nNew := s.nNew - 1)
  }

  lemma DropLastInv(c: Config, key: int, s: Tables, id: int, pend: set<int>)
    requires InvPend(c, key, s, pend) && id in pend
    requires 0 < |s.random| && s.random[|s.random| - 1] == id
    ensures InvPend(c, key, DropLast(s, id), pend - {id})
  {
    var u := DropLast(s, id);
    assert |Refs(s, id)| == 0;
    forall x | x in s.newSlots ensures s.newSlots[x] != id {
      assert x !in Refs(s, id);
    }
    DropLastIndexed(s, id);
    DropLastSlots(c, key, s, id);
    forall i ensures Refs(u, i) == Refs(s, i) {}
    Assemble(c, key, u, pend - {id});
  }

  lemma DropLastIndexed(s: Tables, id: int)
    requires Indexed(s) && HostInverse(s) && id in s.info
    requires 0 < |s.random| && s.random[|s.random| - 1] == id
    ensures Indexed(DropLast(s, id)) && HostInverse(DropLast(s, id))
  {
    var u := DropLast(s, id);
    var last := |s.random| - 1;
    assert s.info[id].nRandomPos == last;
    forall i | 0 <= i < |u.random| ensures u.random[i] in u.info && u.info[u.random[i]].nRandomPos == i {
      var x := s.random[i];
      assert x in s.info && s.info[x].nRandomPos == i;
    }
    forall h | h in u.byHost ensures u.byHost[h] in u.info && u.info[u.byHost[h]].service.host == h {
      var x := s.byHost[h];
      assert x in s.info;
    }
  }

  lemma DropLastSlots(c: Config, key: int, s: Tables, id: int)
    requires TriedExact(c, key, s) && NewPlaced(c, key, s) && Counters(s)
    requires id in s.info && !s.info[id].fInTried && 0 < |s.random|
    requires forall x :: x in s.newSlots ==> s.newSlots[x] != id
    ensures var u := DropLast(s, id); TriedExact(c, key, u) && NewPlaced(c, key, u) && Counters(u)
  {
    hide TriedSlot;
    var u := DropLast(s, id);
    hide TriedIds, NewIds;
    forall i ensures (i in TriedIds(u) <==> i in TriedIds(s)) && (i in NewIds(u) <==> i in NewIds(s) && i != id) {
      InIds(s, i);
      InIds(u, i);
    }
    InIds(s, id);
    assert TriedIds(u) == TriedIds(s) && NewIds(u) == NewIds(s) - {id} && id in NewIds(s);
    forall p | p in u.triedSlots
      ensures var x := u.triedSlots[p];
              x in u.info && u.info[x].fInTried && p == TriedSlot(c, key, u.info[x].service) {
      var x := s.triedSlots[p];
      assert x in s.info && x != id;
    }
    forall p | p in u.newSlots ensures u.newSlots[p] in u.info && u.newSlots[p] != id {
      var x := s.newSlots[p];
      assert x in s.info && x != id;
    }
  }

  /** A step that changes references only. */
  lemma RefStep(c: Config, key: int, t: Tables, u: Tables, pend: set<int>, pend': set<int>)
    requires InvPend(c, key, t, pend)
    requires SameShape(t, u) && SameFlags(t, u)
    requires NewPlaced(c, key, u) && RefCounts(c, u, pend')
    ensures InvPend(c, key, u, pend')
  {
    KeepsIndex(t, u);
    KeepsTried(c, key, t, u);
    Assemble(c, key, u, pend');
  }

  lemma DropRefInv(c: Config, key: int, t: Tables, slot: Slot, pend: set<int>)
    requires InvPend(c, key, t, pend) && slot in t.newSlots
    ensures var u := DropRef(t, slot); var id := t.newSlots[slot];
            && t.info[id].nRefCount > 0
            && !t.info[id].fInTried
            && id !in pend
            && InvPend(c, key, u, if u.info[id].nRefCount == 0 then pend + {id} else pend)
  {
    var u := DropRef(t, slot);
    var id := t.newSlots[slot];
    hide Indexed, HostInverse, TriedExact, RefCounts, Counters;
    DropRefCounts(c, t, slot, pend);
    KeepsPlaces(c, key, t, u);
    SameAfterRef(t, u, id, u.info[id].nRefCount);
    hide NewPlaced, SameShape, SameFlags;
    RefStep(c, key, t, u, pend, if u.info[id].nRefCount == 0 then pend + {id} else pend);
  }

  lemma SameAfterRef(t: Tables, u: Tables, id: int, n: int)
    requires id in t.info && u == t.(newSlots := u.newSlots, info := t.info[id := t.info[id].(nRefCount := n)])
    ensures SameShape(t, u) && SameFlags(t, u)
  {
  }

  lemma DropRefCounts(c: Config, t: Tables, slot: Slot, pend: set<int>)
    requires RefCounts(c, t, pend) && slot in t.newSlots && t.newSlots[slot] in t.info
    ensures var u := DropRef(t, slot); var id := t.newSlots[slot];
            && t.info[id].nRefCount > 0
            && !t.info[id].fInTried
            && id !in pend
            && RefCounts(c, u, if u.info[id].nRefCount == 0 then pend + {id} else pend)
  {
    var u := DropRef(t, slot);
    var id := t.newSlots[slot];
    assert slot in Refs(t, id);
    forall i | i in u.info ensures u.info[i].nRefCount == |Refs(u, i)| {
      assert i in t.info;
      assert Refs(u, i) == if i == id then Refs(t, i) - {slot} else Refs(t, i);
    }
  }

  lemma ClearNewInv(c: Config, key: int, t: Tables, slot: Slot, pend: set<int>)
    requires InvPend(c, key, t, pend)
    ensures InvPend(c, key, ClearNew(t, slot), pend)
    ensures slot !in ClearNew(t, slot).newSlots
  {
    if slot in t.newSlots {
      var id := t.newSlots[slot];
      DropRefInv(c, key, t, slot, pend);
      var u := DropRef(t, slot);
      if u.info[id].nRefCount == 0 {
        DeleteInv(c, key, u, id, pend + {id});
        assert pend + {id} - {id} == pend;
      }
    }
  }

  lemma AddRefInv(c: Config, key: int, t: Tables, id: int, slot: Slot, pend: set<int>)
    requires InvPend(c, key, t, pend)
    requires id in t.info && !t.info[id].fInTried && t.info[id].nRefCount < c.newPerAddress
    requires slot !in t.newSlots && 0 <= slot.0 < c.newBuckets
    requires slot.1 == c.position(key, true, slot.0, t.info[id].service)
    ensures InvPend(c, key, AddRef(t, id, slot), pend - {id})
  {
    AddRefCounts(c, t, id, slot, pend);
    AddRefPlaced(c, key, t, id, slot);
    RefStep(c, key, t, AddRef(t, id, slot), pend, pend - {id});
  }

  lemma AddRefCounts(c: Config, t: Tables, id: int, slot: Slot, pend: set<int>)
    requires RefCounts(c, t, pend)
    requires id in t.info && !t.info[id].fInTried && t.info[id].nRefCount < c.newPerAddress
    requires slot !in t.newSlots
    ensures RefCounts(c, AddRef(t, id, slot), pend - {id})
  {
    var u := AddRef(t, id, slot);
    forall i | i in u.info ensures u.info[i].nRefCount == |Refs(u, i)| {
      assert i in t.info;
      RefsAdded(t, id, slot, i);
    }
    hide Refs;
  }

  lemma RefsAdded(t: Tables, id: int, slot: Slot, i: int)
    requires id in t.info && slot !in t.newSlots
    ensures |Refs(AddRef(t, id, slot), i)| == |Refs(t, i)| + (if i == id then 1 else 0)
  {
    var u := AddRef(t, id, slot);
    assert u.newSlots == t.newSlots[slot := id];
    hide *;
    OneMoreRef(t, u, id, slot, i);
  }

  lemma OneMoreRef(t: Tables, u: Tables, id: int, slot: Slot, i: int)
    requires slot !in t.newSlots && u.newSlots == t.newSlots[slot := id]
    ensures |Refs(u, i)| == |Refs(t, i)| + (if i == id then 1 else 0)
  {
    hide Refs;
    var a, b := Refs(t, i), Refs(u, i);
    forall s: Slot ensures s in b <==> s in a || (i == id && s == slot) {
      InRefs(u, i, s);
      InRefs(t, i, s);
    }
    InRefs(t, i, slot);
    assert i == id ==> b == a + {slot};
    assert i != id ==> b == a;
  }

  lemma AddRefPlaced(c: Config, key: int, t: Tables, id: int, slot: Slot)
    requires NewPlaced(c, key, t) && id in t.info && 0 <= slot.0 < c.newBuckets
    requires slot.1 == c.position(key, true, slot.0, t.info[id].service)
    ensures NewPlaced(c, key, AddRef(t, id, slot))
  {
    var u := AddRef(t, id, slot);
    forall s | s in u.newSlots
      ensures var x := u.newSlots[s];
              x in u.info && 0 <= s.0 < c.newBuckets && s.1 == c.position(key, true, s.0, u.info[x].service) {
      if s != slot { var x := t.newSlots[s]; assert x in t.info; }
    }
  }

  lemma UnrefInv(c: Config, key: int, t: Tables, id: int, pend: set<int>)
    requires InvPend(c, key, t, pend) && id in t.info && !t.info[id].fInTried
    ensures InvPend(c, key, Unref(t, id), pend + {id})
  {
    var u := Unref(t, id);
    UnrefCounts(c, t, id, pend);
    KeepsPlaces(c, key, t, u);
    RefStep(c, key, t, u, pend, pend + {id});
  }

  lemma UnrefCounts(c: Config, t: Tables, id: int, pend: set<int>)
    requires RefCounts(c, t, pend) && id in t.info && !t.info[id].fInTried
    ensures RefCounts(c, Unref(t, id), pend + {id})
  {
    var u := Unref(t, id);
    forall i | i in u.info ensures u.info[i].nRefCount == |Refs(u, i)| {
      assert i in t.info;
      assert Refs(u, i) == if i == id then {} else Refs(t, i);
    }
  }

  /** Statistics of one entry change; its address, place and counts do not. */
  ghost predicate SamePlace(a: Info, b: Info) {
    && a.service == b.service && a.nRefCount == b.nRefCount
    && a.fInTried == b.fInTried && a.nRandomPos == b.nRandomPos
  }

  lemma UpdateInv(c: Config, key: int, t: Tables, id: int, info: Info, pend: set<int>)
    requires InvPend(c, key, t, pend) && id in t.info
    requires SamePlace(t.info[id], info)
    ensures InvPend(c, key, t.(info := t.info[id := info]), pend)
  {
    var u := t.(info := t.info[id := info]);
    OrderRefCounts(c, t, u, pend);
    KeepsPlaces(c, key, t, u);
    RefStep(c, key, t, u, pend, pend);
  }

  lemma DemoteInv(c: Config, key: int, t: Tables, slot: Slot, pend: set<int>)
    requires InvPend(c, key, t, pend) && slot in t.triedSlots
    ensures InvPend(c, key, Demote(t, slot), pend + {t.triedSlots[slot]})
  {
    var u := Demote(t, slot);
    var id := t.triedSlots[slot];
    DemoteTried(c, key, t, slot);
    KeepsIndex(t, u);
    KeepsPlaces(c, key, t, u);
    assert id in t.info && t.info[id].fInTried;
    FlagRefCounts(c, t, u, id, false, pend, pend + {id});
    hide Indexed, HostInverse, TriedExact, NewPlaced, RefCounts, Counters;
    Assemble(c, key, u, pend + {id});
  }

  /** Moving an entry without references between the tables. */
  lemma FlagRefCounts(c: Config, t: Tables, u: Tables, id: int, f: bool, pend: set<int>, pend': set<int>)
    requires RefCounts(c, t, pend) && id in t.info && t.info[id].nRefCount == 0
    requires u.info == t.info[id := t.info[id].(fInTried := f)] && u.newSlots == t.newSlots
    requires pend' == if f then pend - {id} else pend + {id}
    ensures RefCounts(c, u, pend')
  {
    forall i ensures Refs(u, i) == Refs(t, i) {}
    hide Refs;
  }

  lemma DemoteTried(c: Config, key: int, t: Tables, slot: Slot)
    requires TriedExact(c, key, t) && Counters(t) && slot in t.triedSlots
    ensures TriedExact(c, key, Demote(t, slot)) && Counters(Demote(t, slot))
  {
    hide TriedSlot;
    var u := Demote(t, slot);
    var id := t.triedSlots[slot];
    hide TriedIds, NewIds;
    forall i ensures (i in TriedIds(u) <==> i in TriedIds(t) && i != id)
      && (i in NewIds(u) <==> i in NewIds(t) || i == id) {
      InIds(t, i);
      InIds(u, i);
    }
    InIds(t, id);
    assert TriedIds(u) == TriedIds(t) - {id} && id in TriedIds(t);
    assert NewIds(u) == NewIds(t) + {id} && id !in NewIds(t);
    forall s | s in u.triedSlots
      ensures var x := u.triedSlots[s];
              x in u.info && u.info[x].fInTried && s == TriedSlot(c, key, u.info[x].service) {
      var x := t.triedSlots[s];
      assert x in t.info && x != id;
    }
  }

  lemma PromoteInv(c: Config, key: int, t: Tables, id: int, slot: Slot, pend: set<int>)
    requires InvPend(c, key, t, pend) && id in pend
    requires slot == TriedSlot(c, key, t.info[id].service) && slot !in t.triedSlots
    ensures InvPend(c, key, Promote(t, id, slot), pend - {id})
  {
    var u := Promote(t, id, slot);
    PromoteTried(c, key, t, id, slot);
    KeepsIndex(t, u);
    KeepsPlaces(c, key, t, u);
    FlagRefCounts(c, t, u, id, true, pend, pend - {id});
    hide Indexed, HostInverse, TriedExact, NewPlaced, RefCounts, Counters;
    Assemble(c, key, u, pend - {id});
  }

  lemma PromoteTried(c: Config, key: int, t: Tables, id: int, slot: Slot)
    requires TriedExact(c, key, t) && Counters(t) && id in t.info && !t.info[id].fInTried
    requires slot == TriedSlot(c, key, t.info[id].service) && slot !in t.triedSlots
    ensures TriedExact(c, key, Promote(t, id, slot)) && Counters(Promote(t, id, slot))
  {
    var u := Promote(t, id, slot);
    hide TriedSlot, TriedIds, NewIds;
    forall i ensures (i in TriedIds(u) <==> i in TriedIds(t) || i == id)
      && (i in NewIds(u) <==> i in NewIds(t) && i != id) {
      InIds(t, i);
      InIds(u, i);
    }
    InIds(t, id);
    assert TriedIds(u) == TriedIds(t) + {id} && id !in TriedIds(t);
    assert NewIds(u) == NewIds(t) - {id} && id in NewIds(t);
    forall s | s in u.triedSlots
      ensures var x := u.triedSlots[s];
              x in u.info && u.info[x].fInTried && s == TriedSlot(c, key, u.info[x].service) {
      if s != slot { var x := t.triedSlots[s]; assert x in t.info && x != id; }
    }
  }
}
