/**
 What the operations of the address manager do to the entries they are about: times, services,
 counters and references, said of the tables before and after and of the inputs alone.
 */
module AddrEffects {
  import opened Arithmetic
  import opened AddrTables
  import opened AddrInvariant
  import opened AddrOps

  /** Entry x has become i, up to its place in the random order. */
  ghost predicate Became(u: Tables, x: int, i: Info) {
    x in u.info && u.info[x] == i.(nRandomPos := u.info[x].nRandomPos)
  }

  /** Whoever held the slot has one reference less, and is gone if it was the last. */
  ghost predicate GaveWay(t: Tables, u: Tables, slot: Slot) {
    slot in t.newSlots && t.newSlots[slot] in t.info ==>
      var x := t.newSlots[slot];
      if t.info[x].nRefCount == 1 then x !in u.info
      else Became(u, x, t.info[x].(nRefCount := t.info[x].nRefCount - 1))
  }

  /** No entry but id and the one that the slot is taken from has changed. */
  ghost predicate OthersStay(t: Tables, u: Tables, id: int, slot: Slot) {
    forall x :: x in t.info && x != id && (slot in t.newSlots ==> x != t.newSlots[slot]) ==> Became(u, x, t.info[x])
  }

  lemma ClearedHolder(t: Tables, slot: Slot)
    requires Indexed(t) && (slot in t.newSlots ==> t.newSlots[slot] in t.info)
    ensures GaveWay(t, ClearNew(t, slot), slot)
  {
    if slot in t.newSlots {
      var id := t.newSlots[slot];
      var d := DropRef(t, slot);
      DropRefIndexed(t, slot);
      if d.info[id].nRefCount == 0 {
        DeleteEffect(d, id);
      }
    }
  }

  // ------------------------------------------------------------ announcements

  /** The place of an address in the new table when a source announces it. */
  ghost predicate PlaceOf(c: Config, key: int, s: Service, source: NetAddr, slot: Slot) {
    slot.0 == c.newBucket(key, s, source) && slot.1 == c.position(key, true, slot.0, s)
  }

  /** A place is free, or a terrible entry other than id is in it. */
  ghost predicate Yields(t: Tables, id: int, slot: Slot, now: int) {
    slot in t.newSlots ==>
      t.newSlots[slot] != id && t.newSlots[slot] in t.info && IsTerrible(t.info[t.newSlots[slot]], now)
  }

  /** What an entry i knows after an announcement: the announced time less the penalty, if that is later by
      more than an hour, or than a day when the announced time is itself a day old; and the services of both. */
  ghost predicate Noted(i: Info, addr: Address, now: int, penalty: int, after: Info) {
    var online := addr.nTime > now - 86400;
    var late := addr.nTime - penalty > i.nTime + (if online then 3600 else 86400);
    && after == i.(nTime := after.nTime, nServices := i.nServices | addr.nServices)
    && if addr.nTime != 0 && (i.nTime == 0 || late)
       then after.nTime == (if addr.nTime < penalty then 0 else (addr.nTime - penalty) % 0x1_0000_0000)
       else after.nTime == i.nTime
  }

  /** A known entry that is announced may get a further reference: the announcement is later than what is
      known by then, the entry is not tried and below the maximum, and the draw, one in 2^n for n
      references, is a hit. */
  ghost predicate MayGain(c: Config, i: Info, addr: Address, draw: nat) {
    && addr.nTime != 0 && (i.nTime == 0 || i.nTime < addr.nTime)
    && !i.fInTried && 0 <= i.nRefCount < c.newPerAddress
    && (PowPositive(2, i.nRefCount); draw % Pow(2, i.nRefCount) == 0)
  }

  /** Entry id is now i with one reference more, which it has taken from whoever held the slot. */
  ghost predicate Gained(t: Tables, u: Tables, id: int, i: Info, slot: Slot) {
    && u.triedSlots == t.triedSlots && u.newSlots == t.newSlots[slot := id]
    && Became(u, id, i.(nRefCount := i.nRefCount + 1))
    && GaveWay(t, u, slot) && OthersStay(t, u, id, slot)
  }

  /** The announcement of a known host: the entry takes note of it; it gets a reference in its place for this
      source if it may gain one and the place yields, and in no other case does any slot or count change. */
  lemma KnownAnnounced(c: Config, key: int, t: Tables, addr: Address, source: NetAddr, penalty: int, now: int,
                       draw: nat, slot: Slot, i: Info)
    requires c.Valid() && Inv(c, key, t) && c.routable(addr.service.host) && addr.service.host in t.byHost
    requires t.byHost[addr.service.host] in t.info
    requires PlaceOf(c, key, t.info[t.byHost[addr.service.host]].service, source, slot)
    requires Noted(t.info[t.byHost[addr.service.host]], addr, now, penalty, i)
    ensures
      var u := Add(c, key, t, addr, source, penalty, now, draw).0;
      var id := t.byHost[addr.service.host];
      if MayGain(c, i, addr, draw) && Yields(t, id, slot, now) then Gained(t, u, id, i, slot)
      else u == t.(info := t.info[id := i])
  {
    hide Inv, InvPend, Add, Sound, Place, Noted, MayGain, Yields, PlaceOf, Indexed, Gained;
    var id := t.byHost[addr.service.host];
    var w := WithInfo(t, id, i);
    var u := AddKnownIs(c, key, t, addr, source, penalty, now, draw, i);
    if MayGain(c, i, addr, draw) {
      PlacedKnown(c, key, w, id, source, now, slot);
      YieldsSame(t, w, id, slot, now);
      if Yields(t, id, slot, now) {
        YieldsOther(t, id, slot, now);
        FromUpdated(t, w, u, id, slot);
      }
    }
  }

  lemma YieldsOther(t: Tables, id: int, slot: Slot, now: int)
    requires Yields(t, id, slot, now)
    ensures slot in t.newSlots ==> t.newSlots[slot] != id
  {
  }

  lemma YieldsSame(t: Tables, w: Tables, id: int, slot: Slot, now: int)
    requires id in t.info && id in w.info && w == t.(info := t.info[id := w.info[id]])
    ensures Yields(t, id, slot, now) <==> Yields(w, id, slot, now)
  {
  }

  lemma FromUpdated(t: Tables, w: Tables, u: Tables, id: int, slot: Slot)
    requires id in t.info && id in w.info && w == t.(info := t.info[id := w.info[id]])
    requires Gained(w, u, id, w.info[id], slot) && (slot in t.newSlots ==> t.newSlots[slot] != id)
    ensures Gained(t, u, id, w.info[id], slot)
  {
    forall x | x in t.info && x != id && (slot in t.newSlots ==> x != t.newSlots[slot])
      ensures Became(u, x, t.info[x])
    {
      assert x in w.info && w.info[x] == t.info[x];
    }
  }

  /** The operation for a known host, put together from its parts. */
  lemma AddKnownIs(c: Config, key: int, t: Tables, addr: Address, source: NetAddr, penalty: int, now: int,
                   draw: nat, i: Info) returns (u: Tables)
    requires c.Valid() && Inv(c, key, t) && c.routable(addr.service.host) && addr.service.host in t.byHost
    requires t.byHost[addr.service.host] in t.info
    requires Noted(t.info[t.byHost[addr.service.host]], addr, now, penalty, i)
    ensures u == Add(c, key, t, addr, source, penalty, now, draw).0
    ensures
      var id := t.byHost[addr.service.host];
      var w := WithInfo(t, id, i);
      && InvPend(c, key, w, {}) && Sound(w) && 0 < |w.random|
      && u == (if MayGain(c, i, addr, draw) then Place(c, key, w, id, source, now) else w)
      && (MayGain(c, i, addr, draw) ==> 0 < i.nRefCount && !i.fInTried) && i.service == t.info[id].service
  {
    var id := t.byHost[addr.service.host];
    var w := WithInfo(t, id, i);
    u := Add(c, key, t, addr, source, penalty, now, draw).0;
    SeenIs(t.info[id], addr, now, penalty, i);
    UpdateInv(c, key, t, id, i, {});
    hide Noted, Seen;
    KnownReady(c, key, w, addr.service.host);
    DeclinedIs(c, i, addr, draw);
    hide RefCounts, Indexed, NewPlaced, TriedExact, Counters, Stats, HostInverse, Declined, Place, Pow;
  }

  lemma SeenIs(i: Info, addr: Address, now: int, penalty: int, after: Info)
    requires Noted(i, addr, now, penalty, after)
    ensures Seen(i, addr, now, penalty) == after && SamePlace(i, after)
  {
  }

  lemma KnownReady(c: Config, key: int, t: Tables, host: NetAddr)
    requires c.Valid() && InvPend(c, key, t, {}) && host in t.byHost
    ensures var id := t.byHost[host];
            && id in t.info && Sound(t) && 0 < |t.random| && t.info[id].service.host == host
            && 0 <= t.info[id].nRefCount <= c.newPerAddress && (!t.info[id].fInTried ==> 0 < t.info[id].nRefCount)
  {
    InvIsSound(c, key, t, {});
    var id := t.byHost[host];
    assert HostInverse(t) && id in t.info;
    assert Indexed(t) && 0 <= t.info[id].nRandomPos < |t.random|;
    assert RefCounts(c, t, {}) && t.info[id].nRefCount == |Refs(t, id)|;
  }

  /** For 32-bit times: an announcement counts as later than what is known by then if and only if it is later
      than what was known and, when it comes without a penalty, not so late that the known time is brought up
      to it first. So without a penalty it is the fresh news that never leads to a further reference. */
  lemma LaterThanKnown(i: Info, addr: Address, now: int, penalty: int, after: Info)
    requires Noted(i, addr, now, penalty, after) && 0 <= penalty && addr.nTime < 0x1_0000_0000
    ensures
      var interval := if addr.nTime > now - 86400 then 3600 else 86400;
      (addr.nTime != 0 && (after.nTime == 0 || after.nTime < addr.nTime)) <==>
        addr.nTime > i.nTime && (penalty > 0 || (i.nTime != 0 && addr.nTime <= i.nTime + interval))
  {
  }

  lemma {:induction false} PowPosIs(n: nat)
    ensures PowPos(n) == Pow(2, n)
  {
    if n > 0 { PowPosIs(n - 1); }
  }

  lemma DeclinedIs(c: Config, i: Info, addr: Address, draw: nat)
    requires 0 <= i.nRefCount <= c.newPerAddress
    ensures Declined(c, i, addr, draw) <==> !MayGain(c, i, addr, draw)
  {
    PowPosIs(i.nRefCount);
    PowPositive(2, i.nRefCount);
    if i.nRefCount == 0 { assert Pow(2, 0) == 1 && draw % Pow(2, i.nRefCount) == 0; }
    var stays := addr.nTime == 0 || (i.nTime != 0 && addr.nTime <= i.nTime) || i.fInTried
                 || i.nRefCount == c.newPerAddress;
    var f := Pow(2, i.nRefCount);
    if !stays {
      assert Declined(c, i, addr, draw) <==> i.nRefCount > 0 && draw % f != 0;
      assert MayGain(c, i, addr, draw) <==> draw % f == 0;
    }
  }

  /** Placing an entry that has a reference already. */
  lemma PlacedKnown(c: Config, key: int, t: Tables, id: int, source: NetAddr, now: int, slot: Slot)
    requires c.Valid() && InvPend(c, key, t, {}) && Sound(t) && 0 < |t.random|
    requires id in t.info && !t.info[id].fInTried && 0 < t.info[id].nRefCount
    requires PlaceOf(c, key, t.info[id].service, source, slot)
    ensures
      var u := Place(c, key, t, id, source, now);
      if Yields(t, id, slot, now) then Gained(t, u, id, t.info[id], slot) else u == t
  {
    assert slot == NewSlot(c, key, t.info[id].service, source);
    if Yields(t, id, slot, now) {
      Taking(t, id, slot);
    }
  }

  /** Taking a slot over from whoever holds it. */
  lemma Taking(t: Tables, id: int, slot: Slot)
    requires Sound(t) && id in t.info && (slot in t.newSlots ==> t.newSlots[slot] != id)
    ensures id in ClearNew(t, slot).info && Gained(t, AddRef(ClearNew(t, slot), id, slot), id, t.info[id], slot)
  {
    ClearNewEffect(t, slot);
    ClearedHolder(t, slot);
    var v := ClearNew(t, slot);
    assert Untouched(t, v, id);
    TakenFree(t, v, id, slot);
  }

  lemma TakenFree(t: Tables, v: Tables, id: int, slot: Slot)
    requires id in t.info && Untouched(t, v, id) && (slot in t.newSlots ==> t.newSlots[slot] != id)
    requires v.triedSlots == t.triedSlots && v.newSlots == t.newSlots - {slot} && GaveWay(t, v, slot)
    requires forall x :: x in t.info && (slot in t.newSlots ==> x != t.newSlots[slot]) ==> Untouched(t, v, x)
    ensures Gained(t, AddRef(v, id, slot), id, t.info[id], slot)
  {
    var u := AddRef(v, id, slot);
    assert u.newSlots == t.newSlots[slot := id];
    forall x | x in t.info && x != id && (slot in t.newSlots ==> x != t.newSlots[slot])
      ensures Became(u, x, t.info[x])
    {
      assert Untouched(t, v, x);
    }
  }

  /** A place is free, or in it is an entry that is terrible or has other references. */
  ghost predicate YieldsToNew(t: Tables, slot: Slot, now: int) {
    slot in t.newSlots && t.newSlots[slot] in t.info ==>
      IsTerrible(t.info[t.newSlots[slot]], now) || t.info[t.newSlots[slot]].nRefCount > 1
  }

  /** The announcement of an unknown host: if its place yields, it is there under the next id with what was
      announced, one reference and no history; if not, nothing is kept of it. */
  lemma NewAnnounced(c: Config, key: int, t: Tables, addr: Address, source: NetAddr, penalty: int, now: int,
                     draw: nat, slot: Slot, nTime: nat)
    requires c.Valid() && Inv(c, key, t) && c.routable(addr.service.host) && addr.service.host !in t.byHost
    requires PlaceOf(c, key, addr.service, source, slot)
    requires nTime == (if addr.nTime < penalty then 0 else (addr.nTime - penalty) % 0x1_0000_0000)
    ensures
      var u := Add(c, key, t, addr, source, penalty, now, draw).0;
      var id := t.idCount;
      && u.idCount == id + 1 && u.triedSlots == t.triedSlots && OthersStay(t, u, id, slot)
      && if YieldsToNew(t, slot, now)
         then
           && u.newSlots == t.newSlots[slot := id] && GaveWay(t, u, slot)
           && Became(u, id, Info(addr.service, addr.nServices, nTime, source, 0, 0, 0, 1, false, 0))
         else
           && u.newSlots == t.newSlots && u.info.Keys == t.info.Keys
           && forall x :: x in t.info ==> Became(u, x, t.info[x])
  {
    hide Inv, InvPend, Add, CreateNew, Place, Sound, Indexed, Gained, YieldsToNew, PlaceOf, OthersStay, GaveWay,
      IsTerrible;
    var v := NewcomerIs(c, key, t, addr, source, penalty, now, draw, nTime);
    PlacedNew(c, key, v, t.idCount, source, now, slot);
    Arrived(t, v, Place(c, key, v, t.idCount, source, now), slot, now);
  }

  /** Tables v have entry id more than tables t, and no slot for it. */
  ghost predicate Newcomer(t: Tables, v: Tables, id: int) {
    && id !in t.info && id in v.info && v.info == t.info[id := v.info[id]]
    && v.newSlots == t.newSlots && v.triedSlots == t.triedSlots
    && forall s :: s in t.newSlots ==> t.newSlots[s] in t.info
  }

  lemma NewcomerIs(c: Config, key: int, t: Tables, addr: Address, source: NetAddr, penalty: int, now: int,
                   draw: nat, nTime: nat) returns (v: Tables)
    requires c.Valid() && Inv(c, key, t) && c.routable(addr.service.host) && addr.service.host !in t.byHost
    requires nTime == (if addr.nTime < penalty then 0 else (addr.nTime - penalty) % 0x1_0000_0000)
    ensures Sound(v) && 0 < |v.random| && t.idCount in v.info && v.idCount == t.idCount + 1
    ensures Newcomer(t, v, t.idCount)
    ensures Became(v, t.idCount, Info(addr.service, addr.nServices, nTime, source, 0, 0, 0, 0, false, 0))
    ensures Add(c, key, t, addr, source, penalty, now, draw).0 == Place(c, key, v, t.idCount, source, now)
  {
    assert nTime == U32(Max0(addr.nTime - penalty));
    v := CreateNew(t, addr, source, nTime);
    CreateNewInv(c, key, t, addr, source, nTime);
    InvIsSound(c, key, v, {t.idCount});
    InvIsSound(c, key, t, {});
    assert HostInverse(t) && t.idCount !in t.info;
    hide Indexed, NewPlaced, RefCounts, TriedExact, Counters, Place;
  }

  lemma PlacedNew(c: Config, key: int, t: Tables, id: int, source: NetAddr, now: int, slot: Slot)
    requires Sound(t) && 0 < |t.random| && id in t.info && t.info[id].nRefCount == 0
    requires forall s :: s in t.newSlots ==> t.newSlots[s] != id
    requires PlaceOf(c, key, t.info[id].service, source, slot)
    ensures
      var u := Place(c, key, t, id, source, now);
      && u.idCount == t.idCount
      && if YieldsToNew(t, slot, now) then Gained(t, u, id, t.info[id], slot)
         else
           && u.newSlots == t.newSlots && u.triedSlots == t.triedSlots && u.info.Keys == t.info.Keys - {id}
           && forall x :: x in t.info && x != id ==> Became(u, x, t.info[x])
  {
    assert slot == NewSlot(c, key, t.info[id].service, source);
    ClearNewEffect(t, slot);
    if YieldsToNew(t, slot, now) {
      Taking(t, id, slot);
    } else {
      DeleteEffect(t, id);
      hide ClearNew, Delete, Indexed;
      forall x | x in t.info && x != id ensures Became(Delete(t, id), x, t.info[x]) {
        assert Untouched(t, Delete(t, id), x);
      }
    }
  }

  lemma Arrived(t: Tables, v: Tables, u: Tables, slot: Slot, now: int)
    requires t.idCount in v.info && Newcomer(t, v, t.idCount) && v.info[t.idCount].nRefCount == 0
    requires
      if YieldsToNew(v, slot, now) then Gained(v, u, t.idCount, v.info[t.idCount], slot)
      else
        && u.newSlots == v.newSlots && u.triedSlots == v.triedSlots && u.info.Keys == v.info.Keys - {t.idCount}
        && forall x :: x in v.info && x != t.idCount ==> Became(u, x, v.info[x])
    ensures u.triedSlots == t.triedSlots && OthersStay(t, u, t.idCount, slot)
    ensures
      if YieldsToNew(t, slot, now)
      then
        && u.newSlots == t.newSlots[slot := t.idCount] && GaveWay(t, u, slot)
        && Became(u, t.idCount, v.info[t.idCount].(nRefCount := 1))
      else
        && u.newSlots == t.newSlots && u.info.Keys == t.info.Keys
        && forall x :: x in t.info ==> Became(u, x, t.info[x])
  {
    assert YieldsToNew(t, slot, now) == YieldsToNew(v, slot, now);
    hide IsTerrible;
    forall x | x in t.info && x != t.idCount && (slot in t.newSlots ==> x != t.newSlots[slot])
      ensures Became(u, x, t.info[x])
    {
      assert x in v.info && v.info[x] == t.info[x];
    }
    if !YieldsToNew(t, slot, now) {
      forall x | x in t.info ensures Became(u, x, t.info[x]) {
        assert x in v.info && v.info[x] == t.info[x];
      }
    }
  }

  // ------------------------------------------------------------ attempts, confirmations, connections

  /** Failed attempts one after the other. */
  function Attempts(t: Tables, s: Service, times: seq<int>): Tables {
    if times == [] then t else Attempt(Attempts(t, s, times[..|times| - 1]), s, times[|times| - 1])
  }

  /** They are counted, the time of the last one is kept, and nothing else changes. */
  lemma {:induction false} AttemptsCounted(t: Tables, s: Service, times: seq<int>)
    requires Known(t, s) && times != []
    ensures
      var id := t.byHost[s.host];
      Attempts(t, s, times) == t.(info := t.info[id := t.info[id].(nLastTry := times[|times| - 1],
                                                                   nAttempts := t.info[id].nAttempts + |times|)])
  {
    if |times| > 1 {
      AttemptsCounted(t, s, times[..|times| - 1]);
    } else {
      assert times[..0] == [];
    }
  }

  /** A confirmation starts the count of attempts afresh and dates the success and the last try; the entry is
      tried and has no new-table reference. Of an unknown address nothing is noted. */
  lemma Confirmed(c: Config, key: int, t: Tables, s: Service, nTime: int)
    requires c.Valid() && Inv(c, key, t)
    ensures
      var u := Good(c, key, t, s, nTime);
      if !Known(t, s) then u == t
      else
        var id := t.byHost[s.host];
        var i := t.info[id].(nLastSuccess := nTime, nLastTry := nTime, nAttempts := 0, fInTried := true,
                             nRefCount := 0);
        if t.info[id].fInTried then u == t.(info := t.info[id := i]) else Became(u, id, i)
  {
    if Known(t, s) {
      var id := t.byHost[s.host];
      var w := WithInfo(t, id, Succeeded(t.info[id], nTime));
      UpdateInv(c, key, t, id, Succeeded(t.info[id], nTime), {});
      if t.info[id].fInTried {
        assert RefCounts(c, t, {}) && t.info[id].nRefCount == 0;
      } else {
        InvRoomReady(c, key, w, id);
        MakeTriedRecords(c, key, w, id);
      }
    }
  }

  /** A connection dates an address that was last seen more than twenty minutes before, and nothing else. */
  lemma Connecting(t: Tables, s: Service, nTime: int)
    requires 0 <= nTime < 0x1_0000_0000
    ensures
      var u := Connected(t, s, nTime);
      if !Known(t, s) then u == t
      else
        var id := t.byHost[s.host];
        u == t.(info := t.info[id := t.info[id].(nTime := if nTime > t.info[id].nTime + 1200 then nTime
                                                          else t.info[id].nTime)])
  {
  }

  // ------------------------------------------------------------ terrible entries

  /** Nothing is terrible for a minute after it was tried. */
  lemma SparedAfterTry(i: Info, now: int)
    requires 0 < i.nLastTry && now <= i.nLastTry + 60
    ensures !IsTerrible(i, now)
  {
  }

  /** After that, what was not seen for thirty days, or in the future by more than ten minutes, is terrible;
      anything else exactly when it failed three times and never succeeded, or ten times since a success that
      is more than a week ago. */
  lemma TerribleExactly(i: Info, now: int)
    requires 0 <= i.nLastTry && (i.nLastTry == 0 || i.nLastTry + 60 < now) && 0 <= i.nLastSuccess
    ensures i.nTime == 0 || now > i.nTime + 2592000 || i.nTime > now + 600 ==> IsTerrible(i, now)
    ensures 0 < i.nTime && i.nTime - 600 <= now <= i.nTime + 2592000 ==>
      (IsTerrible(i, now) <==> if i.nLastSuccess == 0 then i.nAttempts >= 3
                               else i.nAttempts >= 10 && now > i.nLastSuccess + 604800)
  {
  }

  /** An address that was announced once and never answered: n attempts later, as soon as a minute has passed
      since the last, it is terrible if and only if n is three or more, as long as it is not too old. */
  lemma ThreeAttempts(t: Tables, s: Service, times: seq<int>, now: int)
    requires Known(t, s) && times != [] && 0 < times[|times| - 1] < now - 60
    requires
      var i := t.info[t.byHost[s.host]];
      i.nAttempts == 0 && i.nLastSuccess == 0 && 0 < i.nTime && i.nTime - 600 <= now <= i.nTime + 2592000
    ensures
      var u := Attempts(t, s, times);
      t.byHost[s.host] in u.info && (IsTerrible(u.info[t.byHost[s.host]], now) <==> |times| >= 3)
  {
    AttemptsCounted(t, s, times);
    hide Attempts;
    TerribleExactly(Attempts(t, s, times).info[t.byHost[s.host]], now);
  }

  /** One that was confirmed is kept through any number of attempts for a week after it, and through nine
      attempts for as long as it is seen. */
  lemma ConfirmedIsKept(c: Config, key: int, t: Tables, s: Service, nTime: int, times: seq<int>, now: int)
    requires c.Valid() && Inv(c, key, t) && Known(t, s) && 0 < nTime
    requires times != [] && 0 < times[|times| - 1] < now - 60
    requires
      var i := t.info[t.byHost[s.host]];
      0 < i.nTime && i.nTime - 600 <= now <= i.nTime + 2592000
    ensures
      var u := Attempts(Good(c, key, t, s, nTime), s, times);
      && t.byHost[s.host] in u.info
      && (IsTerrible(u.info[t.byHost[s.host]], now) <==> |times| >= 10 && now > nTime + 604800)
  {
    var id := t.byHost[s.host];
    var v := Good(c, key, t, s, nTime);
    Confirmed(c, key, t, s, nTime);
    GoodInv(c, key, t, s, nTime);
    assert v.info[id].service == s && HostInverse(v);
    assert Known(v, s) && v.byHost[s.host] == id;
    AttemptsCounted(v, s, times);
    hide Attempts, Good, Inv, InvPend;
    TerribleExactly(Attempts(v, s, times).info[id], now);
  }
}
