/**
 The address manager itself: five linked indexes and two counters, changed in place. Every
 method is proved against the table function of the same name.
 */
module AddrMan {
  import opened AddrTables
  import opened AddrInvariant
  import opened AddrSlots
  import O = AddrOps
  import R = AddrRuns
  import K = AddrCheck

  class AddrMan {
    const c: Config
    var nKey: int
    var nIdCount: int
    var mapInfo: map<int, Info>
    var mapAddr: map<NetAddr, int>
    var vRandom: seq<int>
    var nTried: int
    const vvTried: SlotTable
    var nNew: int
    const vvNew: SlotTable

    ghost predicate Shape()
      reads vvTried, vvTried.cells, vvNew, vvNew.cells
    {
      && c.Valid()
      && vvTried.Valid() && vvTried.cells.Length0 == c.triedBuckets && vvTried.cells.Length1 == c.bucketSize
      && vvNew.Valid() && vvNew.cells.Length0 == c.newBuckets && vvNew.cells.Length1 == c.bucketSize
      && vvTried != vvNew && vvTried.cells != vvNew.cells
    }

    ghost function View(): Tables
      reads this, vvTried, vvNew
    {
      Tables(nIdCount, mapInfo, mapAddr, vRandom, nTried, nNew, vvTried.slots, vvNew.slots)
    }

    ghost predicate Valid()
      reads this, vvTried, vvTried.cells, vvNew, vvNew.cells
    {
      Shape() && Inv(c, nKey, View())
    }

    /** A new manager with empty tables and a random key. */
    constructor (c: Config, key: int)
      requires c.Valid()
      ensures Valid() && View() == EMPTY && this.c == c && nKey == key
      ensures fresh(vvTried) && fresh(vvTried.cells) && fresh(vvNew) && fresh(vvNew.cells)
    {
      this.c := c;
      nKey := key;
      nIdCount, nTried, nNew := 0, 0, 0;
      mapInfo, mapAddr, vRandom := map[], map[], [];
      vvNew := new SlotTable(c.newBuckets, c.bucketSize);
      vvTried := new SlotTable(c.triedBuckets, c.bucketSize);
      new;
      EmptyInv(c, key);
    }

    /** A new random key and empty tables; the entries and the index of hosts stay. */
    method Clear(key: int)
      requires Shape()
      modifies this, vvNew, vvNew.cells, vvTried, vvTried.cells
      ensures Shape() && nKey == key && View() == Cleared(old(View()))
    {
      vRandom := [];
      nKey := key;
      EmptyTable(vvNew);
      EmptyTable(vvTried);
      nIdCount, nTried, nNew := 0, 0, 0;
    }

    static method EmptyTable(v: SlotTable)
      requires v.Valid()
      modifies v, v.cells
      ensures v.Valid() && v.slots == map[]
    {
      var bucket := 0;
      while bucket < v.cells.Length0
        invariant 0 <= bucket <= v.cells.Length0 && v.Valid()
        invariant forall s :: s in v.slots ==> s.0 >= bucket
      {
        var entry := 0;
        while entry < v.cells.Length1
          invariant 0 <= entry <= v.cells.Length1 && v.Valid()
          invariant forall s :: s in v.slots ==> s.0 > bucket || (s.0 == bucket && s.1 >= entry)
        {
          v.Set(bucket, entry, -1);
          forall s | s in v.slots ensures s != (bucket, entry) {}
          entry := entry + 1;
        }
        bucket := bucket + 1;
      }
      forall s ensures s !in v.slots {}
    }

    method Create(addr: Address, source: NetAddr) returns (nId: int)
      requires Shape()
      modifies this
      ensures nKey == old(nKey) && nId == old(nIdCount)
      ensures View() == CreateNew(old(View()), addr, source, addr.nTime).(nNew := old(nNew))
    {
      nId := nIdCount;
      nIdCount := nIdCount + 1;
      mapInfo := mapInfo[nId := NewInfo(addr, source, addr.nTime, -1)];
      mapAddr := mapAddr[addr.service.host := nId];
      mapInfo := mapInfo[nId := mapInfo[nId].(nRandomPos := |vRandom|)];
      vRandom := vRandom + [nId];
    }

    method SwapRandom(nRndPos1: int, nRndPos2: int)
      requires 0 <= nRndPos1 < |vRandom| && 0 <= nRndPos2 < |vRandom|
      requires vRandom[nRndPos1] in mapInfo && vRandom[nRndPos2] in mapInfo
      modifies this`mapInfo, this`vRandom
      ensures View() == AddrTables.SwapRandom(old(View()), nRndPos1, nRndPos2)
    {
      if nRndPos1 == nRndPos2 {
        return;
      }
      var nId1 := vRandom[nRndPos1];
      var nId2 := vRandom[nRndPos2];
      mapInfo := mapInfo[nId1 := mapInfo[nId1].(nRandomPos := nRndPos2)];
      mapInfo := mapInfo[nId2 := mapInfo[nId2].(nRandomPos := nRndPos1)];
      vRandom := vRandom[nRndPos1 := nId2];
      vRandom := vRandom[nRndPos2 := nId1];
    }

    method Delete(nId: int)
      requires Indexed(View()) && nId in mapInfo
      requires !mapInfo[nId].fInTried && mapInfo[nId].nRefCount == 0
      modifies this`mapInfo, this`mapAddr, this`vRandom, this`nNew
      ensures View() == AddrTables.Delete(old(View()), nId)
    {
      ghost var t := View();
      assert t.random[|t.random| - 1] in t.info;
      var host := mapInfo[nId].service.host;
      SwapRandom(mapInfo[nId].nRandomPos, |vRandom| - 1);
      vRandom := vRandom[..|vRandom| - 1];
      mapAddr := mapAddr - {host};
      mapInfo := mapInfo - {nId};
      nNew := nNew - 1;
    }

    method ClearNew(nUBucket: int, nUBucketPos: int)
      requires Shape() && Indexed(View())
      requires 0 <= nUBucket < c.newBuckets && 0 <= nUBucketPos < c.bucketSize
      requires var slot := (nUBucket, nUBucketPos); slot in vvNew.slots ==> Referenced(View(), vvNew.slots[slot])
      modifies this`mapInfo, this`mapAddr, this`vRandom, this`nNew, vvNew, vvNew.cells
      ensures Shape()
      ensures View() == AddrTables.ClearNew(old(View()), (nUBucket, nUBucketPos))
    {
      ghost var t := View();
      var nIdDelete := vvNew.Get(nUBucket, nUBucketPos);
      if nIdDelete != -1 {
        mapInfo := mapInfo[nIdDelete := mapInfo[nIdDelete].(nRefCount := mapInfo[nIdDelete].nRefCount - 1)];
        vvNew.Set(nUBucket, nUBucketPos, -1);
        O.DropRefIndexed(t, (nUBucket, nUBucketPos));
        if mapInfo[nIdDelete].nRefCount == 0 {
          Delete(nIdDelete);
        }
      }
    }

    method DropIfHere(nId: int, bucket: int, pos: int)
      requires Shape() && nId in mapInfo && nId != -1
      requires 0 <= bucket < c.newBuckets && 0 <= pos < c.bucketSize
      modifies this`mapInfo, vvNew, vvNew.cells
      ensures Shape()
      ensures if (bucket, pos) in old(vvNew.slots) && old(vvNew.slots)[(bucket, pos)] == nId
              then && vvNew.slots == old(vvNew.slots) - {(bucket, pos)}
                   && mapInfo == old(mapInfo)[nId := old(mapInfo)[nId].(nRefCount := old(mapInfo)[nId].nRefCount - 1)]
              else vvNew.slots == old(vvNew.slots) && mapInfo == old(mapInfo)
    {
      var n := vvNew.Get(bucket, pos);
      if n == nId {
        vvNew.Set(bucket, pos, -1);
        mapInfo := mapInfo[nId := mapInfo[nId].(nRefCount := mapInfo[nId].nRefCount - 1)];
      }
    }

    /** Empty every new-table slot that holds the entry, counting its references down. */
    method RemoveFromNew(nId: int)
      requires Shape() && nId in mapInfo && nId != -1
      requires PlacedFor(c, nKey, vvNew.slots, nId, mapInfo[nId].service)
      requires mapInfo[nId].nRefCount == |RefsLeft(vvNew.slots, nId, 0)|
      modifies this`mapInfo, vvNew, vvNew.cells
      ensures Shape()
      ensures vvNew.slots == SlotsLeft(old(vvNew.slots), nId, c.newBuckets)
      ensures mapInfo == old(mapInfo)[nId := old(mapInfo)[nId].(nRefCount := 0)]
    {
      ghost var slots, info := vvNew.slots, mapInfo[nId];
      ghost var count := info.nRefCount;
      assert SlotsLeft(slots, nId, 0) == slots;
      var bucket := 0;
      while bucket < c.newBuckets
        invariant 0 <= bucket <= c.newBuckets
        invariant Shape() && vvNew.slots == SlotsLeft(slots, nId, bucket)
        invariant mapInfo == old(mapInfo)[nId := info.(nRefCount := count)]
        invariant count == |RefsLeft(slots, nId, bucket)|
      {
        var pos := c.position(nKey, true, bucket, mapInfo[nId].service);
        count := |RefsLeft(slots, nId, bucket + 1)|;
        SlotsStep(slots, nId, bucket, pos);
        SetTwice(old(mapInfo), nId, mapInfo[nId], info.(nRefCount := count));
        DropIfHere(nId, bucket, pos);
        bucket := bucket + 1;
      }
      assert RefsLeft(slots, nId, c.newBuckets) == {};
    }

    /** Take the holder out of a tried slot. */
    method TakeOut(nKBucket: int, nKBucketPos: int) returns (nIdEvict: int)
      requires Shape() && 0 <= nKBucket < c.triedBuckets && 0 <= nKBucketPos < c.bucketSize
      requires (nKBucket, nKBucketPos) in vvTried.slots && vvTried.slots[(nKBucket, nKBucketPos)] in mapInfo
      modifies this`mapInfo, this`nTried, vvTried, vvTried.cells
      ensures Shape()
      ensures var slot := (nKBucket, nKBucketPos);
              && nIdEvict == old(vvTried.slots)[slot] && nIdEvict != -1
              && View() == Demote(old(View()), slot).(nNew := nNew)
    {
      nIdEvict := vvTried.Get(nKBucket, nKBucketPos);
      mapInfo := mapInfo[nIdEvict := mapInfo[nIdEvict].(fInTried := false)];
      vvTried.Set(nKBucket, nKBucketPos, -1);
      nTried := nTried - 1;
    }

    /** Clear a new-table slot and put there an entry that has no other reference. */
    method Reenter(nId: int, nUBucket: int, nUBucketPos: int)
      requires Shape() && Indexed(View()) && nId != -1
      requires 0 <= nUBucket < c.newBuckets && 0 <= nUBucketPos < c.bucketSize
      requires EvictReady(View(), nId)
      modifies this`mapInfo, this`mapAddr, this`vRandom, this`nNew, vvNew, vvNew.cells
      ensures Shape()
      ensures var slot := (nUBucket, nUBucketPos);
              && nId in AddrTables.ClearNew(old(View()), slot).info
              && View() == AddRef(AddrTables.ClearNew(old(View()), slot), nId, slot)
    {
      ReenterKeeps(View(), nId, (nUBucket, nUBucketPos));
      ClearNew(nUBucket, nUBucketPos);
      mapInfo := mapInfo[nId := mapInfo[nId].(nRefCount := 1)];
      vvNew.Set(nUBucket, nUBucketPos, nId);
    }

    /** Move an entry from the new tables to the tried table, evicting the holder of its slot. */
    method MakeTried(nId: int)
      requires Shape() && O.RoomReady(c, nKey, View(), nId) && nId != -1
      requires PlacedFor(c, nKey, vvNew.slots, nId, mapInfo[nId].service)
      requires mapInfo[nId].nRefCount == |RefsLeft(vvNew.slots, nId, 0)|
      requires TriedReady(c, nKey, View(), nId)
      modifies this`mapInfo, this`mapAddr, this`vRandom, this`nNew, this`nTried
      modifies vvNew, vvNew.cells, vvTried, vvTried.cells
      ensures Shape()
      ensures View() == O.MakeTried(c, nKey, old(View()), nId)
    {
      hide O.MakeRoom, O.Evict, O.Sound, Indexed;
      ghost var t := View();
      O.MakeRoomEffect(c, nKey, t, nId);
      var nKBucket := c.triedBucket(nKey, mapInfo[nId].service);
      var nKBucketPos := c.position(nKey, false, nKBucket, mapInfo[nId].service);
      FreeTriedSlot(nId, nKBucket, nKBucketPos);
      Enter(nId, nKBucket, nKBucketPos);
    }

    /** Remove an entry from the new tables and clear the tried slot meant for it. */
    method FreeTriedSlot(nId: int, nKBucket: int, nKBucketPos: int)
      requires Shape() && O.RoomReady(c, nKey, View(), nId) && nId != -1
      requires PlacedFor(c, nKey, vvNew.slots, nId, mapInfo[nId].service)
      requires mapInfo[nId].nRefCount == |RefsLeft(vvNew.slots, nId, 0)|
      requires TriedReady(c, nKey, View(), nId)
      requires (nKBucket, nKBucketPos) == TriedSlot(c, nKey, mapInfo[nId].service)
      modifies this`mapInfo, this`mapAddr, this`vRandom, this`nNew, this`nTried
      modifies vvNew, vvNew.cells, vvTried, vvTried.cells
      ensures Shape()
      ensures var r := O.MakeRoom(c, nKey, old(View()), nId); View() == r.(nNew := r.nNew - 1)
    {
      hide O.Evict, O.Sound, Indexed;
      ghost var t := View();
      RemoveFromNew(nId);
      UnrefEquals(c, t, nId);
      ghost var w := Unref(t, nId);
      nNew := nNew - 1;
      assert View() == w.(nNew := nNew);
      assert mapInfo[nId].nRefCount == 0;
      var n := vvTried.Get(nKBucket, nKBucketPos);
      if n != -1 {
        MakeRoomAt(nKBucket, nKBucketPos, w);
      }
    }

    /** Put an entry into a tried slot. */
    method Enter(nId: int, nKBucket: int, nKBucketPos: int)
      requires Shape() && nId in mapInfo && nId != -1
      requires 0 <= nKBucket < c.triedBuckets && 0 <= nKBucketPos < c.bucketSize
      modifies this`mapInfo, this`nTried, vvTried, vvTried.cells
      ensures Shape()
      ensures View() == Promote(old(View()), nId, (nKBucket, nKBucketPos)).(nNew := nNew)
    {
      vvTried.Set(nKBucket, nKBucketPos, nId);
      nTried := nTried + 1;
      mapInfo := mapInfo[nId := mapInfo[nId].(fInTried := true)];
    }

    /** Send the holder of a tried slot back to the new table. */
    method MakeRoomAt(nKBucket: int, nKBucketPos: int, ghost w: Tables)
      requires Shape() && O.Sound(w) && View() == w.(nNew := nNew)
      requires 0 <= nKBucket < c.triedBuckets && 0 <= nKBucketPos < c.bucketSize
      requires (nKBucket, nKBucketPos) in w.triedSlots && EvictReady(w, w.triedSlots[(nKBucket, nKBucketPos)])
      modifies this`mapInfo, this`mapAddr, this`vRandom, this`nNew, this`nTried
      modifies vvNew, vvNew.cells, vvTried, vvTried.cells
      ensures Shape()
      ensures var u := O.Evict(c, nKey, w, (nKBucket, nKBucketPos));
              View() == u.(nNew := u.nNew - w.nNew + old(nNew))
    {
      hide O.Evict, AddrTables.ClearNew, O.Sound, Indexed;
      assert vvTried.slots[(nKBucket, nKBucketPos)] in w.info;
      EvictSteps(c, nKey, w, (nKBucket, nKBucketPos), nNew);
      var nIdEvict := TakeOut(nKBucket, nKBucketPos);
      var nUBucket := c.newBucket(nKey, mapInfo[nIdEvict].service, mapInfo[nIdEvict].source);
      var nUBucketPos := c.position(nKey, true, nUBucket, mapInfo[nIdEvict].service);
      assert View() == Demote(w, (nKBucket, nKBucketPos)).(nNew := nNew);
      Reenter(nIdEvict, nUBucket, nUBucketPos);
      nNew := nNew + 1;
    }

    /** The id of the entry for a host. */
    method Find(host: NetAddr) returns (found: bool, nId: int)
      requires HostInverse(View())
      ensures found <==> host in mapAddr
      ensures found ==> nId == mapAddr[host] && nId in mapInfo && nId != -1 && mapInfo[nId].service.host == host
    {
      nId := -1;
      found := host in mapAddr;
      if found {
        nId := mapAddr[host];
        found := nId in mapInfo;
      }
    }

    /** Look through all new buckets, from a random one on, for a slot that holds the entry. */
    method FindBucket(nId: int, nRnd: int) returns (nUBucket: int)
      requires Shape() && nId in mapInfo && nId != -1 && 0 <= nRnd < c.newBuckets
      requires PlacedFor(c, nKey, vvNew.slots, nId, mapInfo[nId].service)
      ensures nUBucket == -1 <==> nId !in vvNew.slots.Values
    {
      nUBucket := -1;
      var n := 0;
      while n < c.newBuckets
        invariant 0 <= n <= c.newBuckets
        invariant forall m :: 0 <= m < n ==>
          !Holds(c, nKey, vvNew.slots, nId, mapInfo[nId].service, Turn(m, nRnd, c.newBuckets))
      {
        var nB := Turn(n, nRnd, c.newBuckets);
        var nBpos := c.position(nKey, true, nB, mapInfo[nId].service);
        var v := vvNew.Get(nB, nBpos);
        if v == nId {
          assert vvNew.slots[(nB, nBpos)] == nId;
          return nB;
        }
        n := n + 1;
      }
      NotHeld(c, nKey, vvNew.slots, nId, mapInfo[nId].service, nRnd);
    }

    /** Mark an address good, possibly moving it from new to tried. */
    method Good_(addr: Service, nTime: int, nRnd: int) returns (bailedOut: bool)
      requires Valid() && 0 <= nRnd < c.newBuckets
      modifies this`mapInfo, this`mapAddr, this`vRandom, this`nNew, this`nTried
      modifies vvNew, vvNew.cells, vvTried, vvTried.cells
      ensures Shape()
      ensures View() == O.Good(c, nKey, old(View()), addr, nTime)
      ensures nTime > 0 ==> Valid()
      ensures !bailedOut
    {
      hide O.MakeTried, O.RoomReady, Indexed, NewPlaced, RefCounts, TriedExact, Counters, Stats;
      bailedOut := false;
      ghost var t := View();
      O.GoodInv(c, nKey, t, addr, nTime);
      var found, nId := Find(addr.host);
      if !found {
        return;
      }
      if mapInfo[nId].service != addr {
        return;
      }
      mapInfo := mapInfo[nId := mapInfo[nId].(nLastSuccess := nTime, nLastTry := nTime, nAttempts := 0)];
      assert View() == O.WithInfo(t, nId, O.Succeeded(t.info[nId], nTime));
      if mapInfo[nId].fInTried {
        return;
      }
      UpdateInv(c, nKey, t, nId, O.Succeeded(t.info[nId], nTime), {});
      bailedOut := MoveToTried(nId, nRnd);
    }

    /** Find a bucket that an entry is in now and move the entry to the tried table. */
    method MoveToTried(nId: int, nRnd: int) returns (bailedOut: bool)
      requires Shape() && InvPend(c, nKey, View(), {}) && 0 <= nRnd < c.newBuckets
      requires nId in mapInfo && !mapInfo[nId].fInTried
      modifies this`mapInfo, this`mapAddr, this`vRandom, this`nNew, this`nTried
      modifies vvNew, vvNew.cells, vvTried, vvTried.cells
      ensures Shape()
      ensures O.RoomReady(c, nKey, old(View()), nId) && View() == O.MakeTried(c, nKey, old(View()), nId)
      ensures !bailedOut
    {
      hide O.MakeTried, O.RoomReady, Indexed, HostInverse, NewPlaced, RefCounts, TriedExact, Counters;
      InvTriedReady(c, nKey, View(), nId);
      var nUBucket := FindBucket(nId, nRnd);
      bailedOut := nUBucket == -1;
      if !bailedOut {
        MakeTried(nId);
      }
    }

    method Attempt_(addr: Service, nTime: int)
      requires Valid()
      modifies this`mapInfo
      ensures Shape() && View() == O.Attempt(old(View()), addr, nTime)
      ensures nTime >= 0 ==> Valid()
    {
      hide Indexed, NewPlaced, RefCounts, TriedExact, Counters, Stats;
      O.AttemptInv(c, nKey, View(), addr, nTime);
      var found, nId := Find(addr.host);
      if !found || mapInfo[nId].service != addr {
        return;
      }
      mapInfo := mapInfo[nId := mapInfo[nId].(nLastTry := nTime, nAttempts := mapInfo[nId].nAttempts + 1)];
    }

    method Connected_(addr: Service, nTime: int)
      requires Valid()
      modifies this`mapInfo
      ensures Valid() && View() == O.Connected(old(View()), addr, nTime)
    {
      hide Indexed, NewPlaced, RefCounts, TriedExact, Counters, Stats;
      O.ConnectedInv(c, nKey, View(), addr, nTime);
      var found, nId := Find(addr.host);
      if !found || mapInfo[nId].service != addr {
        return;
      }
      var nUpdateInterval := 20 * 60;
      if nTime - mapInfo[nId].nTime > nUpdateInterval {
        mapInfo := mapInfo[nId := mapInfo[nId].(nTime := U32(nTime))];
      }
    }

    /** Gather random addresses, skipping those of low quality. */
    method GetAddr_(now: int, rand: nat -> nat) returns (vAddr: seq<Address>)
      requires Valid()
      modifies this`mapInfo, this`vRandom
      ensures Valid() && (View(), vAddr) == R.GetAddr(old(View()), now, rand)
    {
      hide HostInverse, NewPlaced, RefCounts, TriedExact, Counters, Stats, R.Gather;
      R.GetAddrSpec(c, nKey, View(), now, rand);
      var nNodes := R.GETADDR_MAX_PCT * |vRandom| / 100;
      if nNodes > R.GETADDR_MAX {
        nNodes := R.GETADDR_MAX;
      }
      vAddr := Gather(nNodes, now, rand);
    }

    method Gather(nNodes: nat, now: int, rand: nat -> nat) returns (vAddr: seq<Address>)
      requires Indexed(View())
      modifies this`mapInfo, this`vRandom
      ensures (View(), vAddr) == R.Gather(old(View()), 0, [], nNodes, now, rand)
    {
      hide AddrTables.SwapRandom;
      ghost var t := View();
      vAddr := [];
      var n := 0;
      while n < |vRandom|
        invariant 0 <= n <= |vRandom|
        invariant Indexed(View())
        invariant R.Gather(View(), n, vAddr, nNodes, now, rand) == R.Gather(t, 0, [], nNodes, now, rand)
        decreases |vRandom| - n
      {
        if |vAddr| >= nNodes {
          break;
        }
        var nRndPos := R.Draw(rand, n, |vRandom|);
        SwapRandomIndexed(View(), n, nRndPos);
        SwapRandomMoves(View(), n, nRndPos);
        R.SwapLength(View(), n, nRndPos);
        SwapRandom(n, nRndPos);
        var ai := mapInfo[vRandom[n]];
        if !IsTerrible(ai, now) {
          vAddr := vAddr + [R.AddressOf(ai)];
        }
        n := n + 1;
      }
    }

    /** Clear a new-table slot and put there another reference to an entry. */
    method TakeOver(nId: int, nUBucket: int, nUBucketPos: int)
      requires Shape() && O.Sound(View()) && nId in mapInfo && nId != -1
      requires 0 <= nUBucket < c.newBuckets && 0 <= nUBucketPos < c.bucketSize
      requires (nUBucket, nUBucketPos) in vvNew.slots ==>
                 && vvNew.slots[(nUBucket, nUBucketPos)] != nId
                 && Referenced(View(), vvNew.slots[(nUBucket, nUBucketPos)])
      modifies this`mapInfo, this`mapAddr, this`vRandom, this`nNew, vvNew, vvNew.cells
      ensures Shape()
      ensures var slot := (nUBucket, nUBucketPos);
              && nId in AddrTables.ClearNew(old(View()), slot).info
              && View() == AddRef(AddrTables.ClearNew(old(View()), slot), nId, slot)
    {
      hide AddrTables.ClearNew;
      PlaceKeeps(View(), nId, (nUBucket, nUBucketPos));
      ClearNew(nUBucket, nUBucketPos);
      mapInfo := mapInfo[nId := mapInfo[nId].(nRefCount := mapInfo[nId].nRefCount + 1)];
      vvNew.Set(nUBucket, nUBucketPos, nId);
    }

    /** Give an entry a reference in the bucket for a source, if its place there is free or
        may be taken over; an entry left without any reference is deleted. */
    method PlaceEntry(nId: int, source: NetAddr, now: int)
      requires Shape() && O.Sound(View()) && 0 < |vRandom|
      requires nId in mapInfo && nId != -1 && !mapInfo[nId].fInTried
      requires AllReferenced(View())
      modifies this`mapInfo, this`mapAddr, this`vRandom, this`nNew, vvNew, vvNew.cells
      ensures Shape()
      ensures View() == O.Place(c, nKey, old(View()), nId, source, now)
    {
      hide AddrTables.ClearNew, AddrTables.Delete, O.Untouched, IsTerrible;
      ghost var t := View();
      var nUBucket := c.newBucket(nKey, mapInfo[nId].service, source);
      var nUBucketPos := c.position(nKey, true, nUBucket, mapInfo[nId].service);
      ghost var slot := (nUBucket, nUBucketPos);
      NewSlotInRange(c, nKey, mapInfo[nId].service, source);
      var n := vvNew.Get(nUBucket, nUBucketPos);
      if n != nId {
        var fInsert := n == -1;
        if !fInsert {
          var infoExisting := mapInfo[n];
          if IsTerrible(infoExisting, now) || (infoExisting.nRefCount > 1 && mapInfo[nId].nRefCount == 0) {
            fInsert := true;
          }
        }
        assert fInsert == O.MayPlace(t, nId, slot, now);
        if fInsert {
          assert slot in t.newSlots ==> Referenced(t, t.newSlots[slot]);
          TakeOver(nId, nUBucket, nUBucketPos);
        } else {
          if mapInfo[nId].nRefCount == 0 {
            Delete(nId);
          }
        }
      }
    }

    method Add_(addr: Address, source: NetAddr, nTimePenalty: int, now: int, draw: nat) returns (fNew: bool)
      requires Valid()
      modifies this, vvNew, vvNew.cells
      ensures Valid() && nKey == old(nKey)
      ensures (View(), fNew) == O.Add(c, nKey, old(View()), addr, source, nTimePenalty, now, draw)
    {
      hide Indexed, NewPlaced, RefCounts, TriedExact, Counters, Stats, O.Place, O.Sound, AllReferenced;
      hide O.Seen, O.Declined, U32, Max0;
      O.AddInv(c, nKey, View(), addr, source, nTimePenalty, now, draw);
      if !c.routable(addr.service.host) {
        return false;
      }
      var found, nId := Find(addr.service.host);
      if found {
        AddKnown(nId, addr, source, nTimePenalty, now, draw);
      } else {
        AddUnknown(addr, source, nTimePenalty, now);
      }
      fNew := !found;
    }

    method AddKnown(nId: int, addr: Address, source: NetAddr, nTimePenalty: int, now: int, draw: nat)
      requires Shape() && InvPend(c, nKey, View(), {}) && nId in mapInfo
      modifies this`mapInfo, this`mapAddr, this`vRandom, this`nNew, vvNew, vvNew.cells
      ensures Shape()
      ensures var i := O.Seen(old(mapInfo)[nId], addr, now, nTimePenalty);
              var u := O.WithInfo(old(View()), nId, i);
              && O.Sound(u) && 0 < |u.random|
              && View() == if O.Declined(c, i, addr, draw) then u else O.Place(c, nKey, u, nId, source, now)
    {
      hide Indexed, HostInverse, NewPlaced, RefCounts, TriedExact, Counters, O.Place, O.Sound, AllReferenced;
      hide O.Seen, O.Declined;
      ghost var t := View();
      SeenPlace(t.info[nId], addr, now, nTimePenalty);
      var declined := Refresh(nId, addr, nTimePenalty, now, draw);
      UpdateInv(c, nKey, t, nId, mapInfo[nId], {});
      InvPlaceReady(c, nKey, View(), {});
      if !declined {
        PlaceEntry(nId, source, now);
      }
    }

    method AddUnknown(addr: Address, source: NetAddr, nTimePenalty: int, now: int)
      requires Shape() && InvPend(c, nKey, View(), {}) && addr.service.host !in mapAddr
      modifies this, vvNew, vvNew.cells
      ensures Shape() && nKey == old(nKey)
      ensures var u := CreateNew(old(View()), addr, source, U32(Max0(addr.nTime - nTimePenalty)));
              && O.Sound(u)
              && View() == O.Place(c, nKey, u, old(nIdCount), source, now)
    {
      hide Indexed, HostInverse, NewPlaced, RefCounts, TriedExact, Counters, O.Place, O.Sound, AllReferenced;
      hide U32, Max0;
      CreateNewInv(c, nKey, View(), addr, source, U32(Max0(addr.nTime - nTimePenalty)));
      var nId := Introduce(addr, source, nTimePenalty);
      InvPlaceReady(c, nKey, View(), {nId});
      PlaceEntry(nId, source, now);
    }

    /** Bring the time of a known address up to date, from time to time. */
    static method UpdateTime(i: Info, addr: Address, nTimePenalty: int, now: int) returns (pinfo: Info)
      ensures pinfo == i.(nTime := O.Seen(i, addr, now, nTimePenalty).nTime)
    {
      hide U32, Max0;
      SameTime(i);
      pinfo := i;
      var fCurrentlyOnline := now - addr.nTime < 24 * 60 * 60;
      var nUpdateInterval := if fCurrentlyOnline then 60 * 60 else 24 * 60 * 60;
      if addr.nTime != 0 && (pinfo.nTime == 0 || pinfo.nTime < addr.nTime - nUpdateInterval - nTimePenalty) {
        pinfo := pinfo.(nTime := U32(Max0(addr.nTime - nTimePenalty)));
      }
    }

    /** Bring its time and its services up to date. */
    static method TakeNote(i: Info, addr: Address, nTimePenalty: int, now: int) returns (pinfo: Info)
      ensures pinfo == O.Seen(i, addr, now, nTimePenalty)
    {
      SeenParts(i, addr, now, nTimePenalty);
      hide O.Seen;
      pinfo := UpdateTime(i, addr, nTimePenalty, now);
      pinfo := pinfo.(nServices := pinfo.nServices | addr.nServices);
    }

    /** Take note of an announcement of a known address; tell whether it gets no reference. */
    method Refresh(nId: int, addr: Address, nTimePenalty: int, now: int, draw: nat) returns (declined: bool)
      requires nId in mapInfo
      modifies this`mapInfo
      ensures View() == O.WithInfo(old(View()), nId, O.Seen(old(mapInfo)[nId], addr, now, nTimePenalty))
      ensures declined == O.Declined(c, mapInfo[nId], addr, draw)
      ensures !declined ==> !mapInfo[nId].fInTried
    {
      hide O.Seen;
      var pinfo := TakeNote(mapInfo[nId], addr, nTimePenalty, now);
      mapInfo := mapInfo[nId := pinfo];
      // no new information is present
      if addr.nTime == 0 || (pinfo.nTime != 0 && addr.nTime <= pinfo.nTime) {
        return true;
      }
      if pinfo.fInTried {
        return true;
      }
      // the maximum reference count is reached
      if pinfo.nRefCount == c.newPerAddress {
        return true;
      }
      // each reference makes the next one twice as hard to get
      var nFactor := Factor(pinfo.nRefCount);
      if nFactor > 1 && draw % nFactor != 0 {
        return true;
      }
      return false;
    }

    /** Create the entry for an unknown host, its time reduced by the penalty. */
    method Introduce(addr: Address, source: NetAddr, nTimePenalty: int) returns (nId: int)
      requires Shape()
      modifies this
      ensures nKey == old(nKey) && nId == old(nIdCount)
      ensures View() == CreateNew(old(View()), addr, source, U32(Max0(addr.nTime - nTimePenalty)))
    {
      nId := Create(addr, source);
      mapInfo := mapInfo[nId := mapInfo[nId].(nTime := U32(Max0(mapInfo[nId].nTime - nTimePenalty)))];
      nNew := nNew + 1;
    }

    /** Two to the number of references: how much harder the next one is to get. */
    method Factor(nRefCount: int) returns (nFactor: int)
      ensures nFactor == O.PowPos(nRefCount)
      ensures nFactor > 1 <==> nRefCount > 0
    {
      nFactor := 1;
      var n := 0;
      while n < nRefCount
        invariant 0 <= n && (0 <= nRefCount ==> n <= nRefCount) && (nRefCount < 0 ==> n == 0)
        invariant nFactor == O.PowPos(n) && (n > 0 <==> nFactor > 1)
      {
        nFactor := nFactor * 2;
        n := n + 1;
      }
    }

    /** The debugging check: 0 exactly for CheckOk, else the first complaint. With a key set it finds
        nothing on exactly the tables that are consistent, apart from what it leaves open about the
        index of hosts, which its lookups may add to. */
    method Check_() returns (err: int)
      requires Shape()
      modifies this`mapAddr
      ensures Shape() && View() == old(View()).(byHost := mapAddr)
      ensures err == 0 <==> K.CheckOk(c, nKey, old(View()))
      ensures err != 0 ==> K.Complains(c, nKey, old(View()), err)
      ensures err == 0 ==> mapAddr == K.AfterCheck(old(View()))
      ensures K.SameIds(old(mapAddr), mapAddr)
      ensures nKey != 0 ==> (err == 0 && K.IndexFits(old(View())) <==> Inv(c, nKey, old(View())))
      ensures nKey != 0 && old(Valid()) ==> err == 0 && Valid() && mapAddr == old(mapAddr)
    {
      hide Inv, K.CheckOk, K.Complains, K.SameIds, K.IndexFits;
      if nKey != 0 {
        K.CheckIsInv(c, nKey, View());
        K.InvUnchanged(c, nKey, View());
      }
      ghost var t := View();
      err, mapAddr := K.Check(c, nKey, t, mapInfo, mapAddr, vRandom, nTried, nNew, vvTried, vvNew);
    }
  }

  /** The references of an entry in the buckets from `bucket` on. */
  ghost function RefsLeft(slots: map<Slot, int>, id: int, bucket: int): set<Slot> {
    set s | s in slots && slots[s] == id && s.0 >= bucket
  }

  /** A table without the references of an entry in the buckets before `bucket`. */
  ghost function SlotsLeft(slots: map<Slot, int>, id: int, bucket: int): map<Slot, int> {
    map s | s in slots && (slots[s] != id || s.0 >= bucket) :: slots[s]
  }

  lemma SetTwice<K, V>(m: map<K, V>, k: K, x: V, y: V)
    ensures m[k := x][k := y] == m[k := y]
  {
  }

  lemma SlotsStep(slots: map<Slot, int>, id: int, bucket: int, pos: int)
    requires forall s :: s in slots && slots[s] == id && s.0 == bucket ==> s.1 == pos
    ensures
      var m, refs := SlotsLeft(slots, id, bucket), RefsLeft(slots, id, bucket);
      if (bucket, pos) in m && m[(bucket, pos)] == id
      then SlotsLeft(slots, id, bucket + 1) == m - {(bucket, pos)} && |RefsLeft(slots, id, bucket + 1)| == |refs| - 1
      else SlotsLeft(slots, id, bucket + 1) == m && RefsLeft(slots, id, bucket + 1) == refs
  {
    var m, refs := SlotsLeft(slots, id, bucket), RefsLeft(slots, id, bucket);
    forall s: Slot | s in refs && s.0 == bucket ensures s == (bucket, pos) {
      assert s == (s.0, s.1);
    }
    if (bucket, pos) in m && m[(bucket, pos)] == id {
      assert RefsLeft(slots, id, bucket + 1) == refs - {(bucket, pos)} && (bucket, pos) in refs;
    } else {
      assert RefsLeft(slots, id, bucket + 1) == refs;
    }
  }

  /** All slots of an entry are in range and where its address hashes to in their bucket. */
  ghost predicate PlacedFor(c: Config, key: int, slots: map<Slot, int>, id: int, service: Service) {
    forall s :: s in slots && slots[s] == id ==>
      0 <= s.0 < c.newBuckets && s.1 == c.position(key, true, s.0, service)
  }

  /** A consistent entry may be removed from all buckets, and nothing is left of it there. */
  lemma RemovalIsUnref(c: Config, key: int, t: Tables, id: int)
    requires NewPlaced(c, key, t) && id in t.info
    ensures PlacedFor(c, key, t.newSlots, id, t.info[id].service)
    ensures RefsLeft(t.newSlots, id, 0) == Refs(t, id)
    ensures SlotsLeft(t.newSlots, id, c.newBuckets) == Unref(t, id).newSlots
  {
    assert forall s :: s in t.newSlots ==> 0 <= s.0 < c.newBuckets;
  }

  lemma UnrefEquals(c: Config, t: Tables, id: int)
    requires id in t.info && forall s :: s in t.newSlots && t.newSlots[s] == id ==> s.0 < c.newBuckets
    ensures SlotsLeft(t.newSlots, id, c.newBuckets) == Unref(t, id).newSlots
  {
  }

  /** The holder of the tried slot of an entry, if any, may be evicted once the entry's own
      references are gone. */
  ghost predicate TriedReady(c: Config, key: int, t: Tables, id: int)
    requires id in t.info
  {
    var slot := TriedSlot(c, key, t.info[id].service);
    slot in t.triedSlots ==> EvictReady(Unref(t, id), t.triedSlots[slot])
  }

  ghost predicate Referenced(t: Tables, id: int) {
    id in t.info && !t.info[id].fInTried && t.info[id].nRefCount > 0
  }

  /** The entry has no reference, and every entry in the new table has one and is not tried. */
  ghost predicate EvictReady(t: Tables, e: int) {
    && e in t.info && t.info[e].nRefCount == 0
    && (forall s :: s in t.newSlots ==> t.newSlots[s] != e)
    && (forall s :: s in t.newSlots ==>
          t.newSlots[s] in t.info && !t.info[t.newSlots[s]].fInTried && t.info[t.newSlots[s]].nRefCount > 0)
  }

  lemma ReenterKeeps(t: Tables, id: int, slot: Slot)
    requires Indexed(t) && EvictReady(t, id)
    ensures var u := AddrTables.ClearNew(t, slot);
            id in u.info && u.info[id].nRefCount == 0 && slot !in u.newSlots
  {
    O.ClearNewEffect(t, slot);
    assert O.Untouched(t, AddrTables.ClearNew(t, slot), id);
  }

  /** Eviction step by step, for any count of new entries. */
  lemma EvictSteps(c: Config, key: int, w: Tables, slot: Slot, n: int)
    requires O.Sound(w) && slot in w.triedSlots && EvictReady(w, w.triedSlots[slot])
    ensures
      var d := Demote(w, slot).(nNew := n);
      var e := w.triedSlots[slot];
      var back := O.BackSlot(c, key, w, slot);
      var u := O.Evict(c, key, w, slot);
      && Indexed(d) && EvictReady(d, e)
      && e in AddrTables.ClearNew(d, back).info
      && AddRef(AddrTables.ClearNew(d, back), e, back) == u.(nNew := u.nNew - w.nNew - 1 + n)
  {
    hide AddrTables.ClearNew, Indexed;
    var d := Demote(w, slot);
    O.SamePositions(w, d);
    DemoteReady(w, slot);
    ClearNewCount(d, n, O.BackSlot(c, key, w, slot));
    assert EvictReady(d.(nNew := n), w.triedSlots[slot]);
    ReenterKeeps(d.(nNew := n), w.triedSlots[slot], O.BackSlot(c, key, w, slot));
  }

  lemma DemoteReady(t: Tables, slot: Slot)
    requires slot in t.triedSlots && EvictReady(t, t.triedSlots[slot])
    ensures EvictReady(Demote(t, slot), t.triedSlots[slot])
  {
    var d := Demote(t, slot);
    forall s | s in d.newSlots
      ensures d.newSlots[s] in d.info && !d.info[d.newSlots[s]].fInTried && d.info[d.newSlots[s]].nRefCount > 0 {
      var x := t.newSlots[s];
      assert x in t.info;
    }
  }

  /** Clearing a slot does the same whatever the count of new entries. */
  lemma ClearNewCount(t: Tables, n: int, slot: Slot)
    requires Indexed(t) && (slot in t.newSlots ==> t.newSlots[slot] in t.info)
    ensures Indexed(t.(nNew := n))
    ensures var u := AddrTables.ClearNew(t, slot);
            AddrTables.ClearNew(t.(nNew := n), slot) == u.(nNew := u.nNew - t.nNew + n)
  {
    O.SamePositions(t, t.(nNew := n));
    if slot in t.newSlots {
      O.DropRefIndexed(t, slot);
      O.DropRefIndexed(t.(nNew := n), slot);
      var u, v := DropRef(t, slot), DropRef(t.(nNew := n), slot);
      assert v == u.(nNew := n);
      hide DropRef;
      if u.info[t.newSlots[slot]].nRefCount == 0 { DeleteCount(u, n, t.newSlots[slot]); }
    }
  }

  /** Neither does deleting an entry depend on the count. */
  lemma DeleteCount(t: Tables, n: int, id: int)
    requires Indexed(t) && id in t.info
    ensures Indexed(t.(nNew := n))
    ensures 0 <= t.info[id].nRandomPos < |t.random| && t.random[t.info[id].nRandomPos] == id
    ensures t.random[|t.random| - 1] in t.info
    ensures AddrTables.Delete(t.(nNew := n), id) == AddrTables.Delete(t, id).(nNew := n - 1)
    ensures AddrTables.Delete(t, id).nNew == t.nNew - 1
  {
    O.SamePositions(t, t.(nNew := n));
    assert t.random[|t.random| - 1] in t.info;
    hide Indexed;
  }

  /** The n-th bucket from a starting one on, round the table. */
  function Turn(n: int, start: int, size: int): (b: int)
    requires 0 <= n < size && 0 <= start < size
    ensures 0 <= b < size
    ensures b == if n + start < size then n + start else n + start - size
  {
    (n + start) % size
  }

  ghost predicate Holds(c: Config, key: int, slots: map<Slot, int>, id: int, service: Service, b: int) {
    var s := (b, c.position(key, true, b, service));
    s in slots && slots[s] == id
  }

  lemma NotHeld(c: Config, key: int, slots: map<Slot, int>, id: int, service: Service, start: int)
    requires 0 <= start < c.newBuckets && PlacedFor(c, key, slots, id, service)
    requires forall m :: 0 <= m < c.newBuckets ==> !Holds(c, key, slots, id, service, Turn(m, start, c.newBuckets))
    ensures id !in slots.Values
  {
    if id in slots.Values {
      var s :| s in slots && slots[s] == id;
      assert s == (s.0, s.1);
      var m := if s.0 >= start then s.0 - start else s.0 - start + c.newBuckets;
      assert Turn(m, start, c.newBuckets) == s.0 && Holds(c, key, slots, id, service, s.0);
    }
  }

  /** In consistent tables every new entry is in some bucket and ready to be moved. */
  lemma InvTriedReady(c: Config, key: int, t: Tables, id: int)
    requires InvPend(c, key, t, {}) && id in t.info && !t.info[id].fInTried
    ensures O.RoomReady(c, key, t, id) && id != -1
    ensures PlacedFor(c, key, t.newSlots, id, t.info[id].service)
    ensures t.info[id].nRefCount == |RefsLeft(t.newSlots, id, 0)|
    ensures TriedReady(c, key, t, id)
    ensures id in t.newSlots.Values
  {
    O.InvRoomReady(c, key, t, id);
    RemovalIsUnref(c, key, t, id);
    assert |Refs(t, id)| > 0;
    var s :| s in Refs(t, id);
    UnrefReady(c, key, t, id);
  }

  lemma UnrefReady(c: Config, key: int, t: Tables, id: int)
    requires TriedExact(c, key, t) && NewPlaced(c, key, t) && RefCounts(c, t, {})
    requires id in t.info && !t.info[id].fInTried && O.RoomReady(c, key, t, id)
    ensures TriedReady(c, key, t, id)
  {
    var slot := TriedSlot(c, key, t.info[id].service);
    var w := Unref(t, id);
    forall s | s in w.newSlots
      ensures w.newSlots[s] in w.info && !w.info[w.newSlots[s]].fInTried && w.info[w.newSlots[s]].nRefCount > 0 {
      var x := t.newSlots[s];
      assert x in t.info && x != id && s in Refs(t, x);
    }
  }

  lemma NewSlotInRange(c: Config, key: int, s: Service, source: NetAddr)
    requires c.Valid()
    ensures var slot := NewSlot(c, key, s, source);
            0 <= slot.0 < c.newBuckets && 0 <= slot.1 < c.bucketSize
  {
  }

  ghost predicate AllReferenced(t: Tables) {
    forall s :: s in t.newSlots ==> Referenced(t, t.newSlots[s])
  }

  lemma PlaceKeeps(t: Tables, id: int, slot: Slot)
    requires O.Sound(t) && id in t.info && (slot in t.newSlots ==> t.newSlots[slot] != id)
    ensures id in AddrTables.ClearNew(t, slot).info
  {
    O.ClearNewEffect(t, slot);
    assert O.Untouched(t, AddrTables.ClearNew(t, slot), id);
  }

  /** In consistent tables an entry may be placed, also one that is still pending. */
  lemma InvPlaceReady(c: Config, key: int, t: Tables, pend: set<int>)
    requires InvPend(c, key, t, pend)
    ensures O.Sound(t) && AllReferenced(t)
    ensures forall id :: id in t.info ==> 0 < |t.random|
    ensures -1 !in t.info
  {
    O.InvIsSound(c, key, t, pend);
    forall s | s in t.newSlots ensures Referenced(t, t.newSlots[s]) {
      assert s in Refs(t, t.newSlots[s]);
    }
    forall id | id in t.info ensures 0 < |t.random| {
      assert 0 <= t.info[id].nRandomPos < |t.random|;
    }
  }

  lemma SeenParts(i: Info, addr: Address, now: int, penalty: int)
    ensures O.Seen(i, addr, now, penalty) ==
            i.(nTime := O.Seen(i, addr, now, penalty).nTime, nServices := i.nServices | addr.nServices)
  {
  }

  lemma SameTime(i: Info)
    ensures i == i.(nTime := i.nTime)
  {
  }

  lemma SeenPlace(i: Info, addr: Address, now: int, penalty: int)
    ensures SamePlace(i, O.Seen(i, addr, now, penalty))
  {
  }
}
