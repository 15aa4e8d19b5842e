/**
 Handing out addresses, the effect of each operation on the other entries, and consistency
 over every run of the address manager.
 */
module AddrRuns {
  import opened AddrTables
  import opened AddrInvariant
  import opened AddrOps

  const GETADDR_MAX_PCT := 23
  const GETADDR_MAX := 2500

  function GetAddrLimit(size: nat): nat {
    var n := GETADDR_MAX_PCT * size / 100;
    if n > GETADDR_MAX then GETADDR_MAX else n
  }

  function AddressOf(i: Info): Address { Address(i.service, i.nServices, i.nTime) }

  /** A position drawn from those at or after n. */
  function Draw(rand: nat -> nat, n: nat, size: nat): (j: nat)
    requires n < size
    ensures n <= j < size
  {
    rand(n) % (size - n) + n
  }

  lemma SwapLength(t: Tables, i: int, j: int)
    requires 0 <= i < |t.random| && 0 <= j < |t.random| && t.random[i] in t.info && t.random[j] in t.info
    ensures |SwapRandom(t, i, j).random| == |t.random|
  {
  }

  /** The walk over the random order from position n on: each position is first filled with
      an entry drawn from the rest, and taken unless it is terrible. */
  function Gather(t: Tables, n: nat, out: seq<Address>, limit: nat, now: int, rand: nat -> nat)
    : (Tables, seq<Address>)
    requires Indexed(t) && n <= |t.random|
    decreases |t.random| - n
  {
    if n == |t.random| || |out| >= limit then (t, out)
    else
      var j := Draw(rand, n, |t.random|);
      SwapRandomIndexed(t, n, j);
      var u := SwapRandom(t, n, j);
      var i := u.info[u.random[n]];
      Gather(u, n + 1, if IsTerrible(i, now) then out else out + [AddressOf(i)], limit, now, rand)
  }

  function GetAddr(t: Tables, now: int, rand: nat -> nat): (Tables, seq<Address>)
    requires Indexed(t)
  {
    Gather(t, 0, [], GetAddrLimit(|t.random|), now, rand)
  }

  /** The same entries in another random order. */
  ghost predicate Reordered(t: Tables, u: Tables) {
    && Indexed(u)
    && u.info.Keys == t.info.Keys
    && (forall id :: id in t.info ==> u.info[id] == t.info[id].(nRandomPos := u.info[id].nRandomPos))
    && u == t.(info := u.info, random := u.random)
  }

  lemma ReorderedTwice(t: Tables, u: Tables, v: Tables)
    requires Reordered(t, u) && Reordered(u, v)
    ensures Reordered(t, v)
  {
    forall id | id in t.info ensures v.info[id] == t.info[id].(nRandomPos := v.info[id].nRandomPos) {
      assert id in u.info;
    }
  }

  lemma {:induction false} GatherReorders(t: Tables, n: nat, out: seq<Address>, limit: nat, now: int, rand: nat -> nat)
    requires Indexed(t) && n <= |t.random|
    ensures Reordered(t, Gather(t, n, out, limit, now, rand).0)
    decreases |t.random| - n
  {
    if n < |t.random| && |out| < limit {
      var j := Draw(rand, n, |t.random|);
      SwapRandomIndexed(t, n, j);
      SwapRandomMoves(t, n, j);
      var u := SwapRandom(t, n, j);
      var i := u.info[u.random[n]];
      var out' := if IsTerrible(i, now) then out else out + [AddressOf(i)];
      GatherReorders(u, n + 1, out', limit, now, rand);
      ReorderedTwice(t, u, Gather(u, n + 1, out', limit, now, rand).0);
    }
  }

  lemma ReorderedInv(c: Config, key: int, t: Tables, u: Tables)
    requires Inv(c, key, t) && Reordered(t, u)
    ensures Inv(c, key, u)
  {
    SameButOrder(c, key, t, u, {});
    forall id | id in u.info ensures GoodStats(u.info[id]) { assert id in t.info && GoodStats(t.info[id]); }
  }

  /** The addresses of the entries at the first n random positions that are not terrible. */
  function Taken(t: Tables, n: nat, now: int): seq<Address>
    requires Indexed(t) && n <= |t.random|
  {
    if n == 0 then []
    else
      var i := t.info[t.random[n - 1]];
      Taken(t, n - 1, now) + (if IsTerrible(i, now) then [] else [AddressOf(i)])
  }

  /** Swapping at positions from n on does not disturb what was taken before. */
  lemma {:induction false} TakenStays(t: Tables, n: nat, i: int, j: int, now: int)
    requires Indexed(t) && n <= i < |t.random| && i <= j < |t.random|
    ensures Indexed(SwapRandom(t, i, j))
    ensures Taken(SwapRandom(t, i, j), n, now) == Taken(t, n, now)
  {
    SwapRandomIndexed(t, i, j);
    SwapRandomMoves(t, i, j);
    if n > 0 {
      TakenStays(t, n - 1, i, j, now);
      var u := SwapRandom(t, i, j);
      assert u.random[n - 1] == t.random[n - 1];
      var id := t.random[n - 1];
      assert id in t.info && u.info[id] == t.info[id].(nRandomPos := u.info[id].nRandomPos);
    }
  }

  /** What is handed out are the acceptable entries of a prefix of the final random order,
      which is the whole order unless the limit was reached. */
  lemma {:induction false} GatherTakes(t: Tables, n: nat, out: seq<Address>, limit: nat, now: int, rand: nat -> nat)
    returns (m: nat)
    requires Indexed(t) && n <= |t.random| && out == Taken(t, n, now) && |out| <= limit
    ensures var (u, r) := Gather(t, n, out, limit, now, rand);
            && Indexed(u) && |u.random| == |t.random| && n <= m <= |u.random|
            && r == Taken(u, m, now)
            && |r| <= limit
            && (m < |u.random| ==> |r| == limit)
    decreases |t.random| - n
  {
    if n == |t.random| || |out| >= limit {
      m := n;
    } else {
      var j := Draw(rand, n, |t.random|);
      TakenStays(t, n, n, j, now);
      var u := SwapRandom(t, n, j);
      assert |u.random| == |t.random|;
      var i := u.info[u.random[n]];
      var out' := if IsTerrible(i, now) then out else out + [AddressOf(i)];
      assert out' == Taken(u, n + 1, now);
      m := GatherTakes(u, n + 1, out', limit, now, rand);
    }
  }

  predicate IsTakenAt(t: Tables, k: nat, now: int, a: Address)
    requires Indexed(t) && k < |t.random|
  {
    var i := t.info[t.random[k]];
    !IsTerrible(i, now) && a == AddressOf(i)
  }

  lemma {:induction false} TakenFrom(t: Tables, n: nat, now: int, a: Address)
    requires Indexed(t) && n <= |t.random|
    ensures a in Taken(t, n, now) <==>
            exists k :: 0 <= k < n && IsTakenAt(t, k, now, a)
  {
    if n > 0 {
      TakenFrom(t, n - 1, now, a);
      assert a in Taken(t, n, now) <==>
             a in Taken(t, n - 1, now)
             || IsTakenAt(t, n - 1, now, a);
    }
  }

  lemma PositionsGiveHosts(t: Tables, i: int, j: int)
    requires Indexed(t) && HostInverse(t) && 0 <= i < j < |t.random|
    ensures t.info[t.random[i]].service.host != t.info[t.random[j]].service.host
  {
    var x, y := t.random[i], t.random[j];
    assert x in t.info && y in t.info && t.info[x].nRandomPos == i && t.info[y].nRandomPos == j;
    assert t.byHost[t.info[y].service.host] == y && t.byHost[t.info[x].service.host] == x;
  }

  ghost predicate DistinctHosts(r: seq<Address>) {
    forall i, j :: 0 <= i < j < |r| ==> r[i].service.host != r[j].service.host
  }

  lemma {:induction false} TakenDistinct(t: Tables, n: nat, now: int)
    requires Indexed(t) && HostInverse(t) && n <= |t.random|
    ensures DistinctHosts(Taken(t, n, now))
  {
    if n > 0 {
      TakenDistinct(t, n - 1, now);
      var r := Taken(t, n - 1, now);
      var x := t.random[n - 1];
      forall i | 0 <= i < |r| ensures r[i].service.host != t.info[x].service.host {
        TakenFrom(t, n - 1, now, r[i]);
        assert r[i] in r;
        var k :| 0 <= k < n - 1 && IsTakenAt(t, k, now, r[i]);
        PositionsGiveHosts(t, k, n - 1);
      }
      var all := Taken(t, n, now);
      forall i, j | 0 <= i < j < |all| ensures all[i].service.host != all[j].service.host {
        assert all[i] == r[i];
        assert j < |r| ==> all[j] == r[j];
      }
    }
  }

  /** An acceptable entry that holds address a. */
  ghost predicate HasAddress(t: Tables, now: int, a: Address) {
    exists id :: id in t.info && !IsTerrible(t.info[id], now) && IsOf(t.info[id], a)
  }

  ghost predicate IsOf(i: Info, a: Address) {
    a.service == i.service && a.nServices == i.nServices && a.nTime == i.nTime
  }

  /** So many addresses that one more would be too many: more than 2500, or than 23 out of 100 entries. */
  ghost predicate AtLimit(n: nat, entries: nat) { n + 1 > 2500 || 100 * (n + 1) > 23 * entries }

  lemma TakenMeansHas(t: Tables, u: Tables, m: nat, now: int, a: Address)
    requires Indexed(t) && Reordered(t, u) && m <= |u.random|
    ensures a in Taken(u, m, now) ==> HasAddress(t, now, a)
    ensures m == |u.random| && HasAddress(t, now, a) ==> a in Taken(u, m, now)
  {
    TakenFrom(u, m, now, a);
    if a in Taken(u, m, now) {
      var k :| 0 <= k < m && IsTakenAt(u, k, now, a);
      var id := u.random[k];
      assert id in t.info && IsOf(t.info[id], a) && !IsTerrible(t.info[id], now);
    }
    if m == |u.random| && HasAddress(t, now, a) {
      var id :| id in t.info && !IsTerrible(t.info[id], now) && IsOf(t.info[id], a);
      assert id in u.info && AddressOf(t.info[id]) == a;
      assert IsTakenAt(u, u.info[id].nRandomPos, now, a);
    }
  }

  /** Handing out addresses gives at most the allowed number, no host twice, only acceptable
      entries, and all of them when the limit is not reached; the tables are only reordered. */
  lemma GetAddrSpec(c: Config, key: int, t: Tables, now: int, rand: nat -> nat)
    requires Inv(c, key, t)
    ensures var (u, r) := GetAddr(t, now, rand);
            && Inv(c, key, u)
            && Reordered(t, u)
            && |r| <= 2500 && 100 * |r| <= 23 * |t.random|
            && DistinctHosts(r)
            && (forall a :: a in r ==> HasAddress(t, now, a))
            && (!AtLimit(|r|, |t.random|) ==> forall a :: HasAddress(t, now, a) ==> a in r)
  {
    var limit := GetAddrLimit(|t.random|);
    var (u, r) := GetAddr(t, now, rand);
    GatherReorders(t, 0, [], limit, now, rand);
    ReorderedInv(c, key, t, u);
    var m := GatherTakes(t, 0, [], limit, now, rand);
    TakenDistinct(u, m, now);
    forall a ensures a in r ==> HasAddress(t, now, a)
             ensures |r| < limit && HasAddress(t, now, a) ==> a in r {
      TakenMeansHas(t, u, m, now, a);
    }
  }

  lemma {:induction false} GatherExtends(t: Tables, n: nat, out: seq<Address>, limit: nat, now: int, rand: nat -> nat)
    requires Indexed(t) && n <= |t.random|
    ensures out <= Gather(t, n, out, limit, now, rand).1
    decreases |t.random| - n
  {
    if n < |t.random| && |out| < limit {
      var j := Draw(rand, n, |t.random|);
      SwapRandomIndexed(t, n, j);
      var u := SwapRandom(t, n, j);
      var i := u.info[u.random[n]];
      GatherExtends(u, n + 1, if IsTerrible(i, now) then out else out + [AddressOf(i)], limit, now, rand);
    }
  }

  /** Any acceptable entry may be drawn first, from as few as five entries on. */
  lemma AnyoneMayBeFirst(t: Tables, id: int, now: int) returns (rand: nat -> nat)
    requires Indexed(t) && id in t.info && !IsTerrible(t.info[id], now) && |t.random| >= 5
    ensures var r := GetAddr(t, now, rand).1;
            r != [] && IsOf(t.info[id], r[0])
  {
    var k := t.info[id].nRandomPos;
    rand := n => k;
    assert rand(0) == k;
    FirstOf(t, id, k, now, rand);
  }

  lemma FirstOf(t: Tables, id: int, k: nat, now: int, rand: nat -> nat)
    requires Indexed(t) && id in t.info && !IsTerrible(t.info[id], now) && |t.random| >= 5
    requires k == t.info[id].nRandomPos && rand(0) == k
    ensures var r := GetAddr(t, now, rand).1;
            r != [] && IsOf(t.info[id], r[0])
  {
    var limit := GetAddrLimit(|t.random|);
    assert limit > 0;
    FirstSwapped(t, id, now);
    hide Gather, SwapRandom, IsTerrible, IsOf, GetAddrLimit, AddressOf;
    assert k < |t.random|;
    FirstGathered(t, k, limit, now, rand);
    var u := SwapRandom(t, 0, k);
    hide Indexed;
    GatherExtends(u, 1, [AddressOf(u.info[id])], limit, now, rand);
    StartsWith([AddressOf(u.info[id])], Gather(u, 1, [AddressOf(u.info[id])], limit, now, rand).1);
  }

  lemma StartsWith(a: seq<Address>, b: seq<Address>)
    requires |a| == 1 && a <= b
    ensures b != [] && b[0] == a[0]
  {
  }

  lemma FirstDraw(rand: nat -> nat, size: nat)
    requires rand(0) < size
    ensures Draw(rand, 0, size) == rand(0)
  {
  }

  lemma FirstGathered(t: Tables, k: nat, limit: nat, now: int, rand: nat -> nat)
    requires Indexed(t) && k < |t.random| && limit > 0 && rand(0) == k
    ensures Indexed(SwapRandom(t, 0, k))
    ensures
      var u := SwapRandom(t, 0, k);
      |u.random| == |t.random| && u.random[0] in u.info && (!IsTerrible(u.info[u.random[0]], now) ==>
        Gather(t, 0, [], limit, now, rand) == Gather(u, 1, [AddressOf(u.info[u.random[0]])], limit, now, rand))
  {
    SwapRandomIndexed(t, 0, k);
    FirstDraw(rand, |t.random|);
    hide Draw;
    var a := AddressOf(SwapRandom(t, 0, k).info[SwapRandom(t, 0, k).random[0]]);
    assert [] + [a] == [a];
  }

  lemma FirstSwapped(t: Tables, id: int, now: int)
    requires Indexed(t) && id in t.info && !IsTerrible(t.info[id], now)
    ensures
      var u := SwapRandom(t, 0, t.info[id].nRandomPos);
      && |u.random| == |t.random| > 0 && u.random[0] == id && id in u.info
      && !IsTerrible(u.info[id], now) && IsOf(t.info[id], AddressOf(u.info[id]))
  {
  }

  // ------------------------------------------------------------ what one call does to the rest

  /** After a confirmation of a new entry it holds its own tried slot and no new-table slot;
      if that tried slot was free, no other entry is affected. */
  lemma GoodPromotes(c: Config, key: int, t: Tables, s: Service, nTime: int)
    requires c.Valid() && Inv(c, key, t) && Known(t, s) && !t.info[t.byHost[s.host]].fInTried
    ensures
      var u := Good(c, key, t, s, nTime);
      var id := t.byHost[s.host];
      var slot := TriedSlot(c, key, s);
      && id in u.info && u.info[id].fInTried && u.info[id].nRefCount == 0
      && u.triedSlots == t.triedSlots[slot := id]
      && slot == (c.triedBucket(key, s), c.position(key, false, c.triedBucket(key, s), s))
      && (slot !in t.triedSlots ==> forall x :: x in t.info && x != id ==> Untouched(t, u, x))
  {
    var id := t.byHost[s.host];
    var info := Succeeded(t.info[id], nTime);
    var w := WithInfo(t, id, info);
    UpdateInv(c, key, t, id, info, {});
    InvRoomReady(c, key, w, id);
    MakeTriedRecords(c, key, w, id);
  }

  /** If the tried slot was held, its holder is back in the new table with exactly one
      reference, and besides it only the entry that was in that place can be affected. */
  lemma GoodEvicts(c: Config, key: int, t: Tables, s: Service, nTime: int)
    requires c.Valid() && Inv(c, key, t) && Known(t, s) && !t.info[t.byHost[s.host]].fInTried
    requires TriedSlot(c, key, s) in t.triedSlots
    ensures
      var u := Good(c, key, t, s, nTime);
      var id := t.byHost[s.host];
      var e := t.triedSlots[TriedSlot(c, key, s)];
      var back := BackSlot(c, key, t, TriedSlot(c, key, s));
      && e in u.info && !u.info[e].fInTried && u.info[e].nRefCount == 1
      && back in u.newSlots && u.newSlots[back] == e
      && back.0 == c.newBucket(key, t.info[e].service, t.info[e].source)
      && back.1 == c.position(key, true, back.0, t.info[e].service)
      && (forall x :: x in t.info && x != id && x != e && (back in t.newSlots ==> x != t.newSlots[back])
            ==> Untouched(t, u, x))
  {
    var id := t.byHost[s.host];
    var info := Succeeded(t.info[id], nTime);
    var w := WithInfo(t, id, info);
    UpdateInv(c, key, t, id, info, {});
    var slot := TriedSlot(c, key, s);
    MakeTriedEvicts(c, key, w, id, slot);
    hide Indexed, NewPlaced, RefCounts, TriedExact, Counters, Stats, HostInverse;
    var u := Good(c, key, t, s, nTime);
    var e := t.triedSlots[slot];
    var back := BackSlot(c, key, t, slot);
    assert t.info[e].fInTried && e != id && back == BackSlot(c, key, w, slot);
    forall x | x in t.info && x != id && x != e && (back in t.newSlots ==> x != t.newSlots[back])
      ensures Untouched(t, u, x) { assert Untouched(w, u, x); }
  }

  lemma MakeTriedEvicts(c: Config, key: int, t: Tables, id: int, slot: Slot)
    requires c.Valid() && InvPend(c, key, t, {}) && id in t.info && !t.info[id].fInTried
    requires slot == TriedSlot(c, key, t.info[id].service) && slot in t.triedSlots
    ensures RoomReady(c, key, t, id)
    ensures
      var u := MakeTried(c, key, t, id);
      var e := t.triedSlots[slot];
      var back := BackSlot(c, key, t, slot);
      && e in t.info && t.info[e].fInTried
      && e in u.info && !u.info[e].fInTried && u.info[e].nRefCount == 1
      && back in u.newSlots && u.newSlots[back] == e
      && (forall x :: x in t.info && x != id && x != e && (back in t.newSlots ==> x != t.newSlots[back])
            ==> Untouched(t, u, x))
  {
    InvRoomReady(c, key, t, id);
    var e := t.triedSlots[slot];
    var w := Unref(t, id);
    var u := MakeTried(c, key, t, id);
    EvictEffect(c, key, w, slot);
    var back := BackSlot(c, key, t, slot);
    assert back == BackSlot(c, key, w, slot);
    forall x | x in t.info && x != id && x != e && (back in t.newSlots ==> x != t.newSlots[back])
      ensures Untouched(t, u, x) {
      EvictUntouched(c, key, w, slot, x);
      assert Untouched(w, Evict(c, key, w, slot), x);
    }
  }

  /** An announcement is answered with true exactly for a routable address of an unknown
      host; that answer does not mean that the address was kept, which it is exactly when
      its place was free or held by a terrible or multiply referenced entry. */
  lemma AddOutcome(c: Config, key: int, t: Tables, addr: Address, source: NetAddr, penalty: int, now: int, draw: nat)
    requires c.Valid() && Inv(c, key, t)
    ensures
      var (u, added) := Add(c, key, t, addr, source, penalty, now, draw);
      var slot := NewSlot(c, key, addr.service, source);
      var host := addr.service.host;
      && (added <==> c.routable(host) && host !in t.byHost)
      && (added ==>
            (host in u.byHost <==>
               (slot in t.newSlots ==>
                  IsTerrible(t.info[t.newSlots[slot]], now) || t.info[t.newSlots[slot]].nRefCount > 1)))
  {
    var host := addr.service.host;
    if c.routable(host) && host !in t.byHost {
      var nTime := U32(Max0(addr.nTime - penalty));
      CreateNewInv(c, key, t, addr, source, nTime);
      var v := CreateNew(t, addr, source, nTime);
      InvIsSound(c, key, v, {t.idCount});
      PlaceKeepsHost(c, key, v, t.idCount, source, now);
      var slot := NewSlot(c, key, addr.service, source);
      if slot in t.newSlots { assert t.newSlots[slot] in t.info; }
    }
  }

  lemma PlaceKeepsHost(c: Config, key: int, t: Tables, id: int, source: NetAddr, now: int)
    requires c.Valid() && InvPend(c, key, t, {id}) && Sound(t) && 0 < |t.random|
    requires id in t.info && !t.info[id].fInTried && t.info[id].nRefCount == 0
    ensures var slot := NewSlot(c, key, t.info[id].service, source);
            t.info[id].service.host in Place(c, key, t, id, source, now).byHost <==> MayPlace(t, id, slot, now)
  {
    var slot := NewSlot(c, key, t.info[id].service, source);
    var u := Place(c, key, t, id, source, now);
    PlaceInv(c, key, t, id, source, now);
    assert |Refs(t, id)| == 0 && slot !in Refs(t, id);
    if MayPlace(t, id, slot, now) {
      ClearNewEffect(t, slot);
      assert Untouched(t, ClearNew(t, slot), id);
      assert u.info[id].service == t.info[id].service;
    } else {
      DeleteEffect(t, id);
    }
  }

  // ------------------------------------------------------------ every run

  datatype Op =
    | OpAdd(addr: Address, source: NetAddr, penalty: int, now: int, draw: nat)
    | OpGood(s: Service, nTime: int)
    | OpAttempt(s: Service, nTime: int)
    | OpConnected(s: Service, nTime: int)
    | OpGetAddr(now: int, rand: nat -> nat)

  /** Times are positive when a success is recorded and not negative for an attempt. */
  predicate Legal(op: Op) {
    match op
    case OpGood(_, nTime) => nTime > 0
    case OpAttempt(_, nTime) => nTime >= 0
    case _ => true
  }

  function Apply(c: Config, key: int, t: Tables, op: Op): Tables
    requires c.Valid() && Inv(c, key, t)
  {
    match op
    case OpAdd(addr, source, penalty, now, draw) => Add(c, key, t, addr, source, penalty, now, draw).0
    case OpGood(s, nTime) => Good(c, key, t, s, nTime)
    case OpAttempt(s, nTime) => Attempt(t, s, nTime)
    case OpConnected(s, nTime) => Connected(t, s, nTime)
    case OpGetAddr(now, rand) => GetAddr(t, now, rand).0
  }

  lemma ApplyInv(c: Config, key: int, t: Tables, op: Op)
    requires c.Valid() && Inv(c, key, t) && Legal(op)
    ensures Inv(c, key, Apply(c, key, t, op))
  {
    match op
    case OpAdd(addr, source, penalty, now, draw) => AddInv(c, key, t, addr, source, penalty, now, draw);
    case OpGood(s, nTime) => GoodInv(c, key, t, s, nTime);
    case OpAttempt(s, nTime) => AttemptInv(c, key, t, s, nTime);
    case OpConnected(s, nTime) => ConnectedInv(c, key, t, s, nTime);
    case OpGetAddr(now, rand) => GetAddrSpec(c, key, t, now, rand);
  }

  /** From a new manager, every run of legal operations, whatever the hashes, times and
      random draws, leaves consistent tables. */
  function Run(c: Config, key: int, ops: seq<Op>): (t: Tables)
    requires c.Valid() && forall op :: op in ops ==> Legal(op)
    ensures Inv(c, key, t)
  {
    if ops == [] then
      EmptyInv(c, key);
      EMPTY
    else
      var t := Run(c, key, ops[..|ops| - 1]);
      ApplyInv(c, key, t, ops[|ops| - 1]);
      Apply(c, key, t, ops[|ops| - 1])
  }
}
