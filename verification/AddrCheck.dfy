/**
 The manager's own consistency check, phase by phase, and its exact relation to the
 invariant that the operations keep.
 */
module AddrCheck {
  import opened AddrTables
  import opened AddrInvariant
  import opened AddrSlots

  /** What the first loop asks of one entry. A host missing from the index reads as id 0. */
  predicate EntryOk(c: Config, t: Tables, id: int)
    requires id in t.info
  {
    var i := t.info[id];
    && (if i.fInTried then i.nLastSuccess != 0 && i.nRefCount == 0 else 0 < i.nRefCount <= c.newPerAddress)
    && HostId(t.byHost, i.service.host) == id
    && 0 <= i.nRandomPos < |t.random| && t.random[i.nRandomPos] == id
    && i.nLastTry >= 0 && i.nLastSuccess >= 0
  }

  function HostId(byHost: map<NetAddr, int>, h: NetAddr): int { if h in byHost then byHost[h] else 0 }

  /** Looking a host up enters it when it is missing. */
  function Looked(byHost: map<NetAddr, int>, h: NetAddr): map<NetAddr, int> {
    if h in byHost then byHost else byHost[h := 0]
  }

  /** The same ids are read from both indexes. */
  ghost predicate SameIds(a: map<NetAddr, int>, b: map<NetAddr, int>) {
    (forall h :: HostId(a, h) == HostId(b, h)) && a.Keys <= b.Keys
  }

  /** What is wrong with an entry itself, what with its host, and what with the rest of it. */
  function EntryCode(c: Config, t: Tables, id: int): int
    requires id in t.info
  {
    var i := t.info[id];
    if i.fInTried && i.nLastSuccess == 0 then -1
    else if i.fInTried && i.nRefCount != 0 then -2
    else if !i.fInTried && (i.nRefCount < 0 || i.nRefCount > c.newPerAddress) then -3
    else if !i.fInTried && i.nRefCount == 0 then -4
    else if HostId(t.byHost, i.service.host) != id then -5
    else if i.nRandomPos < 0 || i.nRandomPos >= |t.random| || t.random[i.nRandomPos] != id then -14
    else if i.nLastTry < 0 then -6
    else if i.nLastSuccess < 0 then -8
    else 0
  }

  /** New-table slots hold new entries in place, each as often as its reference count says. */
  ghost predicate NewExact(c: Config, key: int, t: Tables) {
    && (forall s :: s in t.newSlots ==>
          && t.newSlots[s] in NewIds(t)
          && s.1 == c.position(key, true, s.0, t.info[t.newSlots[s]].service))
    && (forall id :: id in NewIds(t) ==> |Refs(t, id)| == t.info[id].nRefCount)
  }

  ghost predicate CheckOk(c: Config, key: int, t: Tables) {
    && |t.random| == t.nTried + t.nNew
    && (forall id :: id in t.info ==> EntryOk(c, t, id))
    && Counters(t)
    && TriedExact(c, key, t)
    && NewExact(c, key, t)
    && key != 0
  }

  /** The first complaint about one entry, or 0, and the index after the host was looked up. */
  method CheckEntry(c: Config, t: Tables, n: int, mapAddr: map<NetAddr, int>)
    returns (err: int, mapAddr1: map<NetAddr, int>)
    requires n in t.info && SameIds(t.byHost, mapAddr)
    ensures err == EntryCode(c, t, n) && (err == 0 <==> EntryOk(c, t, n))
    ensures mapAddr1 == if -4 <= err <= -1 then mapAddr else Looked(mapAddr, t.info[n].service.host)
    ensures SameIds(t.byHost, mapAddr1)
  {
    var info := t.info[n];
    mapAddr1 := mapAddr;
    if info.fInTried {
      if info.nLastSuccess == 0 { return -1, mapAddr1; }
      if info.nRefCount != 0 { return -2, mapAddr1; }
    } else {
      if info.nRefCount < 0 || info.nRefCount > c.newPerAddress { return -3, mapAddr1; }
      if info.nRefCount == 0 { return -4, mapAddr1; }
    }
    assert HostId(t.byHost, info.service.host) == HostId(mapAddr, info.service.host);
    mapAddr1 := Looked(mapAddr1, info.service.host);
    if mapAddr1[info.service.host] != n { return -5, mapAddr1; }
    if info.nRandomPos < 0 || info.nRandomPos >= |t.random| || t.random[info.nRandomPos] != n { return -14, mapAddr1; }
    if info.nLastTry < 0 { return -6, mapAddr1; }
    if info.nLastSuccess < 0 { return -8, mapAddr1; }
    return 0, mapAddr1;
  }

  predicate Least(s: set<int>, x: int) { x in s && forall y :: y in s ==> x <= y }

  lemma {:induction false} LeastExists(s: set<int>)
    requires s != {}
    ensures exists x :: Least(s, x)
  {
    assert (forall x :: x !in s) ==> s == {};
    var x :| x in s;
    var rest := s - {x};
    if rest == {} {
      forall y | y in s ensures x <= y { assert y !in rest; }
      assert Least(s, x);
    } else {
      LeastExists(rest);
      var y :| Least(rest, y);
      LeastOf(s, x, y);
    }
  }

  lemma LeastOf(s: set<int>, x: int, y: int)
    requires x in s && Least(s - {x}, y)
    ensures Least(s, if x < y then x else y)
  {
    forall z | z in s && z != x ensures y <= z { assert z in s - {x}; }
  }

  /** The index after all entries have passed: only the host of id 0 can have been entered. */
  function AfterCheck(t: Tables): map<NetAddr, int> {
    if 0 in t.info then Looked(t.byHost, t.info[0].service.host) else t.byHost
  }

  /** Entry id is the first, in the order of the ids, that something is wrong with. */
  ghost predicate FirstBad(c: Config, t: Tables, id: int) {
    id in t.info && !EntryOk(c, t, id) && forall x :: x in t.info && x < id ==> EntryOk(c, t, x)
  }

  /** The first loop: each entry by itself, sorting the ids into tried and new. */
  method CheckEntries(c: Config, t: Tables)
    returns (err: int, setTried: set<int>, mapNew: map<int, int>, mapAddr: map<NetAddr, int>)
    ensures err == 0 <==> forall id :: id in t.info ==> EntryOk(c, t, id)
    ensures err == 0 ==> setTried == TriedIds(t) && mapNew == Wanted(t) && mapAddr == AfterCheck(t)
    ensures err != 0 ==> exists id :: FirstBad(c, t, id) && err == EntryCode(c, t, id)
    ensures SameIds(t.byHost, mapAddr)
  {
    hide EntryOk, EntryCode, Least, SortedOut, Wanted, TriedIds;
    SortedNone(t);
    setTried, mapNew, mapAddr := {}, map[], t.byHost;
    var todo := t.info.Keys;
    while todo != {}
      invariant todo <= t.info.Keys && SameIds(t.byHost, mapAddr)
      invariant forall id :: id in t.info && id !in todo ==> EntryOk(c, t, id)
      invariant forall x, y :: x in t.info && x !in todo && y in todo ==> x < y
      invariant SortedOut(t, todo, setTried, mapNew)
      invariant mapAddr == if 0 in t.info && 0 !in todo then AfterCheck(t) else t.byHost
      decreases |todo|
    {
      LeastExists(todo);
      var n :| Least(todo, n);
      LeastIs(todo, n);
      err, mapAddr := CheckEntry(c, t, n, mapAddr);
      if err != 0 {
        assert FirstBad(c, t, n);
        return;
      }
      EntryHost(c, t, n);
      SortedNext(t, todo, setTried, mapNew, n);
      if t.info[n].fInTried {
        setTried := setTried + {n};
      } else {
        mapNew := mapNew[n := t.info[n].nRefCount];
      }
      todo := todo - {n};
    }
    err := 0;
    SortedAll(t, setTried, mapNew);
  }

  /** The entries that are not to do are sorted into tried and new. */
  ghost predicate SortedOut(t: Tables, todo: set<int>, setTried: set<int>, mapNew: map<int, int>) {
    && (forall id :: id in setTried <==> id in t.info && id !in todo && t.info[id].fInTried)
    && (forall id :: id in mapNew <==> id in t.info && id !in todo && !t.info[id].fInTried)
    && (forall id :: id in mapNew ==> mapNew[id] == t.info[id].nRefCount)
  }

  lemma SortedNone(t: Tables)
    ensures SortedOut(t, t.info.Keys, {}, map[])
  {
  }

  lemma SortedNext(t: Tables, todo: set<int>, setTried: set<int>, mapNew: map<int, int>, n: int)
    requires SortedOut(t, todo, setTried, mapNew) && n in todo && n in t.info
    ensures if t.info[n].fInTried then SortedOut(t, todo - {n}, setTried + {n}, mapNew)
            else SortedOut(t, todo - {n}, setTried, mapNew[n := t.info[n].nRefCount])
  {
  }

  lemma SortedAll(t: Tables, setTried: set<int>, mapNew: map<int, int>)
    requires SortedOut(t, {}, setTried, mapNew)
    ensures setTried == TriedIds(t) && mapNew == Wanted(t)
  {
    forall id ensures id in setTried <==> id in TriedIds(t) {}
    forall id ensures id in mapNew <==> id in Wanted(t)
              ensures id in mapNew ==> mapNew[id] == Wanted(t)[id] {}
    assert setTried == TriedIds(t) && mapNew == Wanted(t);
  }

  lemma LeastIs(s: set<int>, x: int)
    requires Least(s, x)
    ensures x in s && forall y :: y in s ==> x <= y
  {
  }

  /** An entry that passes is in the index, unless its id is 0. */
  lemma EntryHost(c: Config, t: Tables, id: int)
    requires id in t.info && EntryOk(c, t, id)
    ensures id != 0 ==> t.info[id].service.host in t.byHost
  {
  }

  /** For each new entry the number of slots it should be in. */
  ghost function Wanted(t: Tables): map<int, int> {
    map id | id in t.info && !t.info[id].fInTried :: t.info[id].nRefCount
  }

  /** Slot s comes before place i of bucket n when a table is walked bucket by bucket. */
  predicate Before(s: Slot, n: int, i: int) {
    s.0 < n || (s.0 == n && s.1 < i)
  }

  /** The tried ids that a walk up to place i of bucket n has not met. */
  ghost predicate Unmet(t: Tables, setTried: set<int>, n: int, i: int) {
    forall id :: id in setTried <==>
      id in TriedIds(t) && forall s :: s in t.triedSlots && Before(s, n, i) ==> t.triedSlots[s] != id
  }

  ghost predicate TriedSlotOk(c: Config, key: int, t: Tables, s: Slot)
    requires s in t.triedSlots
  {
    t.triedSlots[s] in TriedIds(t) && s == TriedSlot(c, key, t.info[t.triedSlots[s]].service)
  }

  ghost predicate TriedOkBefore(c: Config, key: int, t: Tables, n: int, i: int) {
    forall s :: s in t.triedSlots && Before(s, n, i) ==> TriedSlotOk(c, key, t, s)
  }

  lemma NextBucket(slots: map<Slot, int>, n: int, width: int)
    requires forall s :: s in slots ==> 0 <= s.1 < width
    ensures forall s :: s in slots ==> (Before(s, n, width) <==> Before(s, n + 1, 0))
  {
  }

  lemma BeforeNext(s: Slot, n: int, i: int)
    ensures Before(s, n, i + 1) <==> Before(s, n, i) || s == (n, i)
  {
    assert s == (s.0, s.1);
  }

  /** One place further in the tried table. */
  lemma TriedStep(c: Config, key: int, t: Tables, setTried: set<int>, n: int, i: int)
    requires TriedOkBefore(c, key, t, n, i) && Unmet(t, setTried, n, i)
    ensures (n, i) !in t.triedSlots ==> TriedOkBefore(c, key, t, n, i + 1) && Unmet(t, setTried, n, i + 1)
    ensures (n, i) in t.triedSlots && t.triedSlots[(n, i)] in setTried ==>
              var v := t.triedSlots[(n, i)];
              if (n, i) == TriedSlot(c, key, t.info[v].service)
              then TriedOkBefore(c, key, t, n, i + 1) && Unmet(t, setTried - {v}, n, i + 1)
              else !TriedExact(c, key, t)
    ensures (n, i) in t.triedSlots && t.triedSlots[(n, i)] !in setTried ==> !TriedExact(c, key, t)
  {
    forall s ensures Before(s, n, i + 1) <==> Before(s, n, i) || s == (n, i) { BeforeNext(s, n, i); }
    if (n, i) in t.triedSlots {
      var v := t.triedSlots[(n, i)];
      if v !in setTried && v in TriedIds(t) {
        var s :| s in t.triedSlots && Before(s, n, i) && t.triedSlots[s] == v;
        assert TriedSlotOk(c, key, t, s);
        assert s != (n, i);
      }
    }
  }

  lemma TriedEnd(c: Config, key: int, t: Tables, setTried: set<int>, n: int)
    requires TriedOkBefore(c, key, t, n, 0) && Unmet(t, setTried, n, 0)
    requires forall s :: s in t.triedSlots ==> s.0 < n
    ensures |setTried| == 0 <==> TriedExact(c, key, t)
    ensures forall s :: s in t.triedSlots ==> TriedSlotOk(c, key, t, s)
  {
    forall s | s in t.triedSlots ensures TriedSlotOk(c, key, t, s) { assert Before(s, n, 0); }
    if |setTried| == 0 {
      forall id | id in t.info && t.info[id].fInTried
        ensures var s := TriedSlot(c, key, t.info[id].service); s in t.triedSlots && t.triedSlots[s] == id {
        assert id in TriedIds(t) && id !in setTried;
        var s :| s in t.triedSlots && t.triedSlots[s] == id;
        assert TriedSlotOk(c, key, t, s);
      }
    }
    if TriedExact(c, key, t) {
      forall id ensures id !in setTried {
        if id in TriedIds(t) {
          var s := TriedSlot(c, key, t.info[id].service);
          assert s in t.triedSlots && Before(s, n, 0) && t.triedSlots[s] == id;
        }
      }
      assert setTried == {};
    }
  }

  /** The tried id v is met before place i of bucket n. */
  ghost predicate MetBefore(t: Tables, v: int, n: int, i: int) {
    exists s :: s in t.triedSlots && Before(s, n, i) && t.triedSlots[s] == v
  }

  ghost function TriedCode(c: Config, key: int, t: Tables, n: int, i: int): int {
    if (n, i) !in t.triedSlots then 0
    else
      var v := t.triedSlots[(n, i)];
      if v !in TriedIds(t) || MetBefore(t, v, n, i) then -11
      else if c.triedBucket(key, t.info[v].service) != n then -17
      else if c.position(key, false, n, t.info[v].service) != i then -18
      else 0
  }

  /** The complaint is about the first bad slot of the tried table. */
  ghost predicate TriedFails(c: Config, key: int, t: Tables, err: int) {
    exists n, i :: TriedOkBefore(c, key, t, n, i) && err == TriedCode(c, key, t, n, i) != 0
  }

  /** The walk over the tried table: every slot must hold a tried entry not met before, in
      the slot of its address; what has not been met is left over. */
  method CheckTried(c: Config, key: int, ghost t: Tables, info: map<int, Info>, vvTried: SlotTable, tried: set<int>)
    returns (err: int, setTried: set<int>)
    requires vvTried.Valid() && vvTried.slots == t.triedSlots && info == t.info && tried == TriedIds(t)
    ensures err == 0 ==> (setTried == {} <==> TriedExact(c, key, t))
    ensures err == 0 ==> forall e :: !TriedFails(c, key, t, e)
    ensures err != 0 ==> !TriedExact(c, key, t) && TriedFails(c, key, t, err)
  {
    setTried := tried;
    var n := 0;
    err := 0;
    while n < vvTried.cells.Length0
      invariant 0 <= n <= vvTried.cells.Length0 && err == 0
      invariant TriedOkBefore(c, key, t, n, 0) && Unmet(t, setTried, n, 0)
    {
      var i := 0;
      while i < vvTried.cells.Length1
        invariant 0 <= i <= vvTried.cells.Length1
        invariant TriedOkBefore(c, key, t, n, i) && Unmet(t, setTried, n, i)
      {
        var v := vvTried.Get(n, i);
        TriedStep(c, key, t, setTried, n, i);
        if v != -1 {
          err := CheckTriedSlot(c, key, info, setTried, v, n, i);
          TriedCodeIs(c, key, t, setTried, n, i);
          if err != 0 {
            assert err == TriedCode(c, key, t, n, i);
            return;
          }
          setTried := setTried - {v};
        }
        i := i + 1;
      }
      NextBucket(t.triedSlots, n, vvTried.cells.Length1);
      n := n + 1;
    }
    TriedEnd(c, key, t, setTried, n);
    TriedNeverFails(c, key, t);
  }

  function TriedSlotCode(c: Config, key: int, info: map<int, Info>, setTried: set<int>, v: int, n: int, i: int): int
    requires v in setTried ==> v in info
  {
    if v !in setTried then -11
    else if c.triedBucket(key, info[v].service) != n then -17
    else if c.position(key, false, n, info[v].service) != i then -18
    else 0
  }

  lemma TriedCodeIs(c: Config, key: int, t: Tables, setTried: set<int>, n: int, i: int)
    requires Unmet(t, setTried, n, i) && (n, i) in t.triedSlots
    ensures t.triedSlots[(n, i)] in setTried ==> t.triedSlots[(n, i)] in t.info
    ensures TriedCode(c, key, t, n, i) == TriedSlotCode(c, key, t.info, setTried, t.triedSlots[(n, i)], n, i)
  {
    var v := t.triedSlots[(n, i)];
    assert v in setTried <==> v in TriedIds(t) && !MetBefore(t, v, n, i);
  }

  lemma TriedNeverFails(c: Config, key: int, t: Tables)
    requires forall s :: s in t.triedSlots ==> TriedSlotOk(c, key, t, s)
    ensures forall err :: !TriedFails(c, key, t, err)
  {
    forall n, i ensures TriedCode(c, key, t, n, i) == 0 {
      if (n, i) in t.triedSlots {
        var v := t.triedSlots[(n, i)];
        assert TriedSlotOk(c, key, t, (n, i));
        forall s | s in t.triedSlots && t.triedSlots[s] == v ensures s == (n, i) { assert TriedSlotOk(c, key, t, s); }
      }
    }
    hide TriedCode;
  }

  /** The complaint about one tried slot, or 0. */
  method CheckTriedSlot(c: Config, key: int, info: map<int, Info>, setTried: set<int>, v: int, n: int, i: int)
    returns (err: int)
    requires v in setTried ==> v in info
    ensures err == 0 <==> v in setTried && (n, i) == TriedSlot(c, key, info[v].service)
    ensures err == TriedSlotCode(c, key, info, setTried, v, n, i)
  {
    if v !in setTried { return -11; }
    if c.triedBucket(key, info[v].service) != n { return -17; }
    if c.position(key, false, n, info[v].service) != i { return -18; }
    return 0;
  }

  // ------------------------------------------------------------ the new table

  /** The slots of an entry that a walk up to place i of bucket n has met. */
  ghost function Met(t: Tables, id: int, n: int, i: int): set<Slot> {
    set s | s in t.newSlots && t.newSlots[s] == id && Before(s, n, i)
  }

  /** What is still to be met: the reference counts less the slots met, zeros left out. */
  ghost predicate Owed(t: Tables, mapNew: map<int, int>, n: int, i: int) {
    && (forall id :: id in NewIds(t) ==> |Met(t, id, n, i)| <= t.info[id].nRefCount)
    && (forall id :: id in mapNew <==> id in NewIds(t) && |Met(t, id, n, i)| < t.info[id].nRefCount)
    && (forall id :: id in mapNew ==> mapNew[id] == t.info[id].nRefCount - |Met(t, id, n, i)|)
  }

  ghost predicate NewSlotOk(c: Config, key: int, t: Tables, s: Slot)
    requires s in t.newSlots
  {
    t.newSlots[s] in NewIds(t) && s.1 == c.position(key, true, s.0, t.info[t.newSlots[s]].service)
  }

  ghost predicate NewOkBefore(c: Config, key: int, t: Tables, n: int, i: int) {
    forall s :: s in t.newSlots && Before(s, n, i) ==> NewSlotOk(c, key, t, s)
  }

  function CountDown(m: map<int, int>, v: int): map<int, int>
    requires v in m
  {
    if m[v] - 1 == 0 then m - {v} else m[v := m[v] - 1]
  }

  lemma MetNext(t: Tables, id: int, n: int, i: int)
    ensures if (n, i) in t.newSlots && t.newSlots[(n, i)] == id
            then |Met(t, id, n, i + 1)| == |Met(t, id, n, i)| + 1
            else Met(t, id, n, i + 1) == Met(t, id, n, i)
    ensures |Met(t, id, n, i)| <= |Refs(t, id)|
    ensures (n, i) in t.newSlots && t.newSlots[(n, i)] == id ==> |Met(t, id, n, i)| < |Refs(t, id)|
  {
    forall s ensures Before(s, n, i + 1) <==> Before(s, n, i) || s == (n, i) { BeforeNext(s, n, i); }
    assert !Before((n, i), n, i);
    var a, b, r := Met(t, id, n, i), Met(t, id, n, i + 1), Refs(t, id);
    assert a <= r;
    Smaller(a, r);
    if (n, i) in t.newSlots && t.newSlots[(n, i)] == id {
      assert b == a + {(n, i)} && (n, i) !in a && (n, i) in r;
      Smaller(b, r);
    } else {
      assert b == a;
    }
  }

  lemma Smaller<T>(a: set<T>, b: set<T>)
    requires a <= b
    ensures |a| <= |b|
  {
    assert b == a + (b - a);
  }

  lemma NewStep(c: Config, key: int, t: Tables, mapNew: map<int, int>, n: int, i: int)
    requires NewOkBefore(c, key, t, n, i) && Owed(t, mapNew, n, i)
    ensures (n, i) !in t.newSlots ==> NewOkBefore(c, key, t, n, i + 1) && Owed(t, mapNew, n, i + 1)
    ensures (n, i) in t.newSlots && t.newSlots[(n, i)] in mapNew ==>
              var v := t.newSlots[(n, i)];
              if i == c.position(key, true, n, t.info[v].service)
              then NewOkBefore(c, key, t, n, i + 1) && Owed(t, CountDown(mapNew, v), n, i + 1)
              else !NewExact(c, key, t)
    ensures (n, i) in t.newSlots && t.newSlots[(n, i)] !in mapNew ==> !NewExact(c, key, t)
  {
    hide NewIds;
    forall s ensures Before(s, n, i + 1) <==> Before(s, n, i) || s == (n, i) { BeforeNext(s, n, i); }
    forall id
      ensures if (n, i) in t.newSlots && t.newSlots[(n, i)] == id
              then |Met(t, id, n, i + 1)| == |Met(t, id, n, i)| + 1
              else Met(t, id, n, i + 1) == Met(t, id, n, i) {
      MetNext(t, id, n, i);
    }
    if (n, i) in t.newSlots {
      MetNext(t, t.newSlots[(n, i)], n, i);
    }
  }

  lemma NewEnd(c: Config, key: int, t: Tables, mapNew: map<int, int>, n: int)
    requires NewOkBefore(c, key, t, n, 0) && Owed(t, mapNew, n, 0)
    requires forall s :: s in t.newSlots ==> s.0 < n
    ensures |mapNew| == 0 <==> NewExact(c, key, t)
    ensures forall s :: s in t.newSlots ==> NewSlotOk(c, key, t, s)
    ensures forall id :: id in NewIds(t) ==> |Refs(t, id)| <= t.info[id].nRefCount
  {
    forall s | s in t.newSlots ensures Before(s, n, 0) && NewSlotOk(c, key, t, s) { assert Before(s, n, 0); }
    forall id ensures Met(t, id, n, 0) == Refs(t, id) {}
    if NewExact(c, key, t) {
      forall id ensures id !in mapNew {
        assert id in NewIds(t) ==> |Met(t, id, n, 0)| == t.info[id].nRefCount;
      }
      assert mapNew == map[];
    }
    if |mapNew| == 0 {
      forall id | id in NewIds(t) ensures |Refs(t, id)| == t.info[id].nRefCount {
        assert id !in mapNew && |Met(t, id, n, 0)| <= t.info[id].nRefCount;
      }
    }
  }

  ghost function NewCode(c: Config, key: int, t: Tables, n: int, i: int): int {
    if (n, i) !in t.newSlots then 0
    else
      var v := t.newSlots[(n, i)];
      if v !in NewIds(t) || |Met(t, v, n, i)| == t.info[v].nRefCount then -12
      else if c.position(key, true, n, t.info[v].service) != i then -19
      else 0
  }

  lemma NewNeverFails(c: Config, key: int, t: Tables)
    requires forall s :: s in t.newSlots ==> NewSlotOk(c, key, t, s)
    requires forall id :: id in NewIds(t) ==> |Refs(t, id)| <= t.info[id].nRefCount
    ensures forall err :: !NewFails(c, key, t, err)
  {
    forall n, i ensures NewCode(c, key, t, n, i) == 0 {
      if (n, i) in t.newSlots {
        assert NewSlotOk(c, key, t, (n, i));
        MetNext(t, t.newSlots[(n, i)], n, i);
      }
    }
    hide NewCode;
  }

  /** The complaint is about the first bad slot of the new table. */
  ghost predicate NewFails(c: Config, key: int, t: Tables, err: int) {
    exists n, i :: NewOkBefore(c, key, t, n, i) && err == NewCode(c, key, t, n, i) != 0
  }

  /** The walk over the new table: every slot must hold a new entry in its place, no more often
      than its reference count says; what is still owed is left over. */
  method CheckNew(c: Config, key: int, ghost t: Tables, info: map<int, Info>, vvNew: SlotTable, wanted: map<int, int>)
    returns (err: int, mapNew: map<int, int>)
    requires vvNew.Valid() && vvNew.slots == t.newSlots && info == t.info && wanted == Wanted(t)
    requires forall id :: id in NewIds(t) ==> 0 < t.info[id].nRefCount
    ensures err == 0 ==> (mapNew == map[] <==> NewExact(c, key, t))
    ensures err == 0 ==> forall e :: !NewFails(c, key, t, e)
    ensures err != 0 ==> !NewExact(c, key, t) && NewFails(c, key, t, err)
  {
    hide NewExact, NewOkBefore, NewSlotOk;
    mapNew := wanted;
    NewStart(c, key, t, vvNew);
    var n := 0;
    err := 0;
    while n < vvNew.cells.Length0
      invariant 0 <= n <= vvNew.cells.Length0 && err == 0
      invariant NewOkBefore(c, key, t, n, 0) && Owed(t, mapNew, n, 0)
    {
      var i := 0;
      while i < vvNew.cells.Length1
        invariant 0 <= i <= vvNew.cells.Length1
        invariant NewOkBefore(c, key, t, n, i) && Owed(t, mapNew, n, i)
      {
        var v := vvNew.Get(n, i);
        NewStep(c, key, t, mapNew, n, i);
        if v != -1 {
          if v !in mapNew {
            assert NewCode(c, key, t, n, i) == -12;
            return -12, mapNew;
          }
          if c.position(key, true, n, info[v].service) != i {
            assert NewCode(c, key, t, n, i) == -19;
            return -19, mapNew;
          }
          mapNew := CountDown(mapNew, v);
        }
        i := i + 1;
      }
      NextNewBucket(c, key, t, mapNew, n, vvNew.cells.Length1);
      n := n + 1;
    }
    NewEnd(c, key, t, mapNew, n);
    NewNeverFails(c, key, t);
  }

  lemma NewStart(c: Config, key: int, t: Tables, vvNew: SlotTable)
    requires vvNew.Valid() && vvNew.slots == t.newSlots
    requires forall id :: id in NewIds(t) ==> 0 < t.info[id].nRefCount
    ensures NewOkBefore(c, key, t, 0, 0) && Owed(t, Wanted(t), 0, 0)
  {
    forall id ensures Met(t, id, 0, 0) == {} {}
  }

  lemma NextNewBucket(c: Config, key: int, t: Tables, mapNew: map<int, int>, n: int, width: int)
    requires forall s :: s in t.newSlots ==> 0 <= s.1 < width
    requires NewOkBefore(c, key, t, n, width) && Owed(t, mapNew, n, width)
    ensures NewOkBefore(c, key, t, n + 1, 0) && Owed(t, mapNew, n + 1, 0)
  {
    NextBucket(t.newSlots, n, width);
    forall id ensures Met(t, id, n + 1, 0) == Met(t, id, n, width) {}
  }

  // ------------------------------------------------------------ the whole check

  /** The first complaint in the order of the checks. */
  ghost predicate Complains(c: Config, key: int, t: Tables, err: int) {
    if |t.random| != t.nTried + t.nNew then err == -7
    else if exists id :: FirstBad(c, t, id) then exists id :: FirstBad(c, t, id) && err == EntryCode(c, t, id)
    else if |TriedIds(t)| != t.nTried then err == -9
    else if |NewIds(t)| != t.nNew then err == -10
    else if exists e :: TriedFails(c, key, t, e) then TriedFails(c, key, t, err)
    else if exists e :: NewFails(c, key, t, e) then NewFails(c, key, t, err)
    else if !TriedExact(c, key, t) then err == -13
    else if !NewExact(c, key, t) then err == -15
    else key == 0 && err == -16
  }

  /** The consistency check: 0 exactly on the tables described by CheckOk, else the first complaint.
      The index is returned as the lookups leave it. */
  method Check(c: Config, key: int, ghost t: Tables, info: map<int, Info>, byHost: map<NetAddr, int>,
               random: seq<int>, nTried: int, nNew: int, vvTried: SlotTable, vvNew: SlotTable)
    returns (err: int, mapAddr: map<NetAddr, int>)
    requires vvTried.Valid() && vvTried.slots == t.triedSlots && vvNew.Valid() && vvNew.slots == t.newSlots
    requires info == t.info && byHost == t.byHost && random == t.random && nTried == t.nTried && nNew == t.nNew
    ensures err == 0 <==> CheckOk(c, key, t)
    ensures err != 0 ==> Complains(c, key, t, err)
    ensures err == 0 ==> mapAddr == AfterCheck(t)
    ensures SameIds(t.byHost, mapAddr)
  {
    hide TriedExact, NewExact, TriedFails, NewFails, TriedSlotOk, NewSlotOk, EntryOk, EntryCode;
    mapAddr := byHost;
    if |random| != nTried + nNew { return -7, mapAddr; }
    var setTried, mapNew;
    err, setTried, mapNew, mapAddr := CheckEntries(c, Tables(0, info, byHost, random, nTried, nNew, map[], map[]));
    SameEntries(c, t, info, byHost, random, nTried, nNew);
    if err != 0 { return; }
    NoneBad(c, t);
    if |setTried| != nTried { return -9, mapAddr; }
    if |mapNew| != nNew { return -10, mapAddr; }
    err, setTried := CheckTried(c, key, t, info, vvTried, setTried);
    if err != 0 { return; }
    err, mapNew := CheckNew(c, key, t, info, vvNew, mapNew);
    if err != 0 { return; }
    if setTried != {} { return -13, mapAddr; }
    if mapNew != map[] { return -15, mapAddr; }
    if key == 0 { return -16, mapAddr; }
  }

  lemma NoneBad(c: Config, t: Tables)
    requires forall id :: id in t.info ==> EntryOk(c, t, id)
    ensures !exists id :: FirstBad(c, t, id)
  {
    hide EntryOk;
  }

  lemma SameEntries(c: Config, t: Tables, info: map<int, Info>, byHost: map<NetAddr, int>, random: seq<int>,
                    nTried: int, nNew: int)
    requires info == t.info && byHost == t.byHost && random == t.random
    ensures var u := Tables(0, info, byHost, random, nTried, nNew, map[], map[]);
            && (forall id :: id in t.info ==>
                (EntryOk(c, u, id) <==> EntryOk(c, t, id)) && EntryCode(c, u, id) == EntryCode(c, t, id))
            && (forall id :: FirstBad(c, u, id) <==> FirstBad(c, t, id)) && AfterCheck(u) == AfterCheck(t)
            && TriedIds(u) == TriedIds(t) && Wanted(u) == Wanted(t)
            && |Wanted(t)| == |NewIds(t)|
            && ((forall id :: id in t.info ==> EntryOk(c, t, id)) ==>
                forall id :: id in NewIds(t) ==> 0 < t.info[id].nRefCount)
  {
    var u := Tables(0, info, byHost, random, nTried, nNew, map[], map[]);
    forall id ensures id in TriedIds(u) <==> id in TriedIds(t) {}
    forall id ensures id in Wanted(t).Keys <==> id in NewIds(t) {}
    assert Wanted(t).Keys == NewIds(t);
  }

  lemma {:induction false} SeqSetBound(s: seq<int>)
    ensures |set x | x in s| <= |s|
  {
    if s != [] {
      SeqSetBound(s[1..]);
      assert (set x | x in s) == (set x | x in s[1..]) + {s[0]};
    }
  }

  /** A sequence as long as a set it covers lists each element of the set exactly once. */
  lemma NoRepeats(s: seq<int>, keys: set<int>)
    requires |keys| == |s| && forall x :: x in keys ==> x in s
    ensures forall x :: x in s ==> x in keys
    ensures forall i, j :: 0 <= i < j < |s| ==> s[i] != s[j]
  {
    var all := set x | x in s;
    SeqSetBound(s);
    forall x | x in keys ensures x in all {}
    assert keys <= all;
    Smaller(keys, all);
    assert |all - keys| == 0;
    forall x | x in s ensures x in keys { assert x !in all - keys; }
    forall i, j | 0 <= i < j < |s| ensures s[i] != s[j] {
      if s[i] == s[j] {
        RepeatShortens(s, i, j);
        assert false;
      }
    }
  }

  lemma RepeatShortens(s: seq<int>, i: int, j: int)
    requires 0 <= i < j < |s| && s[i] == s[j]
    ensures |set x | x in s| < |s|
  {
    var rest := s[..j] + s[j + 1..];
    SeqSetBound(rest);
    forall x | x in s ensures x in rest {
      var k :| 0 <= k < |s| && s[k] == x;
      var k' := if k == j then i else if k < j then k else k - 1;
      assert rest[k'] == x;
    }
    assert (set x | x in rest) == set x | x in s;
  }

  lemma EntriesIndexed(c: Config, t: Tables)
    requires |t.random| == t.nTried + t.nNew && Counters(t)
    requires forall id :: id in t.info ==> EntryOk(c, t, id)
    ensures Indexed(t)
  {
    var keys := t.info.Keys;
    forall id ensures id in keys <==> id in TriedIds(t) || id in NewIds(t) {}
    assert keys == TriedIds(t) + NewIds(t) && TriedIds(t) !! NewIds(t);
    forall id | id in keys ensures id in t.random {
      assert EntryOk(c, t, id);
    }
    NoRepeats(t.random, keys);
    forall i | 0 <= i < |t.random|
      ensures t.random[i] in t.info && t.info[t.random[i]].nRandomPos == i {
      var id := t.random[i];
      assert id in t.info && EntryOk(c, t, id);
      var p := t.info[id].nRandomPos;
      assert t.random[p] == id && !(p < i) && !(i < p);
    }
  }

  /** What the check leaves open about the index of hosts: that the host of id 0 is in it, that it
      has no other keys, and that ids are below the counter. */
  ghost predicate IndexFits(t: Tables) {
    && (0 in t.info ==> t.info[0].service.host in t.byHost)
    && |t.byHost.Keys| == |t.info.Keys|
    && 0 <= t.idCount && (forall id :: id in t.info ==> 0 <= id < t.idCount)
  }

  ghost function Hosts(t: Tables, ids: set<int>): set<NetAddr>
    requires ids <= t.info.Keys
  {
    set id | id in ids :: t.info[id].service.host
  }

  lemma InHosts(t: Tables, ids: set<int>, h: NetAddr)
    requires ids <= t.info.Keys
    ensures h in Hosts(t, ids) <==> exists id :: id in ids && t.info[id].service.host == h
  {
  }

  predicate DistinctHosts(t: Tables) {
    forall x, y :: x in t.info && y in t.info && t.info[x].service.host == t.info[y].service.host ==> x == y
  }

  /** Entries of different hosts are as many as their hosts. */
  lemma {:induction false} HostsCount(t: Tables, ids: set<int>)
    requires ids <= t.info.Keys && DistinctHosts(t)
    ensures |Hosts(t, ids)| == |ids|
    decreases ids
  {
    if ids != {} {
      assert (forall x :: x !in ids) ==> ids == {};
      var id :| id in ids;
      var rest, h := ids - {id}, t.info[id].service.host;
      HostsCount(t, rest);
      HostsWith(t, ids, id);
      assert Hosts(t, ids) == Hosts(t, rest) + {h} && h !in Hosts(t, rest);
    } else {
      assert Hosts(t, ids) == {};
    }
  }

  lemma HostsWith(t: Tables, ids: set<int>, id: int)
    requires ids <= t.info.Keys && DistinctHosts(t) && id in ids
    ensures Hosts(t, ids) == Hosts(t, ids - {id}) + {t.info[id].service.host}
    ensures t.info[id].service.host !in Hosts(t, ids - {id})
  {
    forall h ensures h in Hosts(t, ids) <==> h in Hosts(t, ids - {id}) || h == t.info[id].service.host {
      InHosts(t, ids, h);
      InHosts(t, ids - {id}, h);
    }
  }

  lemma AllHosts(t: Tables)
    ensures forall id :: id in t.info ==> t.info[id].service.host in Hosts(t, t.info.Keys)
  {
    forall id | id in t.info ensures t.info[id].service.host in Hosts(t, t.info.Keys) {
      InHosts(t, t.info.Keys, t.info[id].service.host);
    }
  }

  /** Every entry is what is read for its host. */
  ghost predicate HostsRead(t: Tables) {
    forall id :: id in t.info ==> HostId(t.byHost, t.info[id].service.host) == id
  }

  lemma ReadDistinct(t: Tables)
    requires HostsRead(t)
    ensures DistinctHosts(t)
  {
    hide HostId;
  }

  /** When the check passes, the index of hosts is an exact inverse if and only if it fits. */
  lemma PassedIndex(c: Config, key: int, t: Tables)
    requires CheckOk(c, key, t)
    ensures HostInverse(t) <==> IndexFits(t)
  {
    forall id | id in t.info ensures HostId(t.byHost, t.info[id].service.host) == id { assert EntryOk(c, t, id); }
    hide CheckOk, IndexFits, HostInverse, HostId;
    ReadDistinct(t);
    if IndexFits(t) { FitsInverse(t); }
    if HostInverse(t) { InverseFits(t); }
  }

  lemma FitsInverse(t: Tables)
    requires HostsRead(t) && DistinctHosts(t) && IndexFits(t)
    ensures HostInverse(t)
  {
    var all := t.info.Keys;
    var hosts := Hosts(t, all);
    HostsCount(t, all);
    hide Hosts, DistinctHosts;
    forall h | h in hosts ensures h in t.byHost {
      InHosts(t, all, h);
      var id :| id in all && t.info[id].service.host == h;
      assert HostId(t.byHost, h) == id;
    }
    SameSize(hosts, t.byHost.Keys);
    forall h | h in t.byHost ensures t.byHost[h] in t.info && t.info[t.byHost[h]].service.host == h {
      InHosts(t, all, h);
      var id :| id in all && t.info[id].service.host == h;
      assert HostId(t.byHost, h) == id;
    }
    AllHosts(t);
    forall id | id in t.info ensures t.info[id].service.host in t.byHost && t.byHost[t.info[id].service.host] == id {
      assert t.info[id].service.host in hosts;
      assert HostId(t.byHost, t.info[id].service.host) == id;
    }
  }

  lemma InverseFits(t: Tables)
    requires DistinctHosts(t) && HostInverse(t)
    ensures IndexFits(t)
  {
    var all := t.info.Keys;
    var hosts := Hosts(t, all);
    HostsCount(t, all);
    hide Hosts, DistinctHosts;
    forall h ensures h in hosts <==> h in t.byHost {
      InHosts(t, all, h);
      if h in t.byHost {
        var id := t.byHost[h];
        assert id in all && t.info[id].service.host == h;
      } else if id :| id in all && t.info[id].service.host == h {
        assert id in t.info;
      }
    }
    assert hosts == t.byHost.Keys;
  }

  lemma SameSize<T>(a: set<T>, b: set<T>)
    requires a <= b && |a| == |b|
    ensures a == b
  {
    assert b == a + (b - a);
    assert |b - a| == 0;
  }

  /** The check and the invariant: tables with slots in range and a key are consistent if and only
      if the check passes and the index of hosts fits. */
  lemma CheckIsInv(c: Config, key: int, t: Tables)
    requires key != 0
    requires forall s :: s in t.newSlots ==> 0 <= s.0 < c.newBuckets
    ensures CheckOk(c, key, t) && IndexFits(t) <==> Inv(c, key, t)
  {
    hide IndexFits;
    if CheckOk(c, key, t) { PassedIndex(c, key, t); }
    if CheckOk(c, key, t) && HostInverse(t) { PassedInv(c, key, t); }
    if Inv(c, key, t) {
      InvPasses(c, key, t);
      PassedIndex(c, key, t);
    }
  }

  lemma PassedInv(c: Config, key: int, t: Tables)
    requires CheckOk(c, key, t) && HostInverse(t)
    requires forall s :: s in t.newSlots ==> 0 <= s.0 < c.newBuckets
    ensures Inv(c, key, t)
  {
    EntriesIndexed(c, t);
    NewExactRefCounts(c, key, t);
    Assemble(c, key, t, {});
    forall id | id in t.info ensures GoodStats(t.info[id]) { assert EntryOk(c, t, id); }
  }

  lemma InvPasses(c: Config, key: int, t: Tables)
    requires Inv(c, key, t) && key != 0
    ensures CheckOk(c, key, t)
  {
    InvRandomSize(t);
    forall id | id in t.info ensures EntryOk(c, t, id) { assert GoodStats(t.info[id]); }
    forall s | s in t.newSlots ensures t.newSlots[s] in NewIds(t) {
      var id := t.newSlots[s];
      assert id in t.info && s in Refs(t, id);
    }
  }

  lemma InvUnchanged(c: Config, key: int, t: Tables)
    ensures Inv(c, key, t) ==> AfterCheck(t) == t.byHost
  {
    if Inv(c, key, t) { assert HostInverse(t); }
  }

  /** After a check that passes only the number of keys is left open: a missing host was entered. */
  lemma CheckRepairs(c: Config, key: int, t: Tables)
    requires CheckOk(c, key, t)
    ensures
      var u := t.(byHost := AfterCheck(t));
      && CheckOk(c, key, u) && AfterCheck(u) == u.byHost
      && (IndexFits(u) <==>
          |u.byHost.Keys| == |t.info.Keys| && 0 <= t.idCount && forall id :: id in t.info ==> 0 <= id < t.idCount)
  {
    var u := t.(byHost := AfterCheck(t));
    forall id | id in t.info ensures EntryOk(c, u, id) { assert EntryOk(c, t, id); }
    forall id ensures Refs(u, id) == Refs(t, id) {}
    assert TriedIds(u) == TriedIds(t) && NewIds(u) == NewIds(t);
  }

  lemma NewExactRefCounts(c: Config, key: int, t: Tables)
    requires NewExact(c, key, t) && forall id :: id in t.info ==> EntryOk(c, t, id)
    requires forall s :: s in t.newSlots ==> 0 <= s.0 < c.newBuckets
    ensures RefCounts(c, t, {}) && NewPlaced(c, key, t)
  {
    forall id | id in t.info ensures t.info[id].nRefCount == |Refs(t, id)| {
      assert EntryOk(c, t, id);
      if t.info[id].fInTried {
        forall s ensures s !in Refs(t, id) {
          if s in t.newSlots { assert t.newSlots[s] in NewIds(t); }
        }
        assert Refs(t, id) == {};
      } else {
        assert id in NewIds(t);
      }
    }
    forall id | id in t.info ensures EntryOk(c, t, id) {}
    forall s | s in t.newSlots ensures t.newSlots[s] in t.info { assert t.newSlots[s] in NewIds(t); }
  }

  lemma InvRandomSize(t: Tables)
    requires Indexed(t) && Counters(t)
    ensures |t.random| == t.nTried + t.nNew
  {
    var keys := t.info.Keys;
    forall id ensures id in keys <==> id in TriedIds(t) || id in NewIds(t) {}
    assert keys == TriedIds(t) + NewIds(t) && TriedIds(t) !! NewIds(t);
    DistinctSize(t.random, t.info);
  }

  lemma {:induction false} DistinctSize(s: seq<int>, info: map<int, Info>)
    requires forall i :: 0 <= i < |s| ==> s[i] in info && info[s[i]].nRandomPos == i
    requires forall id :: id in info ==> 0 <= info[id].nRandomPos < |s| && s[info[id].nRandomPos] == id
    ensures |info.Keys| == |s|
  {
    forall id ensures id in info.Keys <==> id in s {}
    assert info.Keys == set x | x in s;
    DistinctSeqSize(s, info);
  }

  lemma {:induction false} DistinctSeqSize(s: seq<int>, info: map<int, Info>)
    requires forall i :: 0 <= i < |s| ==> s[i] in info && info[s[i]].nRandomPos == i
    ensures |set x | x in s| == |s|
  {
    if s != [] {
      var front, last := s[..|s| - 1], s[|s| - 1];
      DistinctSeqSize(front, info);
      assert last !in front;
      assert (set x | x in s) == (set x | x in front) + {last};
    }
  }
}
