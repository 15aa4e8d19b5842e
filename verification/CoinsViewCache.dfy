/**
 The caches themselves: objects that sit on one another and fill and write themselves in
 place. Every method is proved against the stack function of the same name.
 */
module CoinsViewCache {
  import opened Common
  import opened Coins
  import V = CoinsViews

  class CoinsViewDB {
    var store: map<V.Txid, Coins>
    var best: V.Hash

    constructor (store: map<V.Txid, Coins>, best: V.Hash)
      ensures this.store == store && this.best == best
    {
      this.store, this.best := store, best;
    }

    method GetCoins(txid: V.Txid) returns (r: Option<Coins>)
      ensures r == if txid in store then Some(store[txid]) else None
    {
      r := if txid in store then Some(store[txid]) else None;
    }

    method BatchWrite(mapCoins: V.Entries, hashBlock: V.Hash)
      modifies this
      ensures store == V.WriteStore(old(store), mapCoins)
      ensures best == if hashBlock != 0 then hashBlock else old(best)
    {
      hide StoreLook, Written;
      var todo := mapCoins.Keys;
      ghost var was := store;
      NothingWritten(was, mapCoins);
      while |todo| > 0
        invariant todo <= mapCoins.Keys && best == old(best)
        invariant WrittenBut(was, mapCoins, todo, store)
        decreases |todo|
      {
        KeyExists(todo);
        var k :| k in todo;
        var e := mapCoins[k];
        ghost var before := store;
        if e.dirty {
          store := if e.coins.IsPruned() then store - {k} else store[k := e.coins];
        }
        WriteOne(was, mapCoins, todo, before, store, k);
        todo := todo - {k};
      }
      AllWritten(was, mapCoins, store);
      if hashBlock != 0 {
        best := hashBlock;
      }
    }
  }

  /** The entries but those still to do have been written. */
  ghost predicate WrittenBut(was: map<V.Txid, Coins>, mapCoins: V.Entries, todo: set<V.Txid>,
                             store: map<V.Txid, Coins>) {
    forall k :: StoreLook(store, k) ==
      if k in mapCoins && k !in todo then Written(StoreLook(was, k), mapCoins[k]) else StoreLook(was, k)
  }

  lemma NothingWritten(was: map<V.Txid, Coins>, mapCoins: V.Entries)
    ensures WrittenBut(was, mapCoins, mapCoins.Keys, was)
  {
  }

  lemma WriteOne(was: map<V.Txid, Coins>, mapCoins: V.Entries, todo: set<V.Txid>, before: map<V.Txid, Coins>,
                 store: map<V.Txid, Coins>, k: V.Txid)
    requires WrittenBut(was, mapCoins, todo, before) && k in todo && k in mapCoins
    requires
      var e := mapCoins[k];
      store == if !e.dirty then before else if e.coins.IsPruned() then before - {k} else before[k := e.coins]
    ensures WrittenBut(was, mapCoins, todo - {k}, store)
  {
    forall j ensures StoreLook(store, j) ==
      if j in mapCoins && j !in todo - {k} then Written(StoreLook(was, j), mapCoins[j]) else StoreLook(was, j)
    {
      assert j != k ==> StoreLook(store, j) == StoreLook(before, j);
      assert StoreLook(before, k) == StoreLook(was, k);
    }
  }

  lemma AllWritten(was: map<V.Txid, Coins>, mapCoins: V.Entries, store: map<V.Txid, Coins>)
    requires WrittenBut(was, mapCoins, {}, store)
    ensures store == V.WriteStore(was, mapCoins)
  {
    forall k ensures StoreLook(store, k) == StoreLook(V.WriteStore(was, mapCoins), k) {}
    SameStore(store, V.WriteStore(was, mapCoins));
  }

  ghost function StoreLook(m: map<V.Txid, Coins>, k: V.Txid): Option<Coins> { if k in m then Some(m[k]) else None }

  ghost function Written(was: Option<Coins>, e: V.Entry): Option<Coins> {
    if !e.dirty then was else if e.coins.IsPruned() then None else Some(e.coins)
  }

  lemma KeyExists(s: set<V.Txid>)
    requires |s| > 0
    ensures exists k :: k in s
  {
    assert (forall k :: k !in s) ==> s == {};
  }

  lemma SameStore(a: map<V.Txid, Coins>, b: map<V.Txid, Coins>)
    requires forall k :: StoreLook(a, k) == StoreLook(b, k)
    ensures a == b
  {
    forall k ensures k in a <==> k in b
             ensures k in a ==> a[k] == b[k] {
      assert StoreLook(a, k) == StoreLook(b, k);
    }
  }

  lemma SameEntries(a: V.Entries, b: V.Entries)
    requires forall k :: V.Look(a, k) == V.Look(b, k)
    ensures a == b
  {
    forall k ensures k in a <==> k in b
             ensures k in a ==> a[k] == b[k] {
      assert V.Look(a, k) == V.Look(b, k);
    }
  }

  lemma MergedAll(us: V.Entries, it: V.Entries, m: V.Entries)
    requires forall k :: V.Look(m, k) == V.MergeEntry(V.Look(us, k), V.Look(it, k))
    ensures m == V.Merge(us, it)
  {
    forall k ensures V.Look(m, k) == V.Look(V.Merge(us, it), k) {}
    SameEntries(m, V.Merge(us, it));
  }

  class CoinsViewCache {
    const db: CoinsViewDB
    const parent: CoinsViewCache?
    var cacheCoins: V.Entries
    var hashBlock: V.Hash
    var hasModifier: bool
    ghost const Repr: set<object>

    /** The layers below are separate objects, down to the database. */
    ghost predicate Valid()
      reads this, Repr
      decreases Repr
    {
      && this in Repr
      && (parent == null ==> db in Repr)
      && (parent != null ==>
            parent in Repr && parent.Repr <= Repr - {this} && parent.Valid())
    }

    ghost function Base(): V.View
      requires Valid()
      reads this, Repr
      decreases Repr, 0
    {
      if parent == null then V.Disk(db.store, db.best) else parent.AsView()
    }

    /** The stack from this layer down. */
    ghost function AsView(): (v: V.View)
      requires Valid()
      reads this, Repr
      ensures v.Cache?
      decreases Repr, 1
    {
      V.Cache(Base(), cacheCoins, hashBlock)
    }

    constructor OnDatabase(db: CoinsViewDB)
      ensures Valid() && AsView() == V.Cache(V.Disk(db.store, db.best), map[], 0) && !hasModifier
    {
      this.db, parent := db, null;
      cacheCoins, hashBlock, hasModifier := map[], 0, false;
      Repr := {this, db};
    }

    constructor OnCache(base: CoinsViewCache)
      requires base.Valid()
      ensures Valid() && AsView() == V.Cache(base.AsView(), map[], 0) && !hasModifier
    {
      db, parent := base.db, base;
      cacheCoins, hashBlock, hasModifier := map[], 0, false;
      Repr := {this} + base.Repr;
    }

    /** The read of whatever lies below this layer. */
    method BaseGetCoins(txid: V.Txid) returns (r: Option<Coins>)
      requires Valid()
      modifies Repr - {this}
      ensures Valid() && (Base(), r) == V.GetCoins(old(Base()), txid)
      decreases Repr, 0
    {
      if parent == null {
        r := db.GetCoins(txid);
      } else {
        r := parent.GetCoins(txid);
      }
    }

    method FetchCoins(txid: V.Txid)
      requires Valid()
      modifies Repr
      ensures Valid() && AsView() == V.Fetch(old(AsView()), txid) && hasModifier == old(hasModifier)
      decreases Repr, 1
    {
      if txid in cacheCoins {
        return;
      }
      var tmp := BaseGetCoins(txid);
      if tmp == None {
        return;
      }
      // If the parent only has an empty entry for this txid, our version counts as fresh.
      cacheCoins := cacheCoins[txid := V.Entry(tmp.value, false, tmp.value.IsPruned())];
    }

    method GetCoins(txid: V.Txid) returns (r: Option<Coins>)
      requires Valid()
      modifies Repr
      ensures Valid() && (AsView(), r) == V.GetCoins(old(AsView()), txid) && hasModifier == old(hasModifier)
      decreases Repr, 2
    {
      FetchCoins(txid);
      r := if txid in cacheCoins then Some(cacheCoins[txid].coins) else None;
    }

    method HaveCoins(txid: V.Txid) returns (have: bool)
      requires Valid()
      modifies Repr
      ensures Valid() && (AsView(), have) == V.HaveCoins(old(AsView()), txid)
      ensures old(V.StackInv(AsView())) ==> (have <==> V.Flat(old(AsView()), txid).Some?)
    {
      if V.StackInv(AsView()) { V.HaveCoinsSpec(AsView(), txid); }
      FetchCoins(txid);
      have := txid in cacheCoins && cacheCoins[txid].coins.vout != [];
    }

    /** Begin a modification: the entry is in the cache afterwards and marked dirty. */
    method ModifyCoins(txid: V.Txid)
      requires Valid() && !hasModifier
      modifies Repr
      ensures Valid() && AsView() == V.Opened(old(AsView()), txid) && hasModifier
    {
      if txid !in cacheCoins {
        var r := BaseGetCoins(txid);
        var e :=
          match r
          case None => V.Entry(NO_COINS, false, true)
          case Some(c) => V.Entry(c, false, c.IsPruned());
        cacheCoins := cacheCoins[txid := e];
      }
      cacheCoins := cacheCoins[txid := cacheCoins[txid].(dirty := true)];
      hasModifier := true;
    }

    /** The end of a modification that left coins c in the entry. */
    method EndModify(txid: V.Txid, c: Coins)
      requires Valid() && hasModifier && txid in cacheCoins
      modifies this`cacheCoins, this`hasModifier
      ensures Valid() && AsView() == V.Closed(old(AsView()), txid, c) && !hasModifier
    {
      cacheCoins := cacheCoins[txid := cacheCoins[txid].(coins := c)];
      hasModifier := false;
      cacheCoins := cacheCoins[txid := cacheCoins[txid].(coins := c.Cleanup())];
      if cacheCoins[txid].isFresh && cacheCoins[txid].coins.IsPruned() {
        cacheCoins := cacheCoins - {txid};
      }
    }

    /** Take in one entry of the cache above. */
    method WriteEntry(txid: V.Txid, it: V.Entry)
      requires it.dirty && !it.coins.IsPruned() && txid !in cacheCoins ==> it.isFresh
      modifies this`cacheCoins
      ensures cacheCoins ==
                match V.MergeEntry(V.Look(old(cacheCoins), txid), Some(it))
                case None => old(cacheCoins) - {txid}
                case Some(e) => old(cacheCoins)[txid := e]
    {
      if it.dirty {
        if txid !in cacheCoins {
          if !it.coins.IsPruned() {
            assert it.isFresh;
            cacheCoins := cacheCoins[txid := V.Entry(it.coins, true, true)];
          }
        } else {
          if cacheCoins[txid].isFresh && it.coins.IsPruned() {
            cacheCoins := cacheCoins - {txid};
          } else {
            cacheCoins := cacheCoins[txid := V.Entry(it.coins, true, cacheCoins[txid].isFresh)];
          }
        }
      }
    }

    /** Take in all entries of the cache above. */
    method WriteEntries(mapCoins: V.Entries)
      requires forall k :: k in mapCoins && k !in cacheCoins ==>
                 mapCoins[k].dirty && !mapCoins[k].coins.IsPruned() ==> mapCoins[k].isFresh
      modifies this`cacheCoins
      ensures cacheCoins == V.Merge(old(cacheCoins), mapCoins)
    {
      ghost var us := cacheCoins;
      var todo := mapCoins.Keys;
      while |todo| > 0
        invariant todo <= mapCoins.Keys
        invariant forall k :: V.Look(cacheCoins, k) ==
                    if k in todo then V.Look(us, k) else V.MergeEntry(V.Look(us, k), V.Look(mapCoins, k))
        decreases |todo|
      {
        KeyExists(todo);
        var k :| k in todo;
        assert V.Look(cacheCoins, k) == V.Look(us, k);
        WriteEntry(k, mapCoins[k]);
        todo := todo - {k};
      }
      MergedAll(us, mapCoins, cacheCoins);
    }

    /** Take in the cache above and its best block. */
    method BatchWrite(mapCoins: V.Entries, hashBlockIn: V.Hash)
      requires Valid() && !hasModifier && V.StackInv(V.Cache(AsView(), mapCoins, hashBlockIn))
      modifies this`cacheCoins, this`hashBlock
      ensures Valid() && AsView() == V.BatchWrite(old(AsView()), mapCoins, hashBlockIn)
    {
      forall k | k in mapCoins && mapCoins[k].dirty && !mapCoins[k].coins.IsPruned() && k !in cacheCoins
        ensures mapCoins[k].isFresh {
        V.WriteBackAssert(V.Cache(AsView(), mapCoins, hashBlockIn), k);
      }
      WriteEntries(mapCoins);
      hashBlock := hashBlockIn;
    }

    /** Write this layer into the one below and empty it. */
    method Flush()
      requires Valid() && V.StackInv(AsView()) && (parent != null ==> !parent.hasModifier)
      modifies Repr
      ensures Valid() && AsView() == V.Flush(old(AsView()))
      ensures V.StackInv(AsView()) && forall k :: V.Flat(AsView(), k) == V.Flat(old(AsView()), k)
    {
      V.FlushSpec(AsView());
      if parent == null {
        db.BatchWrite(cacheCoins, hashBlock);
      } else {
        assert AsView() == V.Cache(parent.AsView(), cacheCoins, hashBlock);
        parent.BatchWrite(cacheCoins, hashBlock);
      }
      cacheCoins := map[];
    }

    method GetBestBlock() returns (h: V.Hash)
      requires Valid()
      modifies Repr
      ensures Valid() && (AsView(), h) == V.GetBestBlock(old(AsView()))
      decreases Repr
    {
      if hashBlock == 0 {
        if parent == null {
          hashBlock := db.best;
        } else {
          hashBlock := parent.GetBestBlock();
        }
      }
      h := hashBlock;
    }

    method SetBestBlock(h: V.Hash)
      requires Valid()
      modifies this`hashBlock
      ensures Valid() && AsView() == V.Cache(old(Base()), old(cacheCoins), h)
    {
      hashBlock := h;
    }
  }
}
