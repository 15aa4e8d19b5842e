/**
 A stack of write-back caches over a database, as a value: what each call does to the
 layers, the flat map the stack stands for, and the invariant that ties the two together.
 */
module CoinsViews {
  import opened Common
  import opened Coins

  type Txid = int
  type Hash = int

  datatype Entry = Entry(coins: Coins, dirty: bool, isFresh: bool)

  type Entries = map<Txid, Entry>

  datatype View =
    | Disk(store: map<Txid, Coins>, best: Hash)
    | Cache(base: View, entries: Entries, hashBlock: Hash)

  // ------------------------------------------------------------ what the calls do

  /** Reading through a layer pulls the entry up into every cache above where it was found. */
  function GetCoins(v: View, k: Txid): (View, Option<Coins>)
    decreases v, 1
  {
    match v
    case Disk(store, _) => (v, if k in store then Some(store[k]) else None)
    case Cache(_, _, _) =>
      var u := Fetch(v, k);
      (u, if k in u.entries then Some(u.entries[k].coins) else None)
  }

  function Fetch(v: View, k: Txid): (u: View)
    requires v.Cache?
    ensures u.Cache? && u.hashBlock == v.hashBlock
    decreases v, 0
  {
    if k in v.entries then v
    else
      var (b, r) := GetCoins(v.base, k);
      match r
      case None => v.(base := b)
      case Some(c) => v.(base := b, entries := v.entries[k := Entry(c, false, c.IsPruned())])
  }

  /** What a call of ModifyCoins finds or puts in the cache before the caller changes it. */
  function Opened(v: View, k: Txid): (u: View)
    requires v.Cache?
    ensures u.Cache? && k in u.entries && u.hashBlock == v.hashBlock
  {
    if k in v.entries then v.(entries := v.entries[k := v.entries[k].(dirty := true)])
    else
      var (b, r) := GetCoins(v.base, k);
      var e :=
        match r
        case None => Entry(NO_COINS, true, true)
        case Some(c) => Entry(c, true, c.IsPruned());
      v.(base := b, entries := v.entries[k := e])
  }

  /** What the end of a modification leaves of an entry that now holds c. */
  function Closed(v: View, k: Txid, c: Coins): (u: View)
    requires v.Cache? && k in v.entries
    ensures u.Cache? && u.hashBlock == v.hashBlock
  {
    var e := v.entries[k].(coins := c.Cleanup());
    v.(entries := if e.isFresh && e.coins.IsPruned() then v.entries - {k} else v.entries[k := e])
  }

  /** A complete modification: the caller changes the coins it finds by f. */
  function Modify(v: View, k: Txid, f: Coins -> Coins): (u: View)
    requires v.Cache?
    ensures u.Cache? && u.hashBlock == v.hashBlock
  {
    var o := Opened(v, k);
    Closed(o, k, f(o.entries[k].coins))
  }

  /** One entry of a cache after an entry of the layer above was written into it. */
  function MergeEntry(us: Option<Entry>, it: Option<Entry>): Option<Entry> {
    match it
    case None => us
    case Some(e) =>
      if !e.dirty then us
      else
        match us
        case None => if e.coins.IsPruned() then None else Some(Entry(e.coins, true, true))
        case Some(u) =>
          if u.isFresh && e.coins.IsPruned() then None else Some(Entry(e.coins, true, u.isFresh))
  }

  function Look(m: Entries, k: Txid): Option<Entry> { if k in m then Some(m[k]) else None }

  function Merge(us: Entries, it: Entries): Entries {
    map k | k in us.Keys + it.Keys && MergeEntry(Look(us, k), Look(it, k)).Some?
      :: MergeEntry(Look(us, k), Look(it, k)).value
  }

  /** The database after a batch: dirty entries written, entirely spent ones erased. */
  function WriteStore(store: map<Txid, Coins>, it: Entries): map<Txid, Coins> {
    map k | k in store.Keys + it.Keys && !(k in it && it[k].dirty && it[k].coins.IsPruned())
              && (k in store || it[k].dirty)
      :: if k in it && it[k].dirty then it[k].coins else store[k]
  }

  function BatchWrite(v: View, it: Entries, hashBlock: Hash): View {
    match v
    case Disk(store, best) => Disk(WriteStore(store, it), if hashBlock != 0 then hashBlock else best)
    case Cache(base, entries, _) => Cache(base, Merge(entries, it), hashBlock)
  }

  function Flush(v: View): View
    requires v.Cache?
  {
    Cache(BatchWrite(v.base, v.entries, v.hashBlock), map[], v.hashBlock)
  }

  /** Reading the best block through a layer remembers it there. */
  function GetBestBlock(v: View): (View, Hash) {
    match v
    case Disk(_, best) => (v, best)
    case Cache(base, _, h) =>
      if h != 0 then (v, h)
      else
        var (b, best) := GetBestBlock(base);
        (v.(base := b, hashBlock := best), best)
  }

  // ------------------------------------------------------------ what the stack means

  /** Entirely spent counts as absent. */
  function Norm(c: Coins): Option<Coins> { if c.IsPruned() then None else Some(c) }

  /** What a read of the stack means: the uppermost copy, else what lies below. */
  function Flat(v: View, k: Txid): Option<Coins> {
    match v
    case Disk(store, _) => if k in store then Norm(store[k]) else None
    case Cache(base, entries, _) => if k in entries then Norm(entries[k].coins) else Flat(base, k)
  }

  function Best(v: View): Hash {
    match v
    case Disk(_, best) => best
    case Cache(base, _, h) => if h != 0 then h else Best(base)
  }

  /** What an entry promises about the layer below it. */
  ghost predicate EntryInv(base: View, k: Txid, e: Entry) {
    && e.coins.IsClean()
    && (e.isFresh ==> Flat(base, k) == None)
    && (!e.dirty ==> Norm(e.coins) == Flat(base, k))
    && (!e.isFresh && base.Cache? ==> k in base.entries)
  }

  ghost predicate StackInv(v: View) {
    match v
    case Disk(store, _) => forall k :: k in store ==> store[k].IsClean()
    case Cache(base, entries, _) => StackInv(base) && forall k :: k in entries ==> EntryInv(base, k, entries[k])
  }

  // ------------------------------------------------------------ reads

  /** Two stacks mean the same in every layer. */
  ghost predicate SameMeaning(v: View, u: View) {
    match v
    case Disk(_, _) => u == v
    case Cache(base, entries, h) =>
      && u.Cache?
      && u.hashBlock == h
      && SameMeaning(base, u.base)
      && (forall k :: Flat(v, k) == Flat(u, k))
      && (forall k :: k in entries ==> k in u.entries && u.entries[k] == entries[k])
  }

  lemma {:induction false} SameMeaningFlat(v: View, u: View, k: Txid)
    requires SameMeaning(v, u)
    ensures Flat(v, k) == Flat(u, k)
  {
  }

  lemma {:induction false} SameMeaningRefl(v: View)
    ensures SameMeaning(v, v)
  {
    if v.Cache? { SameMeaningRefl(v.base); }
  }

  /** A read answers with the flat value, up to entirely spent coins, and changes no meaning;
      the invariant stays, and what was found is now in the layer that was read. */
  lemma {:induction false} GetCoinsSpec(v: View, k: Txid)
    requires StackInv(v)
    ensures var (u, r) := GetCoins(v, k);
            && StackInv(u) && SameMeaning(v, u)
            && Flat(v, k) == (if r.Some? then Norm(r.value) else None)
            && (r.Some? ==> r.value.IsClean())
            && (r.Some? && u.Cache? ==> k in u.entries)
    decreases v, 1
  {
    match v
    case Disk(_, _) => 
    case Cache(_, _, _) => FetchSpec(v, k);
  }

  lemma {:induction false} FetchSpec(v: View, k: Txid)
    requires v.Cache? && StackInv(v)
    ensures var u := Fetch(v, k);
            && StackInv(u) && SameMeaning(v, u)
            && Flat(v, k) == (if k in u.entries then Norm(u.entries[k].coins) else None)
            && (k in u.entries ==> u.entries[k].coins.IsClean())
    decreases v, 0
  {
    var u := Fetch(v, k);
    if k in v.entries {
      SameMeaningRefl(v);
      assert EntryInv(v.base, k, v.entries[k]);
    } else {
      GetCoinsSpec(v.base, k);
      forall x | x in u.entries ensures EntryInv(u.base, x, u.entries[x]) {
        SameMeaningFlat(v.base, u.base, x);
        if x in v.entries { assert EntryInv(v.base, x, v.entries[x]); }
      }
      forall x ensures Flat(v, x) == Flat(u, x) { SameMeaningFlat(v.base, u.base, x); }
    }
  }

  /** The answer of HaveCoins: a cached copy with any output left. */
  function HaveCoins(v: View, k: Txid): (View, bool) {
    match v
    case Disk(store, _) => (v, k in store)
    case Cache(_, _, _) =>
      var u := Fetch(v, k);
      (u, k in u.entries && u.entries[k].coins.vout != [])
  }

  lemma HaveCoinsSpec(v: View, k: Txid)
    requires v.Cache? && StackInv(v)
    ensures HaveCoins(v, k).1 <==> Flat(v, k).Some?
  {
    FetchSpec(v, k);
    var u := Fetch(v, k);
    if k in u.entries { CleanEmpty(u.entries[k].coins); }
  }

  lemma CleanEmpty(c: Coins)
    requires c.IsClean()
    ensures c.IsPruned() <==> c.vout == []
  {
    if c.vout != [] { assert !c.vout[|c.vout| - 1].IsNull(); }
  }

  // ------------------------------------------------------------ modification

  lemma OpenedSpec(v: View, k: Txid)
    requires v.Cache? && StackInv(v)
    ensures var u := Opened(v, k);
            && StackInv(u) && SameMeaning(v.base, u.base)
            && (forall x :: Flat(u, x) == Flat(v, x))
            && u.entries[k].dirty
            && Norm(u.entries[k].coins) == Flat(v, k)
  {
    var u := Opened(v, k);
    GetCoinsSpec(v.base, k);
    SameMeaningRefl(v.base);
    forall x ensures Flat(v.base, x) == Flat(u.base, x) { SameMeaningFlat(v.base, u.base, x); }
    forall x | x in u.entries ensures EntryInv(u.base, x, u.entries[x]) {
      if x in v.entries { assert EntryInv(v.base, x, v.entries[x]); }
    }
  }

  lemma ClosedSpec(v: View, k: Txid, c: Coins)
    requires v.Cache? && StackInv(v) && k in v.entries && v.entries[k].dirty
    ensures var u := Closed(v, k, c);
            && StackInv(u) && u.base == v.base
            && (forall x :: x != k ==> Flat(u, x) == Flat(v, x))
            && Flat(u, k) == Norm(c.Cleanup())
            && ((Norm(c.Cleanup()) == None) <==> c.IsPruned())
  {
    CleanupKeeps(c, 0);
    var u := Closed(v, k, c);
    assert EntryInv(v.base, k, v.entries[k]);
    forall x | x in u.entries ensures EntryInv(u.base, x, u.entries[x]) {
      if x != k { assert EntryInv(v.base, x, v.entries[x]); }
    }
  }

  /** A modification changes the flat value of its key to what the caller made of it, and of
      no other key, and no lower layer. */
  lemma ModifySpec(v: View, k: Txid, f: Coins -> Coins)
    requires v.Cache? && StackInv(v)
    ensures var u := Modify(v, k, f);
            && StackInv(u) && SameMeaning(v.base, u.base)
            && (forall x :: x != k ==> Flat(u, x) == Flat(v, x))
            && exists c :: Norm(c) == Flat(v, k) && Flat(u, k) == Norm(f(c).Cleanup())
  {
    OpenedSpec(v, k);
    var o := Opened(v, k);
    ClosedSpec(o, k, f(o.entries[k].coins));
  }

  // ------------------------------------------------------------ writing back

  /** The assertion in the write-back: a live dirty entry that the layer below does not hold
      is marked as unknown to it. */
  lemma WriteBackAssert(v: View, k: Txid)
    requires v.Cache? && v.base.Cache? && StackInv(v)
    requires k in v.entries && v.entries[k].dirty && !v.entries[k].coins.IsPruned() && k !in v.base.entries
    ensures v.entries[k].isFresh
  {
    assert EntryInv(v.base, k, v.entries[k]);
  }

  lemma MergeInv(base: View, it: Entries, h: Hash, k: Txid)
    requires base.Cache? && StackInv(Cache(base, it, h)) && k in Merge(base.entries, it)
    ensures EntryInv(base.base, k, Merge(base.entries, it)[k])
  {
    if k in base.entries { assert EntryInv(base.base, k, base.entries[k]); }
    if k in it { assert EntryInv(base, k, it[k]); }
  }

  lemma MergeFlat(base: View, it: Entries, h: Hash, k: Txid)
    requires base.Cache? && StackInv(Cache(base, it, h))
    ensures Flat(Cache(base.base, Merge(base.entries, it), h), k) == Flat(Cache(base, it, h), k)
  {
    if k in base.entries { assert EntryInv(base.base, k, base.entries[k]); }
    if k in it { assert EntryInv(base, k, it[k]); }
  }

  /** Writing a cache back moves exactly its content into the layer below. */
  lemma BatchWriteSpec(base: View, it: Entries, h: Hash)
    requires StackInv(Cache(base, it, h))
    ensures var b := BatchWrite(base, it, h);
            && StackInv(b)
            && (forall k :: Flat(b, k) == Flat(Cache(base, it, h), k))
            && (b.Cache? ==> base.Cache? && b.base == base.base)
            && (b.Disk? ==> base.Disk?)
  {
    var b := BatchWrite(base, it, h);
    if base.Cache? {
      forall k ensures Flat(b, k) == Flat(Cache(base, it, h), k) { MergeFlat(base, it, h, k); }
      forall k | k in b.entries ensures EntryInv(b.base, k, b.entries[k]) { MergeInv(base, it, h, k); }
    } else {
      forall k ensures Flat(b, k) == Flat(Cache(base, it, h), k)
               ensures k in b.store ==> b.store[k].IsClean() {
        if k in it { assert EntryInv(base, k, it[k]); }
      }
    }
  }

  lemma FlushSpec(v: View)
    requires v.Cache? && StackInv(v)
    ensures var u := Flush(v);
            && StackInv(u) && u.entries == map[]
            && (forall k :: Flat(u, k) == Flat(v, k) && Flat(u.base, k) == Flat(v, k))
  {
    BatchWriteSpec(v.base, v.entries, v.hashBlock);
  }

  /** Writing back leaves the best block of the stack as it was exactly when the written
      layer knew its own best block, or nothing but the database lies below, or the layer
      below has no best block of its own to lose. */
  lemma FlushBest(v: View)
    requires v.Cache?
    ensures Best(Flush(v)) == Best(v) <==>
            (v.hashBlock != 0 || v.base.Disk? || v.base.hashBlock == 0 || v.base.hashBlock == Best(v.base.base))
  {
  }

  lemma {:induction false} GetBestBlockSpec(v: View)
    ensures var (u, h) := GetBestBlock(v);
            && h == Best(v) && Best(u) == h
            && (forall k :: Flat(u, k) == Flat(v, k))
  {
    if v.Cache? && v.hashBlock == 0 { GetBestBlockSpec(v.base); }
  }
}
