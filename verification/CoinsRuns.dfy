/**
 Every run of a stack of coin caches, in which only the top layer is used until it is
 written back or dropped, agrees with the same run on plain maps, one for each layer.
 */
module CoinsRuns {
  import opened Common
  import opened Coins
  import opened CoinsViews

  datatype Op =
    | Read(k: Txid)
    | Have(k: Txid)
    | Change(k: Txid, f: Coins -> Coins)
    | Push
    | WriteBack
    | Drop

  datatype Answer = NoAnswer | TheCoins(r: Option<Coins>) | YesNo(b: bool)

  type FlatMap = map<Txid, Coins>

  function LookFlat(m: FlatMap, k: Txid): Option<Coins> { if k in m then Some(m[k]) else None }

  function Depth(v: View): nat { if v.Disk? then 0 else 1 + Depth(v.base) }

  /** All entirely spent coins are changed to the same thing, up to entirely spent coins. */
  ghost predicate Blind(f: Coins -> Coins) {
    forall c: Coins :: c.IsPruned() ==> Norm(f(c).Cleanup()) == Norm(f(NO_COINS).Cleanup())
  }

  // ------------------------------------------------------------ the caches

  function Step(v: View, op: Op): (View, Answer)
    requires op.Push? || v.Cache?
  {
    match op
    case Read(k) => var (u, r) := GetCoins(v, k); (u, TheCoins(if r.Some? then Norm(r.value) else None))
    case Have(k) => var (u, b) := HaveCoins(v, k); (u, YesNo(b))
    case Change(k, f) => (Modify(v, k, f), NoAnswer)
    case Push => (Cache(v, map[], 0), NoAnswer)
    case WriteBack => (Flush(v), NoAnswer)
    case Drop => (v.base, NoAnswer)
  }

  // ------------------------------------------------------------ plain maps, the top one last

  function FlatStep(fs: seq<FlatMap>, op: Op): (seq<FlatMap>, Answer)
    requires |fs| >= 1 && (op.Push? || |fs| >= 2)
  {
    var low, top := fs[..|fs| - 1], fs[|fs| - 1];
    match op
    case Read(k) => (fs, TheCoins(LookFlat(top, k)))
    case Have(k) => (fs, YesNo(k in top))
    case Change(k, f) =>
      var c := Norm(f(if k in top then top[k] else NO_COINS).Cleanup());
      (low + [if c.Some? then top[k := c.value] else top - {k}], NoAnswer)
    case Push => (fs + [top], NoAnswer)
    case WriteBack => (low[|low| - 1 := top] + [top], NoAnswer)
    case Drop => (low, NoAnswer)
  }

  // ------------------------------------------------------------ agreement

  ghost predicate Agrees(v: View, m: FlatMap) {
    forall k :: Flat(v, k) == LookFlat(m, k)
  }

  ghost predicate Represents(v: View, fs: seq<FlatMap>) {
    && |fs| == Depth(v) + 1
    && Agrees(v, fs[|fs| - 1])
    && (v.Cache? ==> Represents(v.base, fs[..|fs| - 1]))
  }

  lemma {:induction false} SameRepresents(v: View, u: View, fs: seq<FlatMap>)
    requires SameMeaning(v, u) && Represents(v, fs)
    ensures Represents(u, fs) && Depth(u) == Depth(v)
  {
    if v.Cache? { SameRepresents(v.base, u.base, fs[..|fs| - 1]); }
    forall k ensures Flat(u, k) == LookFlat(fs[|fs| - 1], k) { SameMeaningFlat(v, u, k); }
  }

  ghost predicate Legal(op: Op) { op.Change? ==> Blind(op.f) }

  lemma ChangeTop(v: View, u: View, top: FlatMap, k: Txid, f: Coins -> Coins, c: Coins)
    requires Agrees(v, top) && Blind(f)
    requires Norm(c) == Flat(v, k) && Flat(u, k) == Norm(f(c).Cleanup())
    requires forall x :: x != k ==> Flat(u, x) == Flat(v, x)
    ensures var n := Norm(f(if k in top then top[k] else NO_COINS).Cleanup());
            Agrees(u, if n.Some? then top[k := n.value] else top - {k})
  {
    hide Flat;
    var n := Norm(f(if k in top then top[k] else NO_COINS).Cleanup());
    assert Flat(v, k) == LookFlat(top, k);
    assert Flat(u, k) == n;
    var top' := if n.Some? then top[k := n.value] else top - {k};
    forall x ensures Flat(u, x) == LookFlat(top', x) {
      assert Flat(v, x) == LookFlat(top, x);
    }
  }

  lemma ChangeRefines(v: View, fs: seq<FlatMap>, k: Txid, f: Coins -> Coins)
    requires v.Cache? && StackInv(v) && Represents(v, fs) && Blind(f)
    ensures Represents(Modify(v, k, f), FlatStep(fs, Change(k, f)).0)
  {
    hide Modify, Flat, Norm, StackInv;
    var u := Modify(v, k, f);
    var low, top := fs[..|fs| - 1], fs[|fs| - 1];
    var gs := FlatStep(fs, Change(k, f)).0;
    ModifySpec(v, k, f);
    SameRepresents(v.base, u.base, low);
    assert gs[..|gs| - 1] == low;
    var c :| Norm(c) == Flat(v, k) && Flat(u, k) == Norm(f(c).Cleanup());
    ChangeTop(v, u, top, k, f, c);
  }

  lemma WriteBackRefines(v: View, fs: seq<FlatMap>)
    requires v.Cache? && StackInv(v) && Represents(v, fs)
    ensures Represents(Flush(v), FlatStep(fs, WriteBack).0)
  {
    FlushSpec(v);
    BatchWriteSpec(v.base, v.entries, v.hashBlock);
    var u := Flush(v);
    var low, top := fs[..|fs| - 1], fs[|fs| - 1];
    var gs := FlatStep(fs, WriteBack).0;
    var low' := low[|low| - 1 := top];
    assert gs[..|gs| - 1] == low' && gs[|gs| - 1] == top;
    forall k ensures Flat(u, k) == LookFlat(top, k) && Flat(u.base, k) == LookFlat(top, k) {
      assert Flat(v, k) == LookFlat(top, k);
    }
    if u.base.Cache? { assert low'[..|low'| - 1] == low[..|low| - 1]; }
    assert Represents(u.base, low');
  }

  /** One step on the caches is one step on the maps, with the same answer. */
  lemma StepRefines(v: View, fs: seq<FlatMap>, op: Op)
    requires StackInv(v) && Represents(v, fs) && Legal(op) && (op.Push? || v.Cache?)
    ensures var (u, a) := Step(v, op);
            var (gs, b) := FlatStep(fs, op);
            StackInv(u) && Represents(u, gs) && a == b
  {
    var top := fs[|fs| - 1];
    match op
    case Read(k) =>
      GetCoinsSpec(v, k);
      SameRepresents(v, GetCoins(v, k).0, fs);
      assert Flat(v, k) == LookFlat(top, k);
    case Have(k) =>
      HaveCoinsSpec(v, k);
      FetchSpec(v, k);
      SameRepresents(v, Fetch(v, k), fs);
      assert Flat(v, k) == LookFlat(top, k);
    case Change(k, f) =>
      ModifySpec(v, k, f);
      ChangeRefines(v, fs, k, f);
    case Push =>
      assert (fs + [top])[..|fs|] == fs;
      var u := Cache(v, map[], 0);
      forall k ensures Flat(u, k) == LookFlat(top, k) { assert Flat(v, k) == LookFlat(top, k); }
    case WriteBack =>
      FlushSpec(v);
      WriteBackRefines(v, fs);
    case Drop =>
  }

  /** A run never uses a layer that is not there. */
  ghost predicate Possible(depth: nat, ops: seq<Op>)
    decreases |ops|
  {
    ops == [] ||
    (var op := ops[0];
     && Legal(op)
     && (op.Push? || depth > 0)
     && Possible(if op.Push? then depth + 1 else if op.Drop? then depth - 1 else depth, ops[1..]))
  }

  function Run(v: View, ops: seq<Op>): (View, seq<Answer>)
    requires Possible(Depth(v), ops)
    decreases |ops|
  {
    if ops == [] then (v, [])
    else
      StepDepth(v, ops[0]);
      var (u, a) := Step(v, ops[0]);
      var (w, rest) := Run(u, ops[1..]);
      (w, [a] + rest)
  }

  function FlatRun(fs: seq<FlatMap>, ops: seq<Op>): (seq<FlatMap>, seq<Answer>)
    requires |fs| >= 1 && Possible(|fs| - 1, ops)
    decreases |ops|
  {
    if ops == [] then (fs, [])
    else
      var (gs, a) := FlatStep(fs, ops[0]);
      var (hs, rest) := FlatRun(gs, ops[1..]);
      (hs, [a] + rest)
  }

  lemma StepDepth(v: View, op: Op)
    requires op.Push? || v.Cache?
    ensures Depth(Step(v, op).0) == if op.Push? then Depth(v) + 1 else if op.Drop? then Depth(v) - 1 else Depth(v)
  {
    match op
    case Read(k) => ReadDepth(v, k);
    case Have(k) => ReadDepth(v, k);
    case Change(k, f) => ReadDepth(v.base, k);
    case Push =>
    case WriteBack =>
    case Drop =>
  }

  lemma {:induction false} ReadDepth(v: View, k: Txid)
    ensures Depth(GetCoins(v, k).0) == Depth(v)
  {
    if v.Cache? { ReadDepth(v.base, k); }
  }

  /** Every run on the caches gives the answers of the run on plain maps, and leaves layers
      that mean those maps. */
  lemma {:induction false} RunRefines(v: View, fs: seq<FlatMap>, ops: seq<Op>)
    requires StackInv(v) && Represents(v, fs) && Possible(Depth(v), ops)
    ensures var (u, a) := Run(v, ops);
            var (gs, b) := FlatRun(fs, ops);
            StackInv(u) && Represents(u, gs) && a == b
    decreases |ops|
  {
    if ops != [] {
      StepDepth(v, ops[0]);
      StepRefines(v, fs, ops[0]);
      RunRefines(Step(v, ops[0]).0, FlatStep(fs, ops[0]).0, ops[1..]);
    }
  }
}
