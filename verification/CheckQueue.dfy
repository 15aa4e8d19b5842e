/**
 The parallel check queue as a state machine. Each step is one critical section of one
 thread, up to where it gives the mutex back, or one check executed outside it. Thread 0 is
 the master; any number of workers may start at any time. A check is its outcome.
 */
module CheckQueue {
  datatype Thread =
    | Outside                                             // not in Loop
    | Open                                                // the master between IsIdle and Wait
    | Executing(todo: seq<bool>, nNow: nat, fOk: bool)    // a batch taken and not yet reported
    | Waiting(notified: bool)                             // in the wait on its condition
    | Exited

  /** `added` is the conjunction of all checks added since the last Wait returned; the log
      keeps it beside what each Wait returned. */
  datatype State = State(
    queue: seq<bool>,
    nIdle: int,
    nTotal: int,
    fAllOk: bool,
    nTodo: int,
    fQuit: bool,
    nBatchSize: nat,
    threads: seq<Thread>,
    added: bool,
    log: seq<(bool, bool)>)

  datatype Step =
    | Begin                             // the controller is constructed
    | Add(checks: seq<bool>, pick: int) // pick: the worker that notify_one wakes
    | Enter(t: nat)                     // a thread gets the mutex in Loop for the first time
    | Execute(t: nat)
    | Report(t: nat)                    // a thread gets the mutex again after its batch
    | Wake(t: nat)                      // a waiting thread gets the mutex, notified or not

  predicate AllTrue(s: seq<bool>) { forall i :: 0 <= i < |s| ==> s[i] }

  predicate IsIdle(s: State) { s.nTotal == s.nIdle && s.nTodo == 0 && s.fAllOk }

  // ------------------------------------------------------------ the critical sections

  function BatchSize(s: State): (n: nat)
    requires |s.queue| > 0 && s.nTotal >= 0 && s.nIdle >= 0
    ensures 1 <= n <= |s.queue|
  {
    var share := |s.queue| / (s.nTotal + s.nIdle + 1);
    DivBound(|s.queue|, s.nTotal + s.nIdle + 1);
    var m := if s.nBatchSize < share then s.nBatchSize else share;
    if m < 1 then 1 else m
  }

  lemma MulGrows(q: nat, b: nat)
    requires b >= 1
    ensures q <= q * b
  {
  }

  lemma DivBound(a: nat, b: nat)
    requires b >= 1
    ensures 0 <= a / b <= a
  {
    var q := a / b;
    assert q * b <= a;
    MulGrows(q, b);
  }

  /** The last n checks of the queue, the last one first. */
  function Batch(queue: seq<bool>, n: nat): seq<bool>
    requires n <= |queue|
  {
    seq(n, i requires 0 <= i < n => queue[|queue| - 1 - i])
  }

  /** The rest of a critical section, from the loop on an empty queue on. */
  function Proceed(s: State, t: nat): State
    requires t < |s.threads| && s.nTotal >= 0 && s.nIdle >= 0
  {
    var fMaster := t == 0;
    if s.queue == [] then
      if (fMaster || s.fQuit) && s.nTodo == 0 then
        var u := s.(nTotal := s.nTotal - 1);
        if fMaster
        then u.(threads := s.threads[0 := Outside], fAllOk := true,
                log := s.log + [(s.added, s.fAllOk)], added := true)
        else u.(threads := s.threads[t := Exited])
      else s.(nIdle := s.nIdle + 1, threads := s.threads[t := Waiting(false)])
    else
      var n := BatchSize(s);
      s.(queue := s.queue[..|s.queue| - n],
         threads := s.threads[t := Executing(Batch(s.queue, n), n, s.fAllOk)])
  }

  function NotifyMaster(threads: seq<Thread>): seq<Thread>
    requires |threads| > 0
  {
    if threads[0].Waiting? then threads[0 := Waiting(true)] else threads
  }

  function NotifyAll(threads: seq<Thread>): seq<Thread> {
    seq(|threads|, i requires 0 <= i < |threads| =>
      if i > 0 && threads[i].Waiting? then Waiting(true) else threads[i])
  }

  predicate Sleeps(threads: seq<Thread>, t: int) { 0 < t < |threads| && threads[t] == Waiting(false) }

  ghost predicate Enabled(s: State, a: Step) {
    |s.threads| > 0 &&
    match a
    case Begin => s.threads[0].Outside?
    case Add(checks, pick) =>
      s.threads[0].Open? && (Sleeps(s.threads, pick) || forall t :: !Sleeps(s.threads, t))
    case Enter(t) => t < |s.threads| && (if t == 0 then s.threads[0].Open? else s.threads[t].Outside?)
    case Execute(t) => t < |s.threads| && s.threads[t].Executing? && s.threads[t].todo != []
    case Report(t) => t < |s.threads| && s.threads[t].Executing? && s.threads[t].todo == []
    case Wake(t) => t < |s.threads| && s.threads[t].Waiting?
  }

  /** The clean-up of the previous run of the loop. */
  function Reported(s: State, t: nat): State
    requires t < |s.threads| && s.threads[t].Executing?
  {
    var e := s.threads[t];
    var left := s.nTodo - e.nNow;
    s.(fAllOk := s.fAllOk && e.fOk, nTodo := left,
       threads := if left == 0 && t != 0 then NotifyMaster(s.threads) else s.threads)
  }

  function Apply(s: State, a: Step): State
    requires Inv(s) && Enabled(s, a)
  {
    match a
    case Begin => s.(threads := s.threads[0 := Open])
    case Add(checks, pick) =>
      s.(queue := s.queue + checks,
         nTodo := s.nTodo + |checks|,
         added := s.added && AllTrue(checks),
         threads :=
           if |checks| == 1 then (if Sleeps(s.threads, pick) then s.threads[pick := Waiting(true)] else s.threads)
           else if |checks| > 1 then NotifyAll(s.threads)
           else s.threads)
    case Enter(t) => Proceed(s.(nTotal := s.nTotal + 1), t)
    case Execute(t) =>
      var e := s.threads[t];
      s.(threads := s.threads[t := e.(todo := e.todo[1..], fOk := if e.fOk then e.todo[0] else false)])
    case Report(t) =>
      SumUpdate(s.threads, t, Outside, Active);
      Proceed(Reported(s, t), t)
    case Wake(t) =>
      SumUpdate(s.threads, t, Outside, Idle);
      Proceed(s.(nIdle := s.nIdle - 1), t)
  }

  // ------------------------------------------------------------ sums over threads

  function Sum(ts: seq<Thread>, w: Thread -> nat): nat {
    if ts == [] then 0 else Sum(ts[..|ts| - 1], w) + w(ts[|ts| - 1])
  }

  function Idle(t: Thread): nat { if t.Waiting? then 1 else 0 }

  function Active(t: Thread): nat { if t.Waiting? || t.Executing? then 1 else 0 }

  function Taken(t: Thread): nat { if t.Executing? then t.nNow else 0 }

  // ------------------------------------------------------------ the invariant

  /** The outcome so far of what a thread has taken. */
  predicate StillOk(t: Thread) { t.Executing? ==> t.fOk && AllTrue(t.todo) }

  predicate AllOk(ts: seq<Thread>) { forall i :: 0 <= i < |ts| ==> StillOk(ts[i]) }

  ghost predicate Inv(s: State) {
    && |s.threads| > 0
    && s.nIdle == Sum(s.threads, Idle)
    && s.nTotal == Sum(s.threads, Active)
    && s.nTodo == |s.queue| + Sum(s.threads, Taken)
    && (forall i :: 0 <= i < |s.threads| && s.threads[i].Executing? ==> s.threads[i].nNow >= 1)
    && (s.added <==> s.fAllOk && AllTrue(s.queue) && AllOk(s.threads))
    && MasterInv(s)
    && (forall i :: 0 <= i < |s.log| ==> s.log[i].0 == s.log[i].1)
  }

  /** Between sessions nothing is outstanding; a waiting master has an empty queue and, unless
      it has been notified, something outstanding. */
  ghost predicate MasterInv(s: State)
    requires |s.threads| > 0
  {
    && (s.threads[0].Outside? ==> s.nTodo == 0 && s.fAllOk)
    && (s.threads[0].Waiting? ==> s.queue == [])
    && (s.threads[0] == Waiting(false) ==> s.nTodo > 0)
    && !s.threads[0].Exited?
    && (forall i :: 0 < i < |s.threads| ==> !s.threads[i].Open?)
  }

  lemma {:induction false} SumUpdate(ts: seq<Thread>, i: nat, x: Thread, w: Thread -> nat)
    requires i < |ts|
    ensures Sum(ts[i := x], w) == Sum(ts, w) - w(ts[i]) + w(x)
    ensures w(ts[i]) <= Sum(ts, w)
  {
    var last := |ts| - 1;
    var us := ts[i := x];
    if i == last {
      assert us[..last] == ts[..last];
    } else {
      SumUpdate(ts[..last], i, x, w);
      assert us[..last] == ts[..last][i := x];
    }
  }

  lemma {:induction false} SumSame(ts: seq<Thread>, us: seq<Thread>, w: Thread -> nat)
    requires |ts| == |us| && forall i :: 0 <= i < |ts| ==> w(ts[i]) == w(us[i])
    ensures Sum(ts, w) == Sum(us, w)
  {
    if ts != [] {
      SumSame(ts[..|ts| - 1], us[..|us| - 1], w);
    }
  }

  lemma {:induction false} SumZero(ts: seq<Thread>, w: Thread -> nat)
    requires Sum(ts, w) == 0
    ensures forall i :: 0 <= i < |ts| ==> w(ts[i]) == 0
  {
    if ts != [] {
      SumZero(ts[..|ts| - 1], w);
      forall i | 0 <= i < |ts| ensures w(ts[i]) == 0 {
        if i < |ts| - 1 { assert ts[i] == ts[..|ts| - 1][i]; }
      }
    }
  }

  /** A thread inside a critical section of Loop, before the loop on an empty queue: it is
      counted, is not idle and has nothing taken. */
  ghost predicate Inside(s: State, t: nat) {
    && t < |s.threads|
    && var ts := s.threads[t := Outside];
    && s.nIdle == Sum(ts, Idle)
    && s.nTotal == Sum(ts, Active) + 1
    && s.nTodo == |s.queue| + Sum(ts, Taken)
    && (forall i :: 0 <= i < |ts| && ts[i].Executing? ==> ts[i].nNow >= 1)
    && (s.added <==> s.fAllOk && AllTrue(s.queue) && AllOk(ts))
    && (t > 0 ==> MasterInv(s))
    && (forall i :: 0 < i < |s.threads| ==> !s.threads[i].Open?)
    && (forall i :: 0 <= i < |s.log| ==> s.log[i].0 == s.log[i].1)
  }

  lemma NothingTaken(s: State, t: nat)
    requires Inside(s, t) && s.nTodo == 0
    ensures s.queue == [] && (s.added <==> s.fAllOk)
    ensures forall i :: 0 <= i < |s.threads| && i != t ==> !s.threads[i].Executing?
  {
    var ts := s.threads[t := Outside];
    SumZero(ts, Taken);
    forall i | 0 <= i < |ts| ensures !ts[i].Executing? && StillOk(ts[i]) {
      assert Taken(ts[i]) == 0;
    }
    forall i | 0 <= i < |s.threads| && i != t ensures !s.threads[i].Executing? { assert ts[i] == s.threads[i]; }
  }

  lemma ReturnInv(s: State, t: nat)
    requires Inside(s, t) && s.queue == [] && (t == 0 || s.fQuit) && s.nTodo == 0
    ensures Inv(Proceed(s, t))
  {
    NothingTaken(s, t);
    var ts := s.threads[t := Outside];
    var u := Proceed(s, t);
    var x := if t == 0 then Outside else Exited;
    assert u.threads == ts[t := x];
    SumUpdate(ts, t, x, Idle);
    SumUpdate(ts, t, x, Active);
    SumUpdate(ts, t, x, Taken);
    forall i | 0 <= i < |u.threads| ensures !u.threads[i].Executing? {
      if i != t { assert u.threads[i] == s.threads[i]; }
    }
  }

  lemma WaitInv(s: State, t: nat)
    requires Inside(s, t) && s.queue == [] && !((t == 0 || s.fQuit) && s.nTodo == 0)
    ensures Inv(Proceed(s, t))
  {
    var ts := s.threads[t := Outside];
    var u := Proceed(s, t);
    assert u.threads == ts[t := Waiting(false)];
    SumUpdate(ts, t, Waiting(false), Idle);
    SumUpdate(ts, t, Waiting(false), Active);
    SumUpdate(ts, t, Waiting(false), Taken);
    OthersOk(ts, t, Waiting(false));
  }

  lemma OthersOk(ts: seq<Thread>, t: nat, x: Thread)
    requires t < |ts| && StillOk(ts[t])
    ensures AllOk(ts[t := x]) <==> AllOk(ts) && StillOk(x)
  {
    var us := ts[t := x];
    if AllOk(us) {
      assert StillOk(us[t]);
      forall i | 0 <= i < |ts| ensures StillOk(ts[i]) { if i != t { assert StillOk(us[i]); } }
    }
  }

  lemma BatchSplits(q: seq<bool>, n: nat)
    requires n <= |q|
    ensures AllTrue(q) <==> AllTrue(q[..|q| - n]) && AllTrue(Batch(q, n))
    ensures |Batch(q, n)| == n
  {
    var a, b := q[..|q| - n], Batch(q, n);
    if AllTrue(a) && AllTrue(b) {
      forall i | 0 <= i < |q| ensures q[i] {
        if i < |q| - n { assert a[i]; } else { assert b[|q| - 1 - i]; }
      }
    }
  }

  lemma TakeInv(s: State, t: nat)
    requires Inside(s, t) && s.queue != []
    ensures Inv(Proceed(s, t))
  {
    var ts := s.threads[t := Outside];
    var n := BatchSize(s);
    var x := Executing(Batch(s.queue, n), n, s.fAllOk);
    var u := Proceed(s, t);
    assert u.threads == ts[t := x];
    SumUpdate(ts, t, x, Idle);
    SumUpdate(ts, t, x, Active);
    SumUpdate(ts, t, x, Taken);
    OthersOk(ts, t, x);
    BatchSplits(s.queue, n);
  }

  lemma ProceedInv(s: State, t: nat)
    requires Inside(s, t)
    ensures Inv(Proceed(s, t))
  {
    if s.queue != [] {
      TakeInv(s, t);
    } else if (t == 0 || s.fQuit) && s.nTodo == 0 {
      ReturnInv(s, t);
    } else {
      WaitInv(s, t);
    }
  }

  lemma EnterInv(s: State, t: nat)
    requires Inv(s) && Enabled(s, Enter(t))
    ensures Inv(Apply(s, Enter(t)))
  {
    hide Proceed, AllTrue, Sum, AllOk;
    var u := s.(nTotal := s.nTotal + 1);
    var ts := s.threads[t := Outside];
    SumUpdate(s.threads, t, Outside, Idle);
    SumUpdate(s.threads, t, Outside, Active);
    SumUpdate(s.threads, t, Outside, Taken);
    OthersOk(s.threads, t, Outside);
    assert Inside(u, t);
    ProceedInv(u, t);
  }

  lemma WakeInv(s: State, t: nat)
    requires Inv(s) && Enabled(s, Wake(t))
    ensures Inv(Apply(s, Wake(t)))
  {
    var u := s.(nIdle := s.nIdle - 1);
    var ts := s.threads[t := Outside];
    SumUpdate(s.threads, t, Outside, Idle);
    SumUpdate(s.threads, t, Outside, Active);
    SumUpdate(s.threads, t, Outside, Taken);
    OthersOk(s.threads, t, Outside);
    assert Inside(u, t);
    ProceedInv(u, t);
  }

  lemma ExecuteOk(e: Thread, x: Thread)
    requires e.Executing? && e.todo != []
    requires x == e.(todo := e.todo[1..], fOk := if e.fOk then e.todo[0] else false)
    ensures StillOk(x) <==> StillOk(e)
  {
    if e.todo[0] && AllTrue(e.todo[1..]) {
      forall i | 0 <= i < |e.todo| ensures e.todo[i] { if i > 0 { assert e.todo[1..][i - 1]; } }
    }
  }

  lemma ExecuteInv(s: State, t: nat)
    requires Inv(s) && Enabled(s, Execute(t))
    ensures Inv(Apply(s, Execute(t)))
  {
    hide Proceed, StillOk, AllOk, AllTrue, Sum;
    var e := s.threads[t];
    var x := e.(todo := e.todo[1..], fOk := if e.fOk then e.todo[0] else false);
    SumUpdate(s.threads, t, x, Idle);
    SumUpdate(s.threads, t, x, Active);
    SumUpdate(s.threads, t, x, Taken);
    ExecuteOk(e, x);
    SwapOk(s.threads, t, x);
  }

  lemma SwapOk(ts: seq<Thread>, t: nat, x: Thread)
    requires t < |ts| && (StillOk(ts[t]) <==> StillOk(x))
    ensures AllOk(ts[t := x]) <==> AllOk(ts)
  {
    var us := ts[t := x];
    if AllOk(us) {
      assert StillOk(us[t]);
      forall i | 0 <= i < |ts| ensures StillOk(ts[i]) { if i != t { assert StillOk(us[i]); } }
    }
  }

  lemma ReportSums(s: State, t: nat, w: Thread -> nat)
    requires t < |s.threads| && s.threads[t].Executing? && w(Waiting(false)) == w(Waiting(true))
    ensures Sum(Reported(s, t).threads[t := Outside], w) == Sum(s.threads, w) - w(s.threads[t]) + w(Outside)
  {
    SumUpdate(s.threads, t, Outside, w);
    var ts, us := s.threads[t := Outside], Reported(s, t).threads[t := Outside];
    forall i | 0 <= i < |ts| ensures w(ts[i]) == w(us[i]) {
      assert ts[i] == us[i] || (ts[i].Waiting? && us[i] == Waiting(true));
      if ts[i].Waiting? { assert ts[i] == Waiting(false) || ts[i] == Waiting(true); }
    }
    SumSame(ts, us, w);
  }

  lemma ReportInside(s: State, t: nat)
    requires Inv(s) && Enabled(s, Report(t))
    ensures Inside(Reported(s, t), t)
  {
    hide Proceed, StillOk, AllOk, Sum;
    ReportSums(s, t, Idle);
    ReportSums(s, t, Active);
    ReportSums(s, t, Taken);
    ReportOk(s.threads, Reported(s, t).threads, t);
  }

  lemma ReportInv(s: State, t: nat)
    requires Inv(s) && Enabled(s, Report(t))
    ensures Inv(Apply(s, Report(t)))
  {
    hide Proceed, Inv, Inside;
    ReportInside(s, t);
    ProceedInv(Reported(s, t), t);
  }

  /** Dropping a finished batch and notifying the master: what was still to be seen of the
      batch is its outcome. */
  lemma ReportOk(ts: seq<Thread>, us: seq<Thread>, t: nat)
    requires t < |ts| && ts[t].Executing? && ts[t].todo == [] && |us| == |ts|
    requires forall i :: 0 <= i < |ts| ==> us[i] == ts[i] || (us[i].Waiting? && ts[i].Waiting?)
    ensures AllOk(ts) <==> ts[t].fOk && AllOk(us[t := Outside])
  {
    var vs := us[t := Outside];
    if AllOk(ts) {
      assert StillOk(ts[t]);
      forall i | 0 <= i < |vs| ensures StillOk(vs[i]) { assert StillOk(ts[i]); }
    }
    if ts[t].fOk && AllOk(vs) {
      forall i | 0 <= i < |ts| ensures StillOk(ts[i]) { assert StillOk(vs[i]); }
    }
  }

  lemma AddInv(s: State, checks: seq<bool>, pick: int)
    requires Inv(s) && Enabled(s, Add(checks, pick))
    ensures Inv(Apply(s, Add(checks, pick)))
  {
    hide Proceed, AllTrue, Sum, StillOk, AllOk;
    var u := Apply(s, Add(checks, pick));
    SumSame(s.threads, u.threads, Idle);
    SumSame(s.threads, u.threads, Active);
    SumSame(s.threads, u.threads, Taken);
    WokenOk(s.threads, u.threads);
    AllTrueConcat(s.queue, checks);
  }

  lemma WokenOk(ts: seq<Thread>, us: seq<Thread>)
    requires |us| == |ts|
    requires forall i :: 0 <= i < |ts| ==> us[i] == ts[i] || (us[i].Waiting? && ts[i].Waiting?)
    ensures AllOk(us) <==> AllOk(ts)
  {
    if AllOk(us) {
      forall i | 0 <= i < |ts| ensures StillOk(ts[i]) { assert StillOk(us[i]); }
    }
    if AllOk(ts) {
      forall i | 0 <= i < |us| ensures StillOk(us[i]) { assert StillOk(ts[i]); }
    }
  }

  lemma AllTrueConcat(a: seq<bool>, b: seq<bool>)
    ensures AllTrue(a + b) <==> AllTrue(a) && AllTrue(b)
  {
    if AllTrue(a + b) {
      forall i | 0 <= i < |a| ensures a[i] { assert (a + b)[i]; }
      forall i | 0 <= i < |b| ensures b[i] { assert (a + b)[|a| + i]; }
    }
  }

  lemma ApplyInv(s: State, a: Step)
    requires Inv(s) && Enabled(s, a)
    ensures Inv(Apply(s, a))
  {
    match a
    case Begin =>
      SumSame(s.threads, s.threads[0 := Open], Idle);
      SumSame(s.threads, s.threads[0 := Open], Active);
      SumSame(s.threads, s.threads[0 := Open], Taken);
      SwapOk(s.threads, 0, Open);
    case Add(checks, pick) => AddInv(s, checks, pick);
    case Enter(t) => EnterInv(s, t);
    case Execute(t) => ExecuteInv(s, t);
    case Report(t) => ReportInv(s, t);
    case Wake(t) => WakeInv(s, t);
  }

  // ------------------------------------------------------------ whole runs

  lemma {:induction false} AllOutside(n: nat, w: Thread -> nat)
    requires w(Outside) == 0
    ensures Sum(seq(n, i => Outside), w) == 0
  {
    var ts := seq(n, i => Outside);
    if n > 0 {
      AllOutside(n - 1, w);
      assert ts[..n - 1] == seq(n - 1, i => Outside);
    }
  }

  /** A new queue, with workers that have not started. */
  ghost function Initial(nBatchSize: nat, workers: nat, fQuit: bool): (s: State)
    ensures Inv(s)
  {
    AllOutside(workers + 1, Idle);
    AllOutside(workers + 1, Active);
    AllOutside(workers + 1, Taken);
    State([], 0, 0, true, 0, fQuit, nBatchSize, seq(workers + 1, i => Outside), true, [])
  }

  /** The steps, taken in order, are all possible and lead from s to u. */
  ghost predicate Leads(s: State, steps: seq<Step>, u: State)
    requires Inv(s)
    decreases |steps|
  {
    if steps == [] then u == s
    else Enabled(s, steps[0]) && (ApplyInv(s, steps[0]); Leads(Apply(s, steps[0]), steps[1..], u))
  }

  lemma {:induction false} LeadsInv(s: State, steps: seq<Step>, u: State)
    requires Inv(s) && Leads(s, steps, u)
    ensures Inv(u)
    decreases |steps|
  {
    hide Inv, Apply, Enabled;
    if steps != [] {
      ApplyInv(s, steps[0]);
      LeadsInv(Apply(s, steps[0]), steps[1..], u);
    }
  }

  lemma IdleBetweenSessions(s: State)
    requires Inv(s) && s.threads[0].Outside?
    ensures IsIdle(s)
  {
    SumZero(s.threads, Taken);
    forall i | 0 <= i < |s.threads| ensures Idle(s.threads[i]) == Active(s.threads[i]) {
      assert Taken(s.threads[i]) == 0;
    }
    SumWeights(s.threads, Idle, Active);
  }

  lemma {:induction false} SumWeights(ts: seq<Thread>, v: Thread -> nat, w: Thread -> nat)
    requires forall i :: 0 <= i < |ts| ==> v(ts[i]) == w(ts[i])
    ensures Sum(ts, v) == Sum(ts, w)
  {
    if ts != [] {
      SumWeights(ts[..|ts| - 1], v, w);
    }
  }

  /** In every interleaving: each Wait returned the conjunction of the checks added for it;
      nTodo counts the queued checks and those taken and not yet reported; a queue that is
      about to be handed to a new controller is idle; and a master that waits without a
      notification has something outstanding. */
  lemma RunsAreSafe(nBatchSize: nat, workers: nat, fQuit: bool, steps: seq<Step>, u: State)
    requires Leads(Initial(nBatchSize, workers, fQuit), steps, u)
    ensures forall i :: 0 <= i < |u.log| ==> u.log[i].0 == u.log[i].1
    ensures u.nTodo == |u.queue| + Sum(u.threads, Taken)
    ensures |u.threads| > 0 && (u.threads[0].Outside? ==> IsIdle(u))
    ensures u.threads[0] == Waiting(false) ==> u.queue == [] && u.nTodo > 0
  {
    LeadsInv(Initial(nBatchSize, workers, fQuit), steps, u);
    if u.threads[0].Outside? {
      IdleBetweenSessions(u);
    }
  }

  // ------------------------------------------------------------ Wait comes to an end

  /** How much a thread has still to do. */
  function Weight(t: Thread): nat {
    match t
    case Outside => 4
    case Open => 4
    case Executing(todo, _, _) => 2 * |todo| + 3
    case Waiting(notified) => if notified then 2 else 1
    case Exited => 0
  }

  function Measure(s: State): nat { 10 * |s.queue| + Sum(s.threads, Weight) }

  predicate InWait(s: State) { |s.threads| > 0 && !s.threads[0].Outside? && !s.threads[0].Open? }

  /** The step makes Wait return or brings its end nearer. */
  ghost predicate Productive(s: State, a: Step)
    requires Inv(s) && Enabled(s, a)
  {
    var u := Apply(s, a);
    |u.log| > |s.log| || Measure(u) < Measure(s)
  }

  lemma ProceedMeasure(s: State, t: nat)
    requires t < |s.threads| && s.nTotal >= 0 && s.nIdle >= 0
    ensures
      var u, rest := Proceed(s, t), 10 * |s.queue| + Sum(s.threads[t := Exited], Weight);
      || |u.log| > |s.log|
      || (s.queue != [] && Measure(u) < rest)
      || (s.queue == [] && Measure(u) <= rest)
      || (s.queue == [] && u == s.(nIdle := s.nIdle + 1, threads := s.threads[t := Waiting(false)])
          && Measure(u) == rest + 1)
  {
    hide Sum;
    var ts, u := s.threads[t := Exited], Proceed(s, t);
    var x := u.threads[t];
    if |u.log| == |s.log| {
      assert u.threads == ts[t := x];
      SumUpdate(ts, t, x, Weight);
    }
  }

  lemma NotifyMeasure(ts: seq<Thread>)
    requires |ts| > 0
    ensures Sum(NotifyMaster(ts), Weight) <= Sum(ts, Weight) + 1
  {
    SumUpdate(ts, 0, Waiting(true), Weight);
  }

  lemma ReportProductive(s: State, t: nat)
    requires Inv(s) && Enabled(s, Report(t))
    ensures Productive(s, Report(t))
  {
    hide Proceed, StillOk, AllOk, Sum, MasterInv;
    var r := Reported(s, t);
    ReportSums(s, t, Active);
    ReportSums(s, t, Idle);
    ProceedMeasure(r, t);
    SumUpdate(r.threads, t, Exited, Weight);
    NotifyMeasure(s.threads);
  }

  lemma WakeProductive(s: State, t: nat)
    requires Inv(s) && Enabled(s, Wake(t))
    ensures Productive(s, Wake(t)) || (Apply(s, Wake(t)) == s && s.threads[t] == Waiting(false))
  {
    hide Proceed, StillOk, AllOk, Sum, MasterInv;
    SumUpdate(s.threads, t, Outside, Idle);
    SumUpdate(s.threads, t, Outside, Active);
    var r := s.(nIdle := s.nIdle - 1);
    ProceedMeasure(r, t);
    SumUpdate(s.threads, t, Exited, Weight);
    if s.threads[t] == Waiting(false) { assert s.threads[t := Waiting(false)] == s.threads; }
  }

  /** While the master is in Wait no step undoes work: a step makes Wait return, brings its
      end nearer, or is a wake-up for nothing, which changes no state at all. */
  lemma EveryStepProductive(s: State, a: Step)
    requires Inv(s) && Enabled(s, a) && InWait(s)
    ensures Productive(s, a) || Apply(s, a) == s
  {
    hide Proceed, StillOk, AllOk, Sum, MasterInv;
    match a
    case Begin =>
    case Add(checks, pick) =>
    case Enter(t) =>
      SumUpdate(s.threads, t, Exited, Weight);
      ProceedMeasure(s.(nTotal := s.nTotal + 1), t);
    case Execute(t) =>
      var e := s.threads[t];
      SumUpdate(s.threads, t, e.(todo := e.todo[1..], fOk := if e.fOk then e.todo[0] else false), Weight);
    case Report(t) => ReportProductive(s, t);
    case Wake(t) => WakeProductive(s, t);
  }

  lemma BusyProductive(s: State, t: nat)
    requires Inv(s) && t < |s.threads| && s.threads[t].Executing? && InWait(s)
    ensures exists a :: Enabled(s, a) && Productive(s, a)
  {
    hide Proceed, StillOk, AllOk, Sum, MasterInv, Inv;
    if s.threads[t].todo == [] {
      ReportProductive(s, t);
      assert Enabled(s, Report(t));
    } else {
      EveryStepProductive(s, Execute(t));
      assert |Apply(s, Execute(t)).threads[t].todo| < |s.threads[t].todo|;
      assert Enabled(s, Execute(t));
    }
  }

  /** No wake-up is lost: while the master is in Wait, some thread can take a step that makes
      Wait return or brings its end nearer. */
  lemma NeverStuck(s: State)
    requires Inv(s) && InWait(s)
    ensures exists a :: Enabled(s, a) && Productive(s, a)
  {
    var m := s.threads[0];
    if m.Executing? {
      BusyProductive(s, 0);
    } else if m == Waiting(true) {
      assert Enabled(s, Wake(0));
      WakeProductive(s, 0);
    } else {
      assert MasterInv(s) && m.Waiting?;
      assert m == Waiting(false);
      var t := TakenSomewhere(s.threads);
      BusyProductive(s, t);
    }
  }

  lemma {:induction false} TakenSomewhere(ts: seq<Thread>) returns (t: nat)
    requires Sum(ts, Taken) > 0
    ensures t < |ts| && ts[t].Executing?
  {
    var last := |ts| - 1;
    if ts[last].Executing? {
      t := last;
    } else {
      t := TakenSomewhere(ts[..last]);
    }
  }

  /** No step of the run is a wake-up for nothing, and Wait has not returned in it. */
  ghost predicate BusyRun(s: State, steps: seq<Step>)
    requires Inv(s)
    decreases |steps|
  {
    steps != [] ==>
      && Enabled(s, steps[0])
      && Apply(s, steps[0]) != s
      && |Apply(s, steps[0]).log| == |s.log|
      && (ApplyInv(s, steps[0]); BusyRun(Apply(s, steps[0]), steps[1..]))
  }

  lemma StaysInWait(s: State, a: Step)
    requires Inv(s) && Enabled(s, a) && InWait(s)
    ensures InWait(Apply(s, a)) || |Apply(s, a).log| > |s.log|
  {
    hide StillOk, AllOk, Sum;
  }

  /** Wait returns after at most Measure(s) steps that change anything. */
  lemma {:induction false} WaitReturns(s: State, steps: seq<Step>)
    requires Inv(s) && InWait(s) && BusyRun(s, steps)
    ensures |steps| <= Measure(s)
    decreases |steps|
  {
    hide Apply, Enabled, Inv, InWait, Measure;
    if steps != [] {
      var u := Apply(s, steps[0]);
      ApplyInv(s, steps[0]);
      EveryStepProductive(s, steps[0]);
      StaysInWait(s, steps[0]);
      WaitReturns(u, steps[1..]);
    }
  }
}
