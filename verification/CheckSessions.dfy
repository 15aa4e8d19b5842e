/**
 What one step of the check queue does to the threads, and what Wait answers in terms of the checks
 that were passed to Add.
 */
module CheckSessions {
  import opened CheckQueue

  /** A worker that is waiting and has not been notified. */
  predicate Asleep(ts: seq<Thread>, t: int) { 0 < t < |ts| && ts[t] == Waiting(false) }

  /** The thread is the only one that is different. */
  predicate OnlyOne(ts: seq<Thread>, us: seq<Thread>, t: nat) {
    t < |ts| == |us| && forall k :: 0 <= k < |ts| && k != t ==> us[k] == ts[k]
  }

  /** Adding several checks wakes every sleeping worker, adding one wakes exactly one if there is one, and
      nobody else is touched. The checks are behind those that were queued, and outstanding. */
  lemma AddWakes(s: State, checks: seq<bool>, pick: int)
    requires Inv(s) && Enabled(s, Add(checks, pick))
    ensures
      var u := Apply(s, Add(checks, pick));
      && u.queue == s.queue + checks && u.nTodo == s.nTodo + |checks|
      && |u.threads| == |s.threads|
      && (|checks| > 1 ==> forall t :: 0 <= t < |s.threads| ==>
            u.threads[t] == if Asleep(s.threads, t) then Waiting(true) else s.threads[t])
      && (|checks| == 1 && Asleep(s.threads, pick) ==>
            OnlyOne(s.threads, u.threads, pick) && u.threads[pick] == Waiting(true))
      && ((exists t :: Asleep(s.threads, t)) ==> Asleep(s.threads, pick))
      && (|checks| == 0 || (|checks| == 1 && !Asleep(s.threads, pick)) ==> u.threads == s.threads)
  {
    assert forall t :: Asleep(s.threads, t) == Sleeps(s.threads, t);
  }

  /** The report that leaves nothing outstanding wakes the master, if it waits. */
  lemma LastReportWakes(s: State, t: nat)
    requires Inv(s) && Enabled(s, Report(t)) && t != 0 && s.threads[0].Waiting?
    requires s.threads[t].nNow == s.nTodo
    ensures Apply(s, Report(t)).threads[0] == Waiting(true)
  {
    var e := s.threads[t];
    var r := Reported(s, t);
    ReportSums(s, t, Active);
    ReportSums(s, t, Idle);
    assert r.threads[0] == Waiting(true);
  }

  /** A thread that finds the queue not empty takes its share: one check, or as many as do not exceed the
      batch size, nor an equal share for every thread in Loop, waiting ones counted twice, and itself. They
      are the last in the queue, to be done in reverse order; the rest stays. */
  lemma TakesShare(s: State, t: nat)
    requires t < |s.threads| && s.nTotal >= 0 && s.nIdle >= 0 && s.queue != []
    ensures
      var u := Proceed(s, t);
      var x := u.threads[t];
      && OnlyOne(s.threads, u.threads, t)
      && x.Executing? && x.nNow == |x.todo| && x.fOk == s.fAllOk
      && |u.queue| + x.nNow == |s.queue|
      && (forall i :: 0 <= i < |u.queue| ==> u.queue[i] == s.queue[i])
      && (forall i :: 0 <= i < x.nNow ==> x.todo[i] == s.queue[|s.queue| - 1 - i])
      && FairShare(x.nNow, |s.queue|, s.nTotal + s.nIdle + 1, s.nBatchSize)
  {
    var parts := s.nTotal + s.nIdle + 1;
    ShareIs(|s.queue|, parts, |s.queue| / parts);
    hide FairShare;
    IsFair(BatchSize(s), |s.queue|, parts, s.nBatchSize);
  }

  /** The most, of one and up, that is within the batch size and one of so many equal parts. */
  predicate FairShare(n: nat, size: nat, parts: nat, nBatchSize: nat) {
    && (n == 1 || (1 < n <= nBatchSize && n * parts <= size))
    && (nBatchSize <= n || size < (n + 1) * parts)
  }

  lemma ShareIs(size: nat, parts: nat, share: nat)
    requires parts > 0 && share == size / parts
    ensures share * parts <= size < (share + 1) * parts
  {
  }

  lemma IsFair(n: nat, size: nat, parts: nat, nBatchSize: nat)
    requires parts > 0
    requires n == (var share := size / parts; var m := if nBatchSize < share then nBatchSize else share;
                   if m < 1 then 1 else m)
    ensures FairShare(n, size, parts, nBatchSize)
  {
    var share := size / parts;
    ShareIs(size, parts, share);
    if n <= share { Multiples(n, share, parts); } else { Multiples(share + 1, n + 1, parts); }
  }

  lemma Multiples(a: nat, b: nat, c: nat)
    requires a <= b
    ensures a * c <= b * c
  {
  }

  // ------------------------------------------------------------ sessions

  /** The checks passed to Add in a run, one list for each return from Wait; `open` are those added since the
      last return before the run. */
  ghost function Sessions(s: State, steps: seq<Step>, open: seq<bool>): seq<seq<bool>>
    requires Inv(s)
    decreases |steps|
  {
    if steps == [] || !Enabled(s, steps[0]) then []
    else
      ApplyInv(s, steps[0]);
      var u := Apply(s, steps[0]);
      var now := if steps[0].Add? then open + steps[0].checks else open;
      if |u.log| > |s.log| then [now] + Sessions(u, steps[1..], []) else Sessions(u, steps[1..], now)
  }

  lemma StepLogs(s: State, a: Step)
    requires Inv(s) && Enabled(s, a)
    ensures
      var u := Apply(s, a);
      || (u.log == s.log && (u.added <==> s.added && (a.Add? ==> AllTrue(a.checks))))
      || (u.log == s.log + [(s.added, u.log[|s.log|].1)] && !a.Add? && u.added)
  {
    match a
    case Report(t) =>
      ReportSums(s, t, Active);
      ReportSums(s, t, Idle);
    case Wake(t) => SumUpdate(s.threads, t, Outside, Idle);
    case _ =>
  }

  /** From a position on, the log holds the answers to these sessions, and nothing else. */
  ghost predicate Answers(log: seq<(bool, bool)>, from: nat, sessions: seq<seq<bool>>) {
    |log| == from + |sessions| && forall i :: 0 <= i < |sessions| ==> (log[from + i].1 <==> AllTrue(sessions[i]))
  }

  lemma AnswersOneMore(log: seq<(bool, bool)>, from: nat, first: seq<bool>, rest: seq<seq<bool>>)
    requires Answers(log, from + 1, rest) && (log[from].1 <==> AllTrue(first))
    ensures Answers(log, from, [first] + rest)
  {
    var all := [first] + rest;
    forall i | 0 <= i < |all| ensures log[from + i].1 <==> AllTrue(all[i]) {
      if i > 0 { assert log[from + 1 + (i - 1)].1 <==> AllTrue(rest[i - 1]); }
    }
  }

  /** In every interleaving the answers of Wait are, in turn, whether all checks of its session hold. */
  lemma {:induction false} AnswersAreConjunctions(s: State, steps: seq<Step>, open: seq<bool>, u: State)
    requires Inv(s) && Leads(s, steps, u) && (s.added <==> AllTrue(open))
    ensures Answers(u.log, |s.log|, Sessions(s, steps, open)) && s.log <= u.log
    decreases |steps|
  {
    hide Inv, Apply, Enabled, AllTrue, Answers;
    if steps == [] {
      NoAnswers(s.log);
    } else {
      var a := steps[0];
      var v := Apply(s, a);
      ApplyInv(s, a);
      LoggedSo(s, a, open);
      var now := if a.Add? then open + a.checks else open;
      if |v.log| > |s.log| {
        AnswersAreConjunctions(v, steps[1..], [], u);
        AnswersOneMore(u.log, |s.log|, now, Sessions(v, steps[1..], []));
      } else {
        AnswersAreConjunctions(v, steps[1..], now, u);
      }
    }
  }

  lemma NoAnswers(log: seq<(bool, bool)>)
    ensures Answers(log, |log|, [])
  {
  }

  /** Either the step logs nothing, or it logs the conjunction of the session. */
  lemma LoggedSo(s: State, a: Step, open: seq<bool>)
    requires Inv(s) && Enabled(s, a) && (s.added <==> AllTrue(open))
    ensures
      var v := Apply(s, a);
      var now := if a.Add? then open + a.checks else open;
      if |v.log| > |s.log|
      then |v.log| == |s.log| + 1 && s.log <= v.log && (v.log[|s.log|].1 <==> AllTrue(now)) && v.added && AllTrue([])
      else v.log == s.log && (v.added <==> AllTrue(now))
  {
    var v := Apply(s, a);
    StepLogs(s, a);
    ApplyInv(s, a);
    assert forall i :: 0 <= i < |v.log| ==> v.log[i].0 == v.log[i].1;
    if a.Add? { AllTrueConcat(open, a.checks); }
  }

  /** So it is from a new queue on. */
  lemma WaitAnswers(nBatchSize: nat, workers: nat, fQuit: bool, steps: seq<Step>, u: State)
    requires Leads(Initial(nBatchSize, workers, fQuit), steps, u)
    ensures Answers(u.log, 0, Sessions(Initial(nBatchSize, workers, fQuit), steps, []))
  {
    AnswersAreConjunctions(Initial(nBatchSize, workers, fQuit), steps, [], u);
  }
}
