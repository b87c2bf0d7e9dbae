/** Workers never block each other for good: some worker can always go on, and a shutdown comes to an end. */
module ServerProgress {
  import opened Store
  import opened Text
  import opened Commands
  import opened TaskQueues
  import opened ServerModel
  import opened ServerQueue
  import opened ServerJobs
  import opened ServerEffects
  import opened ServerTheorems

  predicate WorkerStep(step: Step) {
    step.Poll? || step.Acquire? || step.Exec? || step.Release? || step.Send?
  }

  /** The most steps a worker in this phase can take before it polls the queue again. */
  function Rank(p: Phase): nat {
    match p
    case Exited => 0
    case Asleep => 0
    case Ready => 1
    case Replying(_, _) => 2
    case Finished(_, _) => 3
    case TtlChecked(_, _, _) => 4
    case DelLogged(_, _) => 4
    case SetStored(_, _) => 4
    case DelChecked(_, _) => 5
    case SetLogged(_, _) => 5
    case SetTimed(_, _) => 6
    case Found(_, _) => 6
    case Running(_) => 7
    case Holding(_) => 8
  }

  function Ranks(ws: seq<Phase>): nat {
    if ws == [] then 0 else Ranks(ws[..|ws| - 1]) + Rank(ws[|ws| - 1])
  }

  /** An upper bound on the worker steps left once shutdown has begun. */
  function Work(s: Sys): nat {
    8 * |s.queue| + Ranks(s.workers)
  }

  lemma {:induction false} RanksUpdate(ws: seq<Phase>, i: nat, p: Phase)
    requires i < |ws|
    ensures Ranks(ws[i := p]) == Ranks(ws) - Rank(ws[i]) + Rank(p)
  {
    hide Rank;
    var n := |ws| - 1;
    if i < n {
      assert ws[i := p][..n] == ws[..n][i := p];
      RanksUpdate(ws[..n], i, p);
    } else {
      assert ws[i := p][..n] == ws[..n];
    }
  }

  lemma InnerRank(db: Db, now: int, later: int, p: Phase, a: Action)
    requires Does(db, now, later, p, a)
    ensures a.Inner? ==> Rank(a.phase) < Rank(p)
    ensures a.Commit? ==> 3 < Rank(p)
  {
    hide Decode;
  }

  /** After shutdown begins every worker step uses up work, and nothing else adds any. */
  lemma ShutdownStep(s: Sys, step: Step)
    requires WakeInv(s) && s.shuttingDown && Enabled(s, step) && !step.Restart?
    ensures var t := After(s, step);
            t.shuttingDown && if WorkerStep(step) then Work(t) < Work(s) else Work(t) == Work(s)
  {
    hide Does, Awake, Decode, IsReadCommand, Truncated, Ranks;
    var t := After(s, step);
    match step
    case Poll(i) => RanksUpdate(s.workers, i, t.workers[i]);
    case Acquire(i) => RanksUpdate(s.workers, i, t.workers[i]);
    case Exec(i, a, n) => InnerRank(s.db, s.now, n, s.workers[i], a); RanksUpdate(s.workers, i, t.workers[i]);
    case Release(i) => RanksUpdate(s.workers, i, t.workers[i]);
    case Send(i) => RanksUpdate(s.workers, i, t.workers[i]);
    case BeginShutdown => assert t.workers == s.workers;
    case _ =>
  }

  function WorkerSteps(steps: seq<Step>): nat {
    if steps == [] then 0 else (if WorkerStep(steps[0]) then 1 else 0) + WorkerSteps(steps[1..])
  }

  /** A worker holding the lock can always take its next sub-step. */
  lemma CanAct(d: Db, hist: seq<Event>, db: Db, now: int, p: Phase) returns (a: Action)
    requires PhaseOk(d, hist, now, p) && HoldsLock(p) && !p.Finished?
    ensures Does(db, now, now, p, a)
  {
    hide Decode, GetReply, TtlReply, DecInt;
    var r := Decode(p.job.text);
    match p
    case Running(job) =>
      a := if r.Answer? then Commit(Call(r, now, now, true, []), r.text, db)
           else if r.SetKey? then Inner(SetTimed(job, now), db)
           else if r.Exit? then Commit(Call(r, now, now, false, []), "ERR failed to rewrite AOF\n", db)
           else Inner(Found(job, Get(db.table, KeyOf(r))), db);
    case Found(job, entry) =>
      a := if r.GetKey? then Commit(Call(r, now, now, true, []), GetReply(entry, now), db)
           else if r.TtlOf? then
             if Missing(entry, now) then Commit(Call(r, now, now, true, []), "-2\n", db)
             else if entry.value.expiresAt == 0 then Commit(Call(r, now, now, true, []), "-1\n", db)
             else Inner(TtlChecked(job, entry.value, now), db)
           else if Missing(entry, now) then Commit(Call(r, now, now, true, []), "0\n", db)
           else Inner(DelChecked(job, now), db);
    case TtlChecked(job, live, t1) =>
      var remaining := live.expiresAt - now;
      a := Commit(Call(r, t1, now, true, []), if remaining <= 0 then "-2\n" else DecInt(remaining) + "\n", db);
    case DelChecked(job, t1) => a := Commit(Call(r, t1, now, false, []), "ERR failed to write AOF\n", db);
    case DelLogged(job, t1) =>
      a := Commit(Call(r, t1, now, true, []),
                  if KeyOf(r) in db.table then "1\n" else "ERR failed to delete key\n",
                  db.(table := db.table - {KeyOf(r)}));
    case SetTimed(job, t1) => a := Commit(Call(r, t1, now, false, []), "ERR failed to write AOF\n", db);
    case SetLogged(job, t1) =>
      a := Inner(SetStored(job, t1), db.(table := db.table[KeyOf(r) := Timed(ValueOfSet(r), 0)]));
    case SetStored(job, t1) =>
      a := if KeyOf(r) in db.table then
             Commit(Call(r, t1, now, true, []), "OK\n",
                    db.(table := db.table[KeyOf(r) := Timed(db.table[KeyOf(r)].value, Deadline(SecondsOf(r), t1))]))
           else if SecondsOf(r) > 0 then Commit(Call(r, t1, now, true, []), "ERR failed to set expiration\n", db)
           else Commit(Call(r, t1, now, true, []), "OK\n", db);
  }

  lemma HolderCanGoOn(s: Sys, i: nat) returns (step: Step)
    requires DbInv(s) && i < |s.workers| && HoldsLock(s.workers[i])
    ensures WorkerStep(step) && Enabled(s, step)
  {
    hide Does, Legal, Visible, Decode, DbAfter, PhaseOk;
    if s.workers[i].Finished? {
      step := Release(i);
    } else {
      var a := CanAct(DbAfter(s.base, s.hist), s.hist, s.db, s.now, s.workers[i]);
      step := Exec(i, a, s.now);
    }
  }

  /** There is no deadlock: unless every worker is asleep or gone, and then the queue is empty, some worker can
      take a step. */
  lemma NoDeadlock(n: nat, s: Sys) returns (step: Option<Step>)
    requires Reachable(n, s)
    ensures step.Some? ==> WorkerStep(step.value) && Enabled(s, step.value)
    ensures |s.workers| == n
    ensures step == None ==> forall i :: 0 <= i < |s.workers| ==> s.workers[i].Asleep? || s.workers[i].Exited?
    ensures step == None && n > 0 ==> s.queue == []
    ensures step == None && s.shuttingDown ==> forall i :: 0 <= i < |s.workers| ==> s.workers[i].Exited?
  {
    hide Reachable, DbInv, SafeInv, JobInv, OrderInv, Does, IsReadCommand, HoldsLock;
    ReachableInv(n, s);
    if i: nat :| i < n && HoldsLock(s.workers[i]) {
      var st := HolderCanGoOn(s, i);
      step := Some(st);
    } else if i: nat :| i < n && !s.workers[i].Asleep? && !s.workers[i].Exited? {
      FreeLock(s);
      step := Some(if s.workers[i].Ready? then Poll(i) else if s.workers[i].Replying? then Send(i) else Acquire(i));
      NotHolding(s.workers[i]);
    } else {
      step := None;
      if n > 0 { NobodyAwake(s); }
    }
  }

  lemma FreeLock(s: Sys)
    requires LockInv(s) && forall i: nat :: i < |s.workers| ==> !HoldsLock(s.workers[i])
    ensures s.writer == None && s.readers == {}
  {
    hide IsReadCommand, HoldsLock;
  }

  lemma NotHolding(p: Phase)
    requires !HoldsLock(p)
    ensures p.Ready? || p.Asleep? || p.Exited? || p.Holding? || p.Replying?
  {}

  lemma NobodyAwake(s: Sys)
    requires WakeInv(s) && |s.workers| > 0
    requires forall i :: 0 <= i < |s.workers| ==> s.workers[i].Asleep? || s.workers[i].Exited?
    ensures s.queue == []
  {
    NoneAwake(s.workers);
  }

  lemma {:induction false} NoneAwake(ws: seq<Phase>)
    requires forall i :: 0 <= i < |ws| ==> ws[i].Asleep? || ws[i].Exited?
    ensures Awake(ws) == 0
  {
    if ws != [] { NoneAwake(ws[..|ws| - 1]); }
  }

  /** The joins of worker_pool_destroy finish: once shutdown has begun, the workers together take at most Work(s)
      more steps, and by NoDeadlock they stop only when all are gone. */
  lemma {:induction false} ShutdownEnds(s: Sys, steps: seq<Step>, t: Sys)
    requires Inv(s) && s.shuttingDown && Steps(s, steps, t) && NoRestart(steps)
    ensures t.shuttingDown && WorkerSteps(steps) + Work(t) <= Work(s)
    decreases |steps|
  {
    hide WakeInv, LockInv, JobInv, OrderInv, DbInv, SafeInv, Enabled, After, Work, WorkerStep;
    if steps != [] {
      ShutdownStep(s, steps[0]);
      InvStep(s, steps[0]);
      ShutdownEnds(After(s, steps[0]), steps[1..], t);
    }
  }
}
