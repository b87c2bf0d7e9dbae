/** What holds in every state that the server can reach: any number of workers, any interleaving, any
    clock, and any number of crashes and restarts. */
module ServerTheorems {
  import opened Store
  import opened Text
  import opened Aof
  import opened Commands
  import opened TaskQueues
  import opened ServerModel
  import opened ServerQueue
  import opened ServerJobs
  import opened ServerEffects
  import Behaviour

  ghost predicate Inv(s: Sys) {
    WakeInv(s) && LockInv(s) && JobInv(s) && OrderInv(s.locks, s.workers, s.popped, s.hist) && DbInv(s) && SafeInv(s)
  }

  lemma InvStart(n: nat, now: int)
    ensures Inv(Started(n, Db(map[], ""), now))
  {
    hide WakeInv, Locked, OrderInv, DbInv, Working, Effects, Replies, Scan;
    var s := Started(n, Db(map[], ""), now);
    AllAwake(s.workers);
    WakeStart(s);
    LockedStart(n);
    JobStart(n);
    OrderStart(n);
    DbStart(n, s.db, now);
    assert DbAfter(s.base, s.hist) == s.db;
    assert Scan("") == Scanned([], true) by { RoundTrip([]); }
  }

  lemma InvStep(s: Sys, step: Step)
    requires Inv(s) && Enabled(s, step)
    ensures Inv(After(s, step))
  {
    hide WakeInv, LockInv, JobInv, OrderInv, DbInv, SafeInv, Enabled, After;
    WakeStep(s, step);
    LockStep(s, step);
    JobStep(s, step);
    OrderStep(s, step);
    DbStep(s, step);
    SafeStep(s, step);
  }

  lemma WorkersStay(s: Sys, step: Step)
    requires Enabled(s, step)
    ensures |After(s, step).workers| == |s.workers|
  {
    hide Does, Decode, Truncated, IsReadCommand;
  }

  lemma {:induction false} InvSteps(s: Sys, steps: seq<Step>, t: Sys)
    requires Inv(s) && Steps(s, steps, t)
    ensures Inv(t) && |t.workers| == |s.workers|
    decreases |steps|
  {
    hide Inv, Enabled, After;
    if steps != [] {
      InvStep(s, steps[0]);
      WorkersStay(s, steps[0]);
      InvSteps(After(s, steps[0]), steps[1..], t);
    }
  }

  lemma ReachableInv(n: nat, s: Sys)
    requires Reachable(n, s)
    ensures Inv(s) && |s.workers| == n
  {
    hide Inv, Steps;
    var now, steps :| Steps(Started(n, Db(map[], ""), now), steps, s);
    InvStart(n, now);
    InvSteps(Started(n, Db(map[], ""), now), steps, s);
  }

  /** No command is changing the database. */
  ghost predicate Quiet(s: Sys) {
    forall i :: 0 <= i < |s.workers| ==> !Writing(s.workers[i])
  }

  // ---------- durability ----------

  /** At every moment, in the middle of commands too, a load at any later time succeeds and rebuilds every entry
      still live then of the table that the file stands for: the sequential one, with the command of the
      writer in progress once it has been logged. When no command is changing the database it is the real table. */
  lemma Durability(n: nat, s: Sys, clock: Clock, end: int)
    requires Reachable(n, s) && ReadsWithin(clock, |Scan(s.db.file).records|, s.now, end)
    ensures Scan(s.db.file).ok
    ensures var m := Replay(Scan(s.db.file).records, clock);
            && (forall k :: k in Live(OnDisk(s), end) ==> Get(m, k) == Some(OnDisk(s)[k]))
            && (Quiet(s) ==> forall k :: k in Live(s.db.table, end) ==> Get(m, k) == Some(s.db.table[k]))
  {
    hide Reachable, WakeInv, LockInv, JobInv, OrderInv, DbInv, SafeInv, Scan, Replay, Safe, OnDisk, Quiet;
    ReachableInv(n, s);
    CrashSafe(s);
    RestartSafe(Db(OnDisk(s), s.db.file), s.now, clock, end);
    if Quiet(s) { QuietDb(s); }
  }

  /** Whenever no command is changing the database, a load at a later instant rebuilds exactly the live entries if
      and only if no key that the table holds expired has an older unexpired SET, with no DEL since, in the file. */
  lemma RecoveryIsExact(n: nat, s: Sys, t: int)
    requires Reachable(n, s) && Quiet(s) && s.now <= t
    ensures var log := Scan(s.db.file).records;
            Replay(log, At(t)) == Live(s.db.table, t)
            <==> forall k :: k in s.db.table && Expired(s.db.table[k], t) ==> !HasSurvivor(log, t, k)
  {
    hide Reachable, WakeInv, LockInv, JobInv, OrderInv, Legal, PhasesOk, DbAfter, Scan, Replay, Partial, Writing,
      WellFormedFile, Durable, Covered, HasSurvivor, Live;
    ReachableInv(n, s);
    QuietDb(s);
    RecoveryExact(s.db.table, Scan(s.db.file).records, s.now, t);
  }

  lemma QuietDb(s: Sys)
    requires DbInv(s) && Quiet(s)
    ensures s.db == DbAfter(s.base, s.hist) && OnDisk(s) == s.db.table
  {}

  /** What a worker that executed EXIT leaves: after BYE, a file that loads and gives, at any time from now on,
      exactly the entries live then; after an error, what was there. */
  ghost predicate Saved(before: Db, after: Db, now: int, p: Phase) {
    && p.Finished? && after.table == before.table
    && (p.reply == "BYE\n" ==>
          && Scan(after.file).ok
          && forall t :: now <= t ==> Replay(Scan(after.file).records, At(t)) == Live(before.table, t))
    && (p.reply != "BYE\n" ==> p.reply == "ERR failed to rewrite AOF\n" && after == before)
  }

  lemma SavedByExit(d: Db, c: Call, job: Job, later: int)
    requires c.request == Exit && Possible(d, c) && BoundedTable(d.table) && c.t2 <= later
    ensures Saved(d, Execute(d, c).db, later, Finished(job, Execute(d, c).reply))
  {
    hide Scan, Replay, Live, At, Execute, IsCompaction;
    Behaviour.ExitEffect(d, c);
  }

  /** In every reachable state the step that commits an EXIT saves the table exactly, or fails and changes
      nothing. */
  lemma ExitIsExact(n: nat, s: Sys, step: Step)
    requires Reachable(n, s) && Enabled(s, step) && step.Exec?
    requires s.workers[step.i].Running? && Decode(s.workers[step.i].job.text) == Exit
    ensures var t := After(s, step);
            Saved(s.db, t.db, t.now, t.workers[step.i])
  {
    hide Reachable, WakeInv, Locked, JobInv, OrderInv, Legal, PhaseOk, Safe, Decode, DbAfter, Scan, Replay, Live, At,
      Execute, IsCompaction, BoundedThroughout, BoundedJobs, Saved;
    ReachableInv(n, s);
    var d, i, a := DbAfter(s.base, s.hist), step.i, step.action;
    DbSeen(s, i);
    SafeTable(d, s.now);
    CommitMatches(d, s.hist, s.now, step.now, s.workers[i], a);
    SavedByExit(d, a.call, s.workers[i].job, step.now);
  }

  /** From before to after, worker i's command changes the table: the file ends with its one record, and only
      the key of that record changes; when the command commits, the table is what the record says. */
  ghost predicate Logged(d: Db, before: Db, after: Db, p: Phase, commits: bool) {
    && !Idle(p) && after.file == before.file
    && match Decode(p.job.text)
       case SetKey(k, v, seconds) =>
         && (p.SetLogged? || p.SetStored?)
         && (forall x :: x != k ==> Get(after.table, x) == Get(before.table, x))
         && var e := if seconds == 0 then 0 else p.t1 + seconds;
            before.file == d.file + Print(Set(k, v, e)) && (commits ==> Get(after.table, k) == Some(Timed(v, e)))
       case DelKey(k) =>
         && (forall x :: x != k ==> Get(after.table, x) == Get(before.table, x))
         && before.file == d.file + Print(Del(k)) && commits && k !in after.table
       case _ => false
  }

  lemma TableWrite(d: Db, hist: seq<Event>, now: int, later: int, p: Phase, a: Action)
    requires PhaseOk(d, hist, now, p) && Does(Partial(d, p), now, later, p, a) && a.db.table != Partial(d, p).table
    ensures Logged(d, Partial(d, p), a.db, p, a.Commit?)
  {
    hide Decode, Print, PrintAll, GetReply, DecInt, IsCompaction;
  }

  /** A command that changes the table was logged before, in every reachable state. */
  lemma WriteAhead(n: nat, s: Sys, step: Step)
    requires Reachable(n, s) && Enabled(s, step) && step.Exec? && After(s, step).db.table != s.db.table
    ensures var t := After(s, step);
            Logged(DbAfter(s.base, s.hist), s.db, t.db, s.workers[step.i], t.workers[step.i].Finished?)
  {
    hide Reachable, WakeInv, Locked, JobInv, OrderInv, Legal, SafeInv, PhaseOk, Does, Partial, Logged, DbAfter;
    ReachableInv(n, s);
    DoesKeepsJob(s.db, s.now, step.now, s.workers[step.i], step.action);
    DbSeen(s, step.i);
    TableWrite(DbAfter(s.base, s.hist), s.hist, s.now, step.now, s.workers[step.i], step.action);
  }

  // ---------- linearizability ----------

  /** Every reply that a client is sent is the reply that its command has in one sequential execution, and also
      the reply of the reference store in which expired keys are gone; conflicting commands take effect in the
      order in which they got the lock; when no command is changing the database it is the sequential one. */
  lemma Linearizable(n: nat, s: Sys)
    requires Reachable(n, s)
    ensures Legal(s.base, s.hist)
    ensures forall k :: 0 <= k < |s.sent| ==> Answered(s.hist, s.sent[k].job, s.sent[k].reply)
    ensures forall e :: 0 <= e < |s.hist| ==> s.hist[e].call.request == Decode(s.hist[e].job.text)
    ensures forall f :: 0 <= f < |s.hist| ==>
              s.hist[f].reply
              == RefExecute(RefAfter(s.base.table, s.hist[..f]), s.hist[f].call, Instant(s.hist[f].call)).1
    ensures Quiet(s) ==> s.db == DbAfter(s.base, s.hist)
    ensures forall x, y, f :: (0 <= x < y < |s.locks| && 0 <= f < |s.hist| && s.hist[f].job == s.locks[y]
                               && Conflict(s.locks[x], s.locks[y])) ==> Precedes(s.hist, s.locks[x], f)
  {
    hide Reachable, WakeInv, LockInv, Working, Effects, Fifo, Legal, SafeInv, DbAfter, RefExecute, RefAfter, Answered,
      Precedes, Conflict, Visible, PhasesOk;
    ReachableInv(n, s);
    if Quiet(s) { QuietDb(s); }
    forall f | 0 <= f < |s.hist|
      ensures s.hist[f].call.request == Decode(s.hist[f].job.text)
      ensures s.hist[f].reply
              == RefExecute(RefAfter(s.base.table, s.hist[..f]), s.hist[f].call, Instant(s.hist[f].call)).1
    {
      RepliesOfReference(s.base, s.hist, f);
      LegalAt(s.base, s.hist, f);
    }
  }

  predicate NoRestart(steps: seq<Step>) {
    forall i :: 0 <= i < |steps| ==> !steps[i].Restart?
  }

  lemma HistoryGrows(s: Sys, step: Step)
    requires Enabled(s, step) && !step.Restart?
    ensures s.hist <= After(s, step).hist && s.accepted <= After(s, step).accepted && s.sent <= After(s, step).sent
  {
    hide Does, Decode, Truncated, IsReadCommand;
  }

  lemma {:induction false} HistoriesGrow(s: Sys, steps: seq<Step>, t: Sys)
    requires Steps(s, steps, t) && NoRestart(steps)
    ensures s.hist <= t.hist && s.accepted <= t.accepted && s.sent <= t.sent
    decreases |steps|
  {
    hide Enabled, After;
    if steps != [] {
      HistoryGrows(s, steps[0]);
      HistoriesGrow(After(s, steps[0]), steps[1..], t);
    }
  }

  /** The order of effects respects real time: a command whose reply was sent before another was accepted takes
      effect before it. */
  lemma RealTime(n: nat, s: Sys, steps: seq<Step>, t: Sys, k: nat, e: nat, f: nat)
    requires Reachable(n, s) && Steps(s, steps, t) && NoRestart(steps)
    requires k < |s.sent| && e < |t.hist| && t.hist[e].job == s.sent[k].job
    requires f < |t.hist| && t.hist[f].job.id >= |s.accepted|
    ensures e < f
  {
    hide Reachable, WakeInv, LockInv, Working, OrderInv, DbInv, SafeInv, Steps;
    ReachableInv(n, s);
    HistoriesGrow(s, steps, t);
    InvSteps(s, steps, t);
    assert Answered(s.hist, s.sent[k].job, s.sent[k].reply);
    var e' :| 0 <= e' < |s.hist| && s.hist[e'].job == s.sent[k].job;
    assert t.hist[e'] == s.hist[e'];
    assert e == e' by { assert Effects(t.workers, t.popped, t.hist); }
    forall x | 0 <= x < |s.hist| ensures t.hist[x].job.id < |s.accepted| {
      assert t.hist[x] == s.hist[x];
    }
  }

  // ---------- tasks ----------

  /** Tasks are popped in FIFO order, each takes effect at most once, and nobody leaves or sleeps while there
      is work: enough workers are awake for the queue, and none sleeps once shutdown has begun. */
  lemma TasksConserved(n: nat, s: Sys)
    requires Reachable(n, s)
    ensures s.accepted == s.popped + s.queue
    ensures forall e, f :: 0 <= e < f < |s.hist| ==> s.hist[e].job.id != s.hist[f].job.id
    ensures Awake(s.workers) >= if |s.queue| < |s.workers| then |s.queue| else |s.workers|
    ensures s.shuttingDown ==> forall i :: 0 <= i < |s.workers| ==> !s.workers[i].Asleep?
    ensures s.queue != [] ==> forall i :: 0 <= i < |s.workers| ==> !s.workers[i].Exited?
  {
    hide Reachable, LockInv, Working, Replies, OrderInv, DbInv, SafeInv, Awake;
    ReachableInv(n, s);
  }

  /** Once all workers have been joined, the queue is empty and every accepted command has taken effect exactly
      once and been answered exactly once, with that reply. */
  lemma Drained(n: nat, s: Sys, x: nat)
    requires n > 0 && Reachable(n, s)
    requires forall i :: 0 <= i < |s.workers| ==> s.workers[i].Exited?
    requires x < |s.accepted|
    ensures s.queue == []
    ensures exists e, k :: 0 <= e < |s.hist| && 0 <= k < |s.sent| && s.hist[e].job == s.accepted[x] == s.sent[k].job
                           && s.hist[e].reply == s.sent[k].reply
    ensures forall e, f :: 0 <= e < |s.hist| && 0 <= f < |s.hist| && s.hist[e].job == s.hist[f].job ==> e == f
    ensures forall k, l :: 0 <= k < |s.sent| && 0 <= l < |s.sent| && s.sent[k].job == s.sent[l].job ==> k == l
  {
    hide Reachable, LockInv, OrderInv, DbInv, SafeInv, Awake, Working, IsCommitted, IsSent, Answered, SomePending, SomeAnswering;
    ReachableInv(n, s);
    assert s.workers[0].Exited?;
    OneEach(s, x);
  }

  lemma OneEach(s: Sys, x: nat)
    requires JobInv(s) && s.queue == [] && x < |s.accepted|
    requires forall i :: 0 <= i < |s.workers| ==> s.workers[i].Exited?
    ensures exists e, k :: 0 <= e < |s.hist| && 0 <= k < |s.sent| && s.hist[e].job == s.accepted[x] == s.sent[k].job
                           && s.hist[e].reply == s.sent[k].reply
  {
    hide Working;
    assert s.popped == s.accepted;
    assert !SomePending(s.workers, x) && !SomeAnswering(s.workers, x);
    assert IsCommitted(s.hist, x);
    var e :| 0 <= e < |s.hist| && s.hist[e].job.id == x;
    assert s.hist[e].job == s.accepted[x];
    assert IsSent(s.sent, s.hist[e].job.id);
    var k :| 0 <= k < |s.sent| && s.sent[k].job.id == x;
    assert Answered(s.hist, s.sent[k].job, s.sent[k].reply);
    var e' :| 0 <= e' < |s.hist| && s.hist[e'].job == s.sent[k].job && s.hist[e'].reply == s.sent[k].reply;
    assert e' == e;
  }

  // ---------- sizes ----------

  /** Framed commands enter the queue whole, stored values are at most 1016 characters, and a GET is answered
      with the whole value. */
  lemma SizesBounded(n: nat, s: Sys, f: nat)
    requires Reachable(n, s)
    ensures Quiet(s) ==> BoundedTable(s.db.table)
    ensures forall x :: 0 <= x < |s.accepted| ==> |s.accepted[x].text| <= 1022
    ensures forall text, wakes :: Enabled(s, Submit(text, wakes)) && !s.shuttingDown ==>
              After(s, Submit(text, wakes)).accepted == s.accepted + [Job(|s.accepted|, text)]
    ensures f < |s.hist| && s.hist[f].call.request.GetKey? ==>
              var k, m := s.hist[f].call.request.key, DbAfter(s.base, s.hist[..f]).table;
              && BoundedTable(m)
              && s.hist[f].reply == if k in Live(m, s.hist[f].call.t1) then m[k].value + "\n" else "(nil)\n"
  {
    hide Reachable, WakeInv, LockInv, JobInv, OrderInv, Visible, PhasesOk, Legal, DbAfter, Safe, BoundedTable, Decode, Live;
    ReachableInv(n, s);
    SafeTable(DbAfter(s.base, s.hist), s.now);
    if Quiet(s) { QuietDb(s); }
    if f < |s.hist| && s.hist[f].call.request.GetKey? {
      var c := s.hist[f].call;
      LegalAt(s.base, s.hist, f);
      GetReplyWhole(DbAfter(s.base, s.hist[..f]).table, c.request.key, c.t1);
    }
  }
}
