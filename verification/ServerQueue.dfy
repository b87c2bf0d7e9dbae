/** What the queue, the condition variable and the locks keep in every run, whatever commands do. */
module ServerQueue {
  import opened Store
  import opened Text
  import opened Commands
  import opened TaskQueues
  import opened ServerModel

  // ---------- wake-ups ----------

  /** Workers that are neither asleep on the condition variable nor gone. */
  function Awake(ws: seq<Phase>): nat {
    if ws == [] then 0
    else Awake(ws[..|ws| - 1]) + if ws[|ws| - 1].Asleep? || ws[|ws| - 1].Exited? then 0 else 1
  }

  lemma {:induction false} AwakeUpdate(ws: seq<Phase>, i: nat, p: Phase)
    requires i < |ws|
    ensures Awake(ws[i := p]) == Awake(ws) - (if ws[i].Asleep? || ws[i].Exited? then 0 else 1)
                                           + (if p.Asleep? || p.Exited? then 0 else 1)
  {
    var n := |ws| - 1;
    if i < n {
      assert ws[i := p][..n] == ws[..n][i := p];
      AwakeUpdate(ws[..n], i, p);
    } else {
      assert ws[i := p][..n] == ws[..n];
    }
  }

  lemma {:induction false} AllAwake(ws: seq<Phase>)
    requires forall i :: 0 <= i < |ws| ==> !ws[i].Asleep? && !ws[i].Exited?
    ensures Awake(ws) == |ws|
  {
    if ws != [] { AllAwake(ws[..|ws| - 1]); }
  }

  lemma {:induction false} SomeoneAsleepOrGone(ws: seq<Phase>)
    ensures Awake(ws) <= |ws|
    ensures Awake(ws) < |ws| ==> exists i :: 0 <= i < |ws| && (ws[i].Asleep? || ws[i].Exited?)
  {
    if ws != [] {
      var n := |ws| - 1;
      SomeoneAsleepOrGone(ws[..n]);
      if ws[n].Asleep? || ws[n].Exited? {
      } else if Awake(ws[..n]) < n {
        var i :| 0 <= i < n && (ws[..n][i].Asleep? || ws[..n][i].Exited?);
        assert ws[i] == ws[..n][i];
      }
    }
  }

  /** No wake-up is ever lost: there are enough awake workers for the queued tasks, nobody sleeps through a
      shutdown, and workers leave only when the queue is empty for good. */
  ghost predicate WakeInv(s: Sys) {
    && Awake(s.workers) >= (if |s.queue| < |s.workers| then |s.queue| else |s.workers|)
    && (s.shuttingDown ==> forall i :: 0 <= i < |s.workers| ==> !s.workers[i].Asleep?)
    && ((exists i :: 0 <= i < |s.workers| && s.workers[i].Exited?) ==> s.shuttingDown && s.queue == [])
  }

  lemma WakeSame(s: Sys, t: Sys)
    requires WakeInv(s) && t.workers == s.workers && t.queue == s.queue && t.shuttingDown == s.shuttingDown
    ensures WakeInv(t)
  {}

  lemma WakeStart(s: Sys)
    requires Awake(s.workers) == |s.workers| && s.queue == [] && !s.shuttingDown
    requires forall i :: 0 <= i < |s.workers| ==> s.workers[i].Ready?
    ensures WakeInv(s)
  {}

  /** A worker that is not leaving goes to a phase where it is awake. */
  lemma WakeWorker(s: Sys, i: nat, p: Phase)
    requires WakeInv(s) && i < |s.workers| && !s.workers[i].Exited? && !p.Asleep? && !p.Exited?
    ensures WakeInv(s.(workers := s.workers[i := p]))
  {
    AwakeUpdate(s.workers, i, p);
  }

  lemma WakeSubmit(s: Sys, step: Step)
    requires WakeInv(s) && step.Submit? && Enabled(s, step)
    ensures WakeInv(After(s, step))
  {
    if step.wakes.Some? {
      AwakeUpdate(s.workers, step.wakes.value, Ready);
    } else if !s.shuttingDown {
      SomeoneAsleepOrGone(s.workers);
    }
  }

  lemma WakePoll(s: Sys, i: nat)
    requires WakeInv(s) && Enabled(s, Poll(i))
    ensures WakeInv(After(s, Poll(i)))
  {
    AwakeUpdate(s.workers, i, After(s, Poll(i)).workers[i]);
  }

  lemma WakeStep(s: Sys, step: Step)
    requires WakeInv(s) && Enabled(s, step)
    ensures WakeInv(After(s, step))
  {
    hide Does, Awake, WakeInv;
    var t := After(s, step);
    match step
    case Tick(n) => WakeSame(s, t);
    case Submit(text, wakes) => WakeSubmit(s, step);
    case Wake(i) => WakeWorker(s, i, Ready);
    case Poll(i) => WakePoll(s, i);
    case Acquire(i) => WakeWorker(s, i, t.workers[i]); WakeSame(s.(workers := t.workers), t);
    case Exec(i, a, n) =>
      DoesKeepsJob(s.db, s.now, n, s.workers[i], a);
      WakeWorker(s, i, t.workers[i]);
      WakeSame(s.(workers := t.workers), t);
    case Release(i) => WakeWorker(s, i, t.workers[i]); WakeSame(s.(workers := t.workers), t);
    case Send(i) => WakeWorker(s, i, t.workers[i]); WakeSame(s.(workers := t.workers), t);
    case BeginShutdown => WakeAll(s);
    case Restart(clock, n) => AllAwake(t.workers); WakeStart(t);
  }

  lemma WakeAll(s: Sys)
    requires WakeInv(s)
    ensures WakeInv(s.(shuttingDown := true, workers := Awoken(s.workers)))
  {
    var ws := Awoken(s.workers);
    SomeoneAsleepOrGone(ws);
    if Awake(ws) < |ws| {
      var i :| 0 <= i < |ws| && (ws[i].Asleep? || ws[i].Exited?);
      assert s.workers[i].Exited?;
    }
  }

  // ---------- locks ----------

  /** The holders of the lock are exactly the workers between Running and Finished; a writer is alone, and
      readers are executing texts that the classifier accepts. */
  ghost predicate Locked(ws: seq<Phase>, readers: set<nat>, writer: Option<nat>) {
    && (forall i: nat :: i in readers || writer == Some(i) ==> i < |ws| && HoldsLock(ws[i]))
    && (forall i: nat :: i < |ws| && HoldsLock(ws[i]) ==> i in readers || writer == Some(i))
    && (writer.Some? ==> readers == {})
    && (forall i: nat :: i in readers ==> IsReadCommand(ws[i].job.text))
    && (writer.Some? ==> !IsReadCommand(ws[writer.value].job.text))
  }

  ghost predicate LockInv(s: Sys) {
    Locked(s.workers, s.readers, s.writer)
  }

  ghost predicate SameHolding(p: Phase, q: Phase) {
    HoldsLock(p) == HoldsLock(q) && (HoldsLock(p) ==> p.job == q.job)
  }

  lemma LockedSame(ws: seq<Phase>, ws': seq<Phase>, readers: set<nat>, writer: Option<nat>)
    requires Locked(ws, readers, writer) && |ws'| == |ws|
    requires forall i :: 0 <= i < |ws| ==> SameHolding(ws[i], ws'[i])
    ensures Locked(ws', readers, writer)
  {
    hide IsReadCommand, HoldsLock;
  }

  lemma LockedAcquire(ws: seq<Phase>, readers: set<nat>, writer: Option<nat>, i: nat)
    requires Locked(ws, readers, writer) && i < |ws| && ws[i].Holding? && writer == None
    requires IsReadCommand(ws[i].job.text) || readers == {}
    ensures var read, ws' := IsReadCommand(ws[i].job.text), ws[i := Running(ws[i].job)];
            Locked(ws', if read then readers + {i} else readers, if read then None else Some(i))
  {
    hide IsReadCommand;
  }

  lemma LockedRelease(ws: seq<Phase>, readers: set<nat>, writer: Option<nat>, i: nat)
    requires Locked(ws, readers, writer) && i < |ws| && ws[i].Finished?
    ensures Locked(ws[i := Replying(ws[i].job, ws[i].reply)], readers - {i}, if writer == Some(i) then None else writer)
  {
    hide IsReadCommand;
  }

  /** A sub-step stays in phases that hold the lock, and keeps its job. */
  ghost predicate KeepsJob(p: Phase, a: Action) {
    HoldsLock(p) && Pending(p) && (a.Inner? ==> HoldsLock(a.phase) && Pending(a.phase) && a.phase.job == p.job)
  }

  lemma DoesKeepsJob(db: Db, now: int, later: int, p: Phase, a: Action)
    requires Does(db, now, later, p, a)
    ensures KeepsJob(p, a) && now <= later
  {
    hide Decode, Get, GetReply;
  }

  lemma LockStep(s: Sys, step: Step)
    requires LockInv(s) && Enabled(s, step)
    ensures LockInv(After(s, step))
  {
    hide Does, IsReadCommand, Locked;
    match step
    case Acquire(i) => LockedAcquire(s.workers, s.readers, s.writer, i);
    case Release(i) => LockedRelease(s.workers, s.readers, s.writer, i);
    case Restart(clock, n) => LockedStart(|s.workers|);
    case Exec(i, a, n) =>
      DoesKeepsJob(s.db, s.now, n, s.workers[i], a);
      LockedSame(s.workers, After(s, step).workers, s.readers, s.writer);
    case _ => LockedSame(s.workers, After(s, step).workers, s.readers, s.writer);
  }

  lemma LockedStart(n: nat)
    ensures Locked(seq(n, i => Ready), {}, None)
  {}
}
