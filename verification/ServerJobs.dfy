/** What happens to each accepted command: it is popped in FIFO order, takes effect once, and is answered
    once, in an order consistent with the database lock. */
module ServerJobs {
  import opened Store
  import opened Commands
  import opened TaskQueues
  import opened ServerModel
  import opened ServerQueue

  ghost predicate IsCommitted(hist: seq<Event>, n: nat) {
    exists e :: 0 <= e < |hist| && hist[e].job.id == n
  }

  ghost predicate Answered(hist: seq<Event>, job: Job, reply: string) {
    exists e :: 0 <= e < |hist| && hist[e].job == job && hist[e].reply == reply
  }

  ghost predicate IsSent(sent: seq<Sent>, n: nat) {
    exists k :: 0 <= k < |sent| && sent[k].job.id == n
  }

  predicate Answering(p: Phase) {
    p.Finished? || p.Replying?
  }

  ghost predicate SomePending(ws: seq<Phase>, n: nat) {
    exists i :: 0 <= i < |ws| && Pending(ws[i]) && ws[i].job.id == n
  }

  ghost predicate SomeAnswering(ws: seq<Phase>, n: nat) {
    exists i :: 0 <= i < |ws| && Answering(ws[i]) && ws[i].job.id == n
  }

  /** Accepted commands are numbered, and are the popped ones followed by the queue. */
  ghost predicate Fifo(accepted: seq<Job>, popped: seq<Job>, queue: seq<Job>) {
    accepted == popped + queue && forall n: nat :: n < |accepted| ==> accepted[n].id == n
  }

  /** Workers have different popped jobs; one is pending exactly while it has no effect, and otherwise
      answers with the reply decided then. */
  ghost predicate Working(ws: seq<Phase>, popped: seq<Job>, hist: seq<Event>) {
    && (forall i :: 0 <= i < |ws| && !Idle(ws[i]) ==> ws[i].job.id < |popped| && popped[ws[i].job.id] == ws[i].job)
    && (forall i, j :: 0 <= i < j < |ws| && !Idle(ws[i]) && !Idle(ws[j]) ==> ws[i].job.id != ws[j].job.id)
    && (forall i :: 0 <= i < |ws| && Pending(ws[i]) ==> !IsCommitted(hist, ws[i].job.id))
    && (forall i :: 0 <= i < |ws| && Answering(ws[i]) ==> Answered(hist, ws[i].job, ws[i].reply))
  }

  /** Every popped command has taken effect once, or is pending. */
  ghost predicate Effects(ws: seq<Phase>, popped: seq<Job>, hist: seq<Event>) {
    && (forall n: nat :: n < |popped| ==> IsCommitted(hist, n) || SomePending(ws, n))
    && (forall e :: 0 <= e < |hist| ==> hist[e].job.id < |popped| && popped[hist[e].job.id] == hist[e].job)
    && (forall e, f :: 0 <= e < f < |hist| ==> hist[e].job.id != hist[f].job.id)
  }

  /** Every effect has been answered once, or is being answered. */
  ghost predicate Replies(ws: seq<Phase>, hist: seq<Event>, sent: seq<Sent>) {
    && (forall k :: 0 <= k < |sent| ==> Answered(hist, sent[k].job, sent[k].reply))
    && (forall k, l :: 0 <= k < l < |sent| ==> sent[k].job.id != sent[l].job.id)
    && (forall i :: 0 <= i < |ws| && !Idle(ws[i]) ==> !IsSent(sent, ws[i].job.id))
    && (forall e :: 0 <= e < |hist| ==> IsSent(sent, hist[e].job.id) || SomeAnswering(ws, hist[e].job.id))
  }

  ghost predicate JobInv(s: Sys) {
    && Fifo(s.accepted, s.popped, s.queue)
    && Working(s.workers, s.popped, s.hist)
    && Effects(s.workers, s.popped, s.hist)
    && Replies(s.workers, s.hist, s.sent)
  }

  /** The phases differ in nothing that matters here. */
  ghost predicate SameJob(p: Phase, q: Phase) {
    && Idle(p) == Idle(q) && Pending(p) == Pending(q) && Answering(p) == Answering(q)
    && (!Idle(p) ==> p.job == q.job)
    && (Answering(p) ==> p.reply == q.reply)
  }

  ghost predicate SameJobs(ws: seq<Phase>, ws': seq<Phase>) {
    |ws'| == |ws| && forall i :: 0 <= i < |ws| ==> SameJob(ws[i], ws'[i])
  }

  lemma JobsSame(ws: seq<Phase>, ws': seq<Phase>, popped: seq<Job>, hist: seq<Event>, sent: seq<Sent>)
    requires SameJobs(ws, ws') && Working(ws, popped, hist) && Effects(ws, popped, hist) && Replies(ws, hist, sent)
    ensures Working(ws', popped, hist) && Effects(ws', popped, hist) && Replies(ws', hist, sent)
  {
    hide IsCommitted, Answered, IsSent;
  }

  // ---------- a worker pops a job ----------

  lemma WorkingPop(ws: seq<Phase>, i: nat, job: Job, popped: seq<Job>, hist: seq<Event>)
    requires Working(ws, popped, hist) && Effects(ws, popped, hist)
    requires i < |ws| && Idle(ws[i]) && job.id == |popped|
    ensures Working(ws[i := Holding(job)], popped + [job], hist)
  {
    hide Answered;
  }

  lemma EffectsPop(ws: seq<Phase>, i: nat, job: Job, popped: seq<Job>, hist: seq<Event>)
    requires Effects(ws, popped, hist) && i < |ws| && Idle(ws[i]) && job.id == |popped|
    ensures Effects(ws[i := Holding(job)], popped + [job], hist)
  {
    hide IsCommitted;
    var ws' := ws[i := Holding(job)];
    forall n: nat | n < |popped| + 1 ensures IsCommitted(hist, n) || SomePending(ws', n) {
      if n == |popped| {
        assert Pending(ws'[i]);
      } else if !IsCommitted(hist, n) {
        var x :| 0 <= x < |ws| && Pending(ws[x]) && ws[x].job.id == n;
        assert Pending(ws'[x]);
      }
    }
  }

  lemma RepliesPop(ws: seq<Phase>, i: nat, job: Job, popped: seq<Job>, hist: seq<Event>, sent: seq<Sent>)
    requires Replies(ws, hist, sent) && Effects(ws, popped, hist)
    requires i < |ws| && Idle(ws[i]) && job.id == |popped|
    ensures Replies(ws[i := Holding(job)], hist, sent)
  {
    var ws' := ws[i := Holding(job)];
    forall k | 0 <= k < |sent| ensures sent[k].job.id < |popped| {
      assert Answered(hist, sent[k].job, sent[k].reply);
      var e :| 0 <= e < |hist| && hist[e].job == sent[k].job;
    }
    AnsweringKept(ws, ws', i);
  }

  lemma AnsweringKept(ws: seq<Phase>, ws': seq<Phase>, i: nat)
    requires i < |ws| == |ws'| && !Answering(ws[i]) && forall x :: 0 <= x < |ws| && x != i ==> ws'[x] == ws[x]
    ensures forall n :: SomeAnswering(ws, n) ==> SomeAnswering(ws', n)
  {}

  // ---------- a command takes effect ----------

  lemma CommittedGrows(hist: seq<Event>, ev: Event, n: nat)
    ensures IsCommitted(hist + [ev], n) <==> IsCommitted(hist, n) || ev.job.id == n
  {
    var h := hist + [ev];
    if IsCommitted(hist, n) {
      var e :| 0 <= e < |hist| && hist[e].job.id == n;
      assert h[e].job.id == n;
    }
    if ev.job.id == n { assert h[|hist|].job.id == n; }
  }

  lemma AnsweredGrows(hist: seq<Event>, ev: Event, job: Job, reply: string)
    requires Answered(hist, job, reply) || (ev.job == job && ev.reply == reply)
    ensures Answered(hist + [ev], job, reply)
  {
    var h := hist + [ev];
    if Answered(hist, job, reply) {
      var e :| 0 <= e < |hist| && hist[e].job == job && hist[e].reply == reply;
      assert h[e].job == job;
    } else {
      assert h[|hist|] == ev;
    }
  }

  lemma WorkingCommit(ws: seq<Phase>, i: nat, popped: seq<Job>, hist: seq<Event>, ev: Event)
    requires Working(ws, popped, hist) && i < |ws| && Pending(ws[i]) && ev.job == ws[i].job
    ensures Working(ws[i := Finished(ev.job, ev.reply)], popped, hist + [ev])
  {
    hide IsCommitted, Answered;
    var ws' := ws[i := Finished(ev.job, ev.reply)];
    forall x | 0 <= x < |ws| && Pending(ws'[x]) ensures !IsCommitted(hist + [ev], ws'[x].job.id) {
      CommittedGrows(hist, ev, ws[x].job.id);
    }
    forall x | 0 <= x < |ws| && Answering(ws'[x]) ensures Answered(hist + [ev], ws'[x].job, ws'[x].reply) {
      AnsweredGrows(hist, ev, ws'[x].job, ws'[x].reply);
    }
  }

  lemma EffectsCommit(ws: seq<Phase>, i: nat, popped: seq<Job>, hist: seq<Event>, ev: Event)
    requires Working(ws, popped, hist) && Effects(ws, popped, hist)
    requires i < |ws| && Pending(ws[i]) && ev.job == ws[i].job
    ensures Effects(ws[i := Finished(ev.job, ev.reply)], popped, hist + [ev])
  {
    hide Answered;
    var ws' := ws[i := Finished(ev.job, ev.reply)];
    forall n: nat | n < |popped| ensures IsCommitted(hist + [ev], n) || SomePending(ws', n) {
      CommittedGrows(hist, ev, n);
      if !IsCommitted(hist, n) && n != ev.job.id {
        var x :| 0 <= x < |ws| && Pending(ws[x]) && ws[x].job.id == n;
        assert Pending(ws'[x]);
      }
    }
    assert !IsCommitted(hist, ev.job.id);
  }

  lemma RepliesCommit(ws: seq<Phase>, i: nat, popped: seq<Job>, hist: seq<Event>, ev: Event, sent: seq<Sent>)
    requires Replies(ws, hist, sent) && i < |ws| && Pending(ws[i]) && ev.job == ws[i].job
    ensures Replies(ws[i := Finished(ev.job, ev.reply)], hist + [ev], sent)
  {
    hide Answered, IsSent;
    var ws' := ws[i := Finished(ev.job, ev.reply)];
    forall k | 0 <= k < |sent| ensures Answered(hist + [ev], sent[k].job, sent[k].reply) {
      AnsweredGrows(hist, ev, sent[k].job, sent[k].reply);
    }
    AnsweringKept(ws, ws', i);
    assert Answering(ws'[i]);
  }

  // ---------- a reply is sent ----------

  lemma WorkingSend(ws: seq<Phase>, i: nat, popped: seq<Job>, hist: seq<Event>)
    requires Working(ws, popped, hist) && i < |ws| && ws[i].Replying?
    ensures Working(ws[i := Ready], popped, hist)
  {
    hide IsCommitted, Answered;
  }

  lemma EffectsSend(ws: seq<Phase>, i: nat, popped: seq<Job>, hist: seq<Event>)
    requires Effects(ws, popped, hist) && i < |ws| && ws[i].Replying?
    ensures Effects(ws[i := Ready], popped, hist)
  {
    hide IsCommitted;
    var ws' := ws[i := Ready];
    forall n: nat | SomePending(ws, n) ensures SomePending(ws', n) {
      var x :| 0 <= x < |ws| && Pending(ws[x]) && ws[x].job.id == n;
      assert Pending(ws'[x]);
    }
  }

  lemma SentGrows(sent: seq<Sent>, r: Sent, n: nat)
    ensures IsSent(sent + [r], n) <==> IsSent(sent, n) || r.job.id == n
  {
    var t := sent + [r];
    if IsSent(sent, n) {
      var k :| 0 <= k < |sent| && sent[k].job.id == n;
      assert t[k].job.id == n;
    }
    if r.job.id == n { assert t[|sent|].job.id == n; }
  }

  lemma RepliesSend(ws: seq<Phase>, i: nat, popped: seq<Job>, hist: seq<Event>, sent: seq<Sent>)
    requires Replies(ws, hist, sent) && Working(ws, popped, hist) && i < |ws| && ws[i].Replying?
    ensures Replies(ws[i := Ready], hist, sent + [Sent(ws[i].job, ws[i].reply)])
  {
    hide Answered, IsCommitted;
    var ws', r := ws[i := Ready], Sent(ws[i].job, ws[i].reply);
    assert Answering(ws[i]) && !IsSent(sent, r.job.id);
    forall x | 0 <= x < |ws| && !Idle(ws'[x]) ensures !IsSent(sent + [r], ws'[x].job.id) {
      SentGrows(sent, r, ws[x].job.id);
    }
    forall e | 0 <= e < |hist| ensures IsSent(sent + [r], hist[e].job.id) || SomeAnswering(ws', hist[e].job.id) {
      var n := hist[e].job.id;
      SentGrows(sent, r, n);
      if !IsSent(sent, n) && n != r.job.id {
        var x :| 0 <= x < |ws| && Answering(ws[x]) && ws[x].job.id == n;
        assert Answering(ws'[x]);
      }
    }
  }

  // ---------- every step ----------

  lemma JobPoll(s: Sys, i: nat)
    requires JobInv(s) && Enabled(s, Poll(i)) && s.queue != []
    ensures JobInv(After(s, Poll(i)))
  {
    hide Working, Effects, Replies;
    var job := s.queue[0];
    assert s.accepted[|s.popped|] == job;
    WorkingPop(s.workers, i, job, s.popped, s.hist);
    EffectsPop(s.workers, i, job, s.popped, s.hist);
    RepliesPop(s.workers, i, job, s.popped, s.hist, s.sent);
    assert (s.popped + [job]) + s.queue[1..] == s.accepted;
  }

  lemma JobExec(s: Sys, step: Step)
    requires JobInv(s) && step.Exec? && Enabled(s, step)
    ensures JobInv(After(s, step))
  {
    hide Does, Working, Effects, Replies;
    var i, a := step.i, step.action;
    DoesKeepsJob(s.db, s.now, step.now, s.workers[i], a);
    match a
    case Inner(p, db) => JobsSame(s.workers, s.workers[i := p], s.popped, s.hist, s.sent);
    case Commit(call, reply, db) =>
      var ev := Event(s.workers[i].job, call, reply);
      WorkingCommit(s.workers, i, s.popped, s.hist, ev);
      EffectsCommit(s.workers, i, s.popped, s.hist, ev);
      RepliesCommit(s.workers, i, s.popped, s.hist, ev, s.sent);
  }

  lemma JobStart(n: nat)
    ensures Working(seq(n, i => Ready), [], []) && Effects(seq(n, i => Ready), [], []) && Replies(seq(n, i => Ready), [], [])
  {}

  lemma JobStep(s: Sys, step: Step)
    requires JobInv(s) && Enabled(s, step)
    ensures JobInv(After(s, step))
  {
    hide Does, Working, Effects, Replies, Truncated;
    var t := After(s, step);
    match step
    case Poll(i) => if s.queue != [] { JobPoll(s, i); } else { JobsSame(s.workers, t.workers, s.popped, s.hist, s.sent); }
    case Exec(i, a, n) => JobExec(s, step);
    case Send(i) =>
      WorkingSend(s.workers, i, s.popped, s.hist);
      EffectsSend(s.workers, i, s.popped, s.hist);
      RepliesSend(s.workers, i, s.popped, s.hist, s.sent);
    case Submit(text, wakes) =>
      JobsSame(s.workers, t.workers, s.popped, s.hist, s.sent);
      if !s.shuttingDown {
        var job := Job(|s.accepted|, Truncated(text));
        assert s.popped + (s.queue + [job]) == s.accepted + [job];
      }
    case Restart(clock, n) => JobStart(|s.workers|);
    case _ => JobsSame(s.workers, t.workers, s.popped, s.hist, s.sent);
  }

  // ---------- the order of effects ----------

  ghost predicate Conflict(a: Job, b: Job) {
    !IsReadCommand(a.text) || !IsReadCommand(b.text)
  }

  ghost predicate HeldBy(ws: seq<Phase>, job: Job) {
    exists i :: 0 <= i < |ws| && HoldsLock(ws[i]) && Pending(ws[i]) && ws[i].job == job
  }

  ghost predicate Precedes(hist: seq<Event>, a: Job, f: nat)
    requires f < |hist|
  {
    exists e :: 0 <= e < f && hist[e].job == a
  }

  /** Every command given the lock has taken effect or still holds it; of two that need to exclude each other,
      the one given the lock first takes effect first. */
  ghost predicate OrderInv(locks: seq<Job>, ws: seq<Phase>, popped: seq<Job>, hist: seq<Event>) {
    && (forall x :: 0 <= x < |locks| ==> locks[x].id < |popped| && popped[locks[x].id] == locks[x])
    && (forall i :: 0 <= i < |ws| && ws[i].Holding? ==> ws[i].job !in locks)
    && (forall i :: 0 <= i < |ws| && HoldsLock(ws[i]) ==> ws[i].job in locks)
    && (forall x :: 0 <= x < |locks| ==> IsCommitted(hist, locks[x].id) || HeldBy(ws, locks[x]))
    && (forall e :: 0 <= e < |hist| ==> hist[e].job in locks)
    && (forall x, y :: 0 <= x < y < |locks| ==> locks[x] != locks[y])
    && (forall x, y, f :: (0 <= x < y < |locks| && 0 <= f < |hist| && hist[f].job == locks[y]
                           && Conflict(locks[x], locks[y])) ==> Precedes(hist, locks[x], f))
  }

  lemma OrderSame(locks: seq<Job>, ws: seq<Phase>, ws': seq<Phase>, popped: seq<Job>, hist: seq<Event>)
    requires OrderInv(locks, ws, popped, hist) && SameJobs(ws, ws') && |ws| == |ws'|
    requires forall i :: 0 <= i < |ws| ==>
               (HoldsLock(ws'[i]) ==> HoldsLock(ws[i])) && (HoldsLock(ws[i]) && Pending(ws[i]) ==> HoldsLock(ws'[i]))
               && (ws'[i].Holding? ==> ws[i].Holding?)
    ensures OrderInv(locks, ws', popped, hist)
  {
    hide IsCommitted, Precedes, Conflict;
  }

  lemma HeldByKept(ws: seq<Phase>, ws': seq<Phase>, i: nat, job: Job)
    requires i < |ws| == |ws'| && HeldBy(ws, job) && forall x :: 0 <= x < |ws| && x != i ==> ws'[x] == ws[x]
    requires HoldsLock(ws[i]) && Pending(ws[i]) ==> ws[i].job != job
    ensures HeldBy(ws', job)
  {}

  lemma OrderPop(locks: seq<Job>, ws: seq<Phase>, i: nat, job: Job, popped: seq<Job>, hist: seq<Event>)
    requires OrderInv(locks, ws, popped, hist) && i < |ws| && Idle(ws[i]) && job.id == |popped|
    ensures OrderInv(locks, ws[i := Holding(job)], popped + [job], hist)
  {
    hide IsCommitted, Precedes, Conflict;
    forall x | 0 <= x < |locks| && HeldBy(ws, locks[x]) ensures HeldBy(ws[i := Holding(job)], locks[x]) {
      HeldByKept(ws, ws[i := Holding(job)], i, locks[x]);
    }
  }

  lemma OrderSend(locks: seq<Job>, ws: seq<Phase>, i: nat, popped: seq<Job>, hist: seq<Event>)
    requires OrderInv(locks, ws, popped, hist) && i < |ws| && ws[i].Replying?
    ensures OrderInv(locks, ws[i := Ready], popped, hist)
  {
    hide IsCommitted, Precedes, Conflict;
    forall x | 0 <= x < |locks| && HeldBy(ws, locks[x]) ensures HeldBy(ws[i := Ready], locks[x]) {
      HeldByKept(ws, ws[i := Ready], i, locks[x]);
    }
  }

  lemma OrderAcquire(locks: seq<Job>, ws: seq<Phase>, i: nat, popped: seq<Job>, hist: seq<Event>)
    requires OrderInv(locks, ws, popped, hist) && Working(ws, popped, hist) && i < |ws| && ws[i].Holding?
    ensures OrderInv(locks + [ws[i].job], ws[i := Running(ws[i].job)], popped, hist)
  {
    hide Answered, Precedes, Conflict;
    var job, ws', locks' := ws[i].job, ws[i := Running(ws[i].job)], locks + [ws[i].job];
    assert Pending(ws[i]) && !IsCommitted(hist, job.id);
    assert locks'[|locks|] == job && HoldsLock(ws'[i]) && Pending(ws'[i]);
    forall x | 0 <= x < |locks| && HeldBy(ws, locks[x]) ensures HeldBy(ws', locks[x]) {
      HeldByKept(ws, ws', i, locks[x]);
    }
    forall j | 0 <= j < |ws| && HoldsLock(ws'[j]) ensures ws'[j].job in locks' {}
    forall e | 0 <= e < |hist| ensures hist[e].job != job && hist[e].job in locks' {}
  }

  lemma PrecedesGrows(hist: seq<Event>, ev: Event, a: Job, f: nat)
    requires f < |hist| && Precedes(hist, a, f)
    ensures Precedes(hist + [ev], a, f)
  {
    var e :| 0 <= e < f && hist[e].job == a;
    assert (hist + [ev])[e].job == a;
  }

  /** While a worker holds the lock, a conflicting command that got the lock earlier is done with it. */
  lemma ConflictDone(s: Sys, i: nat, x: nat)
    requires OrderInv(s.locks, s.workers, s.popped, s.hist) && LockInv(s) && JobInv(s)
    requires i < |s.workers| && HoldsLock(s.workers[i]) && x < |s.locks|
    requires Conflict(s.locks[x], s.workers[i].job) && s.locks[x] != s.workers[i].job
    ensures exists e :: 0 <= e < |s.hist| && s.hist[e].job == s.locks[x]
  {}

  lemma OrderCommit(s: Sys, i: nat, ev: Event)
    requires OrderInv(s.locks, s.workers, s.popped, s.hist) && LockInv(s) && JobInv(s)
    requires i < |s.workers| && HoldsLock(s.workers[i]) && Pending(s.workers[i]) && ev.job == s.workers[i].job
    ensures OrderInv(s.locks, s.workers[i := Finished(ev.job, ev.reply)], s.popped, s.hist + [ev])
  {
    hide Answered, Fifo, Replies, Locked, Effects, Working, Conflict;
    var locks, ws, hist := s.locks, s.workers, s.hist;
    var ws', hist' := ws[i := Finished(ev.job, ev.reply)], hist + [ev];
    forall x | 0 <= x < |locks| ensures IsCommitted(hist', locks[x].id) || HeldBy(ws', locks[x]) {
      CommittedGrows(hist, ev, locks[x].id);
      if !IsCommitted(hist, locks[x].id) && locks[x] != ev.job { HeldByKept(ws, ws', i, locks[x]); }
    }
    forall x, y, f | 0 <= x < y < |locks| && 0 <= f < |hist'| && hist'[f].job == locks[y] && Conflict(locks[x], locks[y])
      ensures Precedes(hist', locks[x], f)
    {
      if f < |hist| {
        PrecedesGrows(hist, ev, locks[x], f);
      } else {
        ConflictDone(s, i, x);
        var e :| 0 <= e < |hist| && hist[e].job == locks[x];
        assert hist'[e].job == locks[x];
      }
    }
  }

  lemma OrderStep(s: Sys, step: Step)
    requires OrderInv(s.locks, s.workers, s.popped, s.hist) && LockInv(s) && JobInv(s) && Enabled(s, step)
    ensures var t := After(s, step); OrderInv(t.locks, t.workers, t.popped, t.hist)
  {
    hide Does, Truncated, OrderInv, LockInv, Working, Effects, Replies;
    var t := After(s, step);
    match step
    case Poll(i) =>
      if s.queue != [] {
        assert s.accepted[|s.popped|] == s.queue[0];
        OrderPop(s.locks, s.workers, i, s.queue[0], s.popped, s.hist);
      } else {
        OrderSame(s.locks, s.workers, t.workers, s.popped, s.hist);
      }
    case Acquire(i) => OrderAcquire(s.locks, s.workers, i, s.popped, s.hist);
    case Exec(i, a, n) =>
      DoesKeepsJob(s.db, s.now, n, s.workers[i], a);
      if a.Inner? {
        OrderSame(s.locks, s.workers, t.workers, s.popped, s.hist);
      } else {
        OrderCommit(s, i, Event(s.workers[i].job, a.call, a.reply));
      }
    case Send(i) => OrderSend(s.locks, s.workers, i, s.popped, s.hist);
    case Restart(clock, n) => OrderStart(|s.workers|);
    case _ => OrderSame(s.locks, s.workers, t.workers, s.popped, s.hist);
  }

  lemma OrderStart(n: nat)
    ensures OrderInv([], seq(n, i => Ready), [], [])
  {}
}
