/** What the commands of concurrent workers do to the table and the log: exactly what a sequential
    execution in the order of effects does, with the durability invariant at every point. */
module ServerEffects {
  import opened Store
  import opened Text
  import opened Aof
  import opened Commands
  import opened TaskQueues
  import opened ServerModel
  import opened ServerQueue
  import opened ServerJobs

  // ---------- sequential executions ----------

  /** The database after executing the events one at a time. */
  function DbAfter(base: Db, hist: seq<Event>): Db {
    if hist == [] then base
    else Execute(DbAfter(base, hist[..|hist| - 1]), hist[|hist| - 1].call).db
  }

  /** The next event of a sequential execution on d: the decoded command, with the reply that it has there. */
  ghost predicate LegalEvent(d: Db, e: Event) {
    && e.call.request == Decode(e.job.text)
    && Possible(d, e.call)
    && e.reply == Execute(d, e.call).reply
  }

  /** hist is a sequential execution from base whose instants do not go back in time. */
  ghost predicate Legal(base: Db, hist: seq<Event>) {
    hist == [] ||
    var n := |hist| - 1;
    && Legal(base, hist[..n])
    && LegalEvent(DbAfter(base, hist[..n]), hist[n])
    && Since(hist[..n], Instant(hist[n].call))
  }

  /** All events so far are not after t. */
  predicate Since(hist: seq<Event>, t: int) {
    hist == [] || Instant(hist[|hist| - 1].call) <= t
  }

  lemma LegalAppend(base: Db, hist: seq<Event>, e: Event)
    requires Legal(base, hist) && LegalEvent(DbAfter(base, hist), e) && Since(hist, Instant(e.call))
    ensures Legal(base, hist + [e])
    ensures DbAfter(base, hist + [e]) == Execute(DbAfter(base, hist), e.call).db
  {
    hide LegalEvent, Execute;
  }

  /** The reference store after the same events. */
  function RefAfter(m: Table, hist: seq<Event>): Table {
    if hist == [] then m
    else
      var e := hist[|hist| - 1];
      RefExecute(RefAfter(m, hist[..|hist| - 1]), e.call, Instant(e.call)).0
  }

  lemma {:induction false} RefAgrees(base: Db, hist: seq<Event>, t: int)
    requires Legal(base, hist) && Since(hist, t)
    ensures Live(RefAfter(base.table, hist), t) == Live(DbAfter(base, hist).table, t)
  {
    hide Execute, RefExecute, Live;
    if hist != [] {
      var n := |hist| - 1;
      var e := hist[n];
      var now := Instant(e.call);
      var d, r := DbAfter(base, hist[..n]), RefAfter(base.table, hist[..n]);
      RefAgrees(base, hist[..n], now);
      RefStep(r, d, e.call);
      LiveLive(Execute(d, e.call).db.table, now, t);
    }
  }

  lemma RefOnlyLive(r: Table, m: Table, c: Call, now: int)
    requires Live(r, now) == Live(m, now)
    ensures RefExecute(r, c, now) == RefExecute(Live(m, now), c, now)
  {
    hide DecInt, Fit;
    LiveLive(m, now, now);
  }

  /** One command on a reference that agrees on what is live. */
  lemma RefStep(r: Table, d: Db, c: Call)
    requires Possible(d, c) && Live(r, Instant(c)) == Live(d.table, Instant(c))
    ensures RefExecute(r, c, Instant(c)) == (Live(Execute(d, c).db.table, Instant(c)), Execute(d, c).reply)
  {
    hide Execute, RefExecute, Live, Possible;
    Unobservable(d, c, Instant(c));
    RefOnlyLive(r, d.table, c, Instant(c));
  }

  lemma {:induction false} LegalAt(base: Db, hist: seq<Event>, f: nat)
    requires Legal(base, hist) && f < |hist|
    ensures Legal(base, hist[..f]) && LegalEvent(DbAfter(base, hist[..f]), hist[f])
    ensures Since(hist[..f], Instant(hist[f].call))
  {
    hide LegalEvent, DbAfter, Since, Instant;
    var n := |hist| - 1;
    if f < n {
      LegalAt(base, hist[..n], f);
      assert hist[..n][..f] == hist[..f];
    }
  }

  /** In a sequential execution every reply is that of the reference that drops keys as they expire. */
  lemma RepliesOfReference(base: Db, hist: seq<Event>, f: nat)
    requires Legal(base, hist) && f < |hist|
    ensures var c := hist[f].call;
            hist[f].reply == RefExecute(RefAfter(base.table, hist[..f]), c, Instant(c)).1
  {
    hide Execute, RefExecute, RefAfter, DbAfter, Legal, Since, Instant, Live;
    var c := hist[f].call;
    LegalAt(base, hist, f);
    RefAgrees(base, hist[..f], Instant(c));
    RefStep(RefAfter(base.table, hist[..f]), DbAfter(base, hist[..f]), c);
  }

  // ---------- commands in progress ----------

  /** The database that others would see while a command is in phase p, when d is the one before it. */
  function Partial(d: Db, p: Phase): Db {
    match p
    case SetLogged(job, t1) => d.(file := d.file + Print(FinalRecord(Decode(job.text), t1)))
    case SetStored(job, t1) =>
      var r := Decode(job.text);
      Db(d.table[KeyOf(r) := Timed(ValueOfSet(r), 0)], d.file + Print(FinalRecord(r, t1)))
    case DelLogged(job, t1) => d.(file := d.file + Print(Del(KeyOf(Decode(job.text)))))
    case _ => d
  }

  /** Phases in which a command is going to change the database. */
  predicate Writing(p: Phase) {
    p.DelChecked? || p.DelLogged? || p.SetTimed? || p.SetLogged? || p.SetStored?
  }

  /** What a worker in phase p knows about the database d before its command. */
  ghost predicate PhaseOk(d: Db, hist: seq<Event>, now: int, p: Phase) {
    match p
    case Found(job, entry) =>
      var r := Decode(job.text);
      (r.GetKey? || r.TtlOf? || r.DelKey?) && entry == Get(d.table, KeyOf(r))
    case TtlChecked(job, live, t1) =>
      var r := Decode(job.text);
      && r.TtlOf? && Get(d.table, r.key) == Some(live)
      && !Expired(live, t1) && live.expiresAt != 0 && t1 <= now
    case DelChecked(job, t1) => DelOk(d, hist, now, job, t1)
    case DelLogged(job, t1) => DelOk(d, hist, now, job, t1)
    case SetTimed(job, t1) => Decode(job.text).SetKey? && Since(hist, t1) && t1 <= now
    case SetLogged(job, t1) => Decode(job.text).SetKey? && Since(hist, t1) && t1 <= now
    case SetStored(job, t1) => Decode(job.text).SetKey? && Since(hist, t1) && t1 <= now
    case _ => true
  }

  ghost predicate DelOk(d: Db, hist: seq<Event>, now: int, job: Job, t1: int) {
    var r := Decode(job.text);
    r.DelKey? && r.key in d.table && !Expired(d.table[r.key], t1) && Since(hist, t1) && t1 <= now
  }

  /** A sub-step that goes on: the database is the partial one of the next phase. */
  lemma InnerMatches(d: Db, hist: seq<Event>, now: int, p: Phase, a: Action)
    requires PhaseOk(d, hist, now, p) && Since(hist, now) && a.Inner?
    requires Does(Partial(d, p), now, now, p, a)
    ensures a.db == Partial(d, a.phase) && PhaseOk(d, hist, now, a.phase)
    ensures Writing(a.phase) ==> !ReadOnly(Decode(p.job.text))
  {
    hide Decode, Print, GetReply, TtlReply, Deadline;
  }

  /** A sub-step that decides the reply: the whole command did what Execute does on d. */
  lemma CommitMatches(d: Db, hist: seq<Event>, now: int, later: int, p: Phase, a: Action)
    requires PhaseOk(d, hist, now, p) && Since(hist, now) && a.Commit?
    requires Does(Partial(d, p), now, later, p, a)
    ensures LegalEvent(d, Event(p.job, a.call, a.reply)) && Execute(d, a.call).db == a.db
    ensures Since(hist, Instant(a.call)) && Instant(a.call) <= later
    ensures a.call.request.Exit? ==> a.call.t2 <= later
  {
    hide Decode, Print, PrintAll, Fit, DecInt, IsCompaction;
  }

  // ---------- the invariant ----------

  /** The real database is the sequential one, plus what the writer in progress has already done. */
  ghost predicate Visible(d: Db, ws: seq<Phase>, writer: Option<nat>, db: Db) {
    && (writer.Some? ==> writer.value < |ws|)
    && db == if writer.Some? then Partial(d, ws[writer.value]) else d
  }

  ghost predicate PhasesOk(d: Db, hist: seq<Event>, now: int, ws: seq<Phase>) {
    forall i :: 0 <= i < |ws| ==> PhaseOk(d, hist, now, ws[i]) && (Writing(ws[i]) ==> !ReadOnly(Decode(ws[i].job.text)))
  }

  ghost predicate DbInv(s: Sys) {
    var d := DbAfter(s.base, s.hist);
    && Legal(s.base, s.hist) && Since(s.hist, s.now)
    && Visible(d, s.workers, s.writer, s.db)
    && PhasesOk(d, s.hist, s.now, s.workers)
  }

  predicate Plain(p: Phase) {
    Idle(p) || p.Holding? || p.Running? || p.Finished? || p.Replying?
  }

  lemma PhaseLater(d: Db, hist: seq<Event>, now: int, later: int, p: Phase)
    requires PhaseOk(d, hist, now, p) && now <= later
    ensures PhaseOk(d, hist, later, p)
  {
    hide Decode;
  }

  lemma PlainIsOk(d: Db, hist: seq<Event>, now: int, p: Phase)
    requires Plain(p)
    ensures PhaseOk(d, hist, now, p) && !Writing(p) && Partial(d, p) == d
  {}

  /** A worker of which the others see nothing goes to a phase that does nothing either. */
  lemma DbPlain(s: Sys, t: Sys)
    requires DbInv(s) && |t.workers| == |s.workers| && s.now <= t.now
    requires t.base == s.base && t.hist == s.hist && t.db == s.db
    requires forall i :: 0 <= i < |s.workers| && t.workers[i] != s.workers[i] ==> Plain(s.workers[i]) && Plain(t.workers[i])
    requires t.writer == s.writer
             || (t.writer == None && s.writer.Some? && s.writer.value < |s.workers| && Plain(s.workers[s.writer.value]))
             || (s.writer == None && t.writer.Some? && t.writer.value < |t.workers| && Plain(t.workers[t.writer.value]))
    ensures DbInv(t)
  {
    hide Decode, Legal, PhaseOk, Partial, DbAfter, Plain;
    var d := DbAfter(s.base, s.hist);
    forall i | 0 <= i < |s.workers|
      ensures PhaseOk(d, t.hist, t.now, t.workers[i]) && (Writing(t.workers[i]) ==> !ReadOnly(Decode(t.workers[i].job.text)))
      ensures t.workers[i] != s.workers[i] ==> Partial(d, s.workers[i]) == d == Partial(d, t.workers[i])
    {
      if t.workers[i] == s.workers[i] {
        PhaseLater(d, s.hist, s.now, t.now, s.workers[i]);
      } else {
        PlainIsOk(d, s.hist, s.now, s.workers[i]);
        PlainIsOk(d, t.hist, t.now, t.workers[i]);
      }
    }
    if s.writer != t.writer {
      if s.writer.Some? { PlainIsOk(d, s.hist, s.now, s.workers[s.writer.value]); }
      if t.writer.Some? { PlainIsOk(d, t.hist, t.now, t.workers[t.writer.value]); }
    }
  }

  /** A worker holding the lock sees the partial database of its own phase; a reader's command is read-only. */
  lemma DbSeen(s: Sys, i: nat)
    requires DbInv(s) && LockInv(s) && i < |s.workers| && HoldsLock(s.workers[i])
    ensures var d := DbAfter(s.base, s.hist);
            s.db == Partial(d, s.workers[i]) && (s.writer != Some(i) ==> s.writer == None && s.db == d)
    ensures s.writer != Some(i) ==> ReadOnly(Decode(s.workers[i].job.text))
  {
    hide Decode, IsReadCommand, Legal, DbAfter, PhaseOk;
    if s.writer != Some(i) {
      assert i in s.readers;
      ReadLockSound(s.workers[i].job.text);
    }
  }

  lemma DbInner(s: Sys, step: Step)
    requires DbInv(s) && LockInv(s) && step.Exec? && step.action.Inner? && Enabled(s, step)
    ensures DbInv(After(s, step))
  {
    hide Does, Decode, Legal, DbAfter, PhaseOk, Partial, Locked, ReadOnly;
    var d, i, a := DbAfter(s.base, s.hist), step.i, step.action;
    DoesKeepsJob(s.db, s.now, step.now, s.workers[i], a);
    DbSeen(s, i);
    InnerIsNow(s.db, s.now, step.now, s.workers[i], a);
    InnerMatches(d, s.hist, s.now, s.workers[i], a);
    if s.writer != Some(i) { NotWriting(d, a.phase); }
  }

  lemma InnerIsNow(db: Db, now: int, later: int, p: Phase, a: Action)
    requires Does(db, now, later, p, a) && a.Inner?
    ensures later == now
  {
    hide Decode;
  }

  lemma NotWriting(d: Db, p: Phase)
    ensures !Writing(p) ==> Partial(d, p) == d && Promised(d, p) == d.table
  {}

  /** The others hold no lock while a writer commits, and a reader's commit changes nothing they know. */
  lemma OthersOk(d: Db, d': Db, hist: seq<Event>, e: Event, now: int, p: Phase, reading: bool)
    requires PhaseOk(d, hist, now, p) && (Writing(p) ==> !ReadOnly(Decode(p.job.text)))
    requires !HoldsLock(p) || (reading && d' == d && ReadOnly(Decode(p.job.text)))
    ensures PhaseOk(d', hist + [e], now, p)
  {
    hide Decode, ReadOnly;
  }

  lemma DbCommit(s: Sys, step: Step)
    requires DbInv(s) && LockInv(s) && step.Exec? && step.action.Commit? && Enabled(s, step)
    ensures DbInv(After(s, step))
  {
    hide Does, Decode, Legal, DbAfter, PhaseOk, Partial, Locked, ReadOnly, Execute, LegalEvent;
    var d, i, a := DbAfter(s.base, s.hist), step.i, step.action;
    var p := s.workers[i];
    DoesKeepsJob(s.db, s.now, step.now, p, a);
    var e, t := Event(p.job, a.call, a.reply), After(s, step);
    DbSeen(s, i);
    CommitMatches(d, s.hist, s.now, step.now, p, a);
    LegalAppend(s.base, s.hist, e);
    CallRequest(d, e);
    if s.writer != Some(i) { ReadOnlyKeeps(d, a.call); }
    forall j: nat | j < |s.workers|
      ensures PhaseOk(a.db, t.hist, t.now, t.workers[j]) && (Writing(t.workers[j]) ==> !ReadOnly(Decode(t.workers[j].job.text)))
    {
      if j == i {
        PlainIsOk(a.db, t.hist, t.now, t.workers[i]);
      } else {
        if HoldsLock(s.workers[j]) { OtherReads(s, i, j); }
        OthersOk(d, a.db, s.hist, e, s.now, s.workers[j], s.writer != Some(i));
        PhaseLater(a.db, t.hist, s.now, t.now, s.workers[j]);
      }
    }
    NotWriting(a.db, t.workers[i]);
  }

  lemma CallRequest(d: Db, e: Event)
    requires LegalEvent(d, e)
    ensures e.call.request == Decode(e.job.text)
  {}

  lemma OtherReads(s: Sys, i: nat, j: nat)
    requires LockInv(s) && i < |s.workers| && j < |s.workers| && i != j
    requires HoldsLock(s.workers[i]) && HoldsLock(s.workers[j])
    ensures s.writer == None && ReadOnly(Decode(s.workers[j].job.text))
  {
    hide Decode, IsReadCommand;
    assert i in s.readers || s.writer == Some(i);
    assert j in s.readers || s.writer == Some(j);
    ReadLockSound(s.workers[j].job.text);
  }

  lemma DbStart(n: nat, db: Db, now: int)
    ensures DbInv(Started(n, db, now))
  {}

  lemma DbStep(s: Sys, step: Step)
    requires DbInv(s) && LockInv(s) && Enabled(s, step)
    ensures DbInv(After(s, step))
  {
    hide Does, DbInv, Locked;
    match step
    case Exec(i, a, n) => if a.Inner? { DbInner(s, step); } else { DbCommit(s, step); }
    case Release(i) => DbRelease(s, i);
    case Restart(clock, n) => DbStart(|s.workers|, After(s, step).db, n);
    case _ => DbPlain(s, After(s, step));
  }

  lemma DbRelease(s: Sys, i: nat)
    requires DbInv(s) && LockInv(s) && Enabled(s, Release(i))
    ensures DbInv(After(s, Release(i)))
  {
    hide DbInv, Locked;
    DbPlain(s, After(s, Release(i)));
  }

  // ---------- durability and bounds ----------

  ghost predicate BoundedJobs(jobs: seq<Job>) {
    forall n :: 0 <= n < |jobs| ==> NulFree(jobs[n].text) && |jobs[n].text| <= 1022
  }

  ghost predicate SafeInv(s: Sys) {
    Safe(DbAfter(s.base, s.hist), s.now) && BoundedJobs(s.accepted) && BoundedThroughout(s.base, s.hist)
  }

  ghost predicate BoundedThroughout(base: Db, hist: seq<Event>) {
    forall e :: 0 <= e < |hist| ==> BoundedTable(DbAfter(base, hist[..e]).table)
  }

  lemma BoundedAppend(base: Db, hist: seq<Event>, e: Event, now: int)
    requires BoundedThroughout(base, hist) && Safe(DbAfter(base, hist), now)
    ensures BoundedThroughout(base, hist + [e])
  {
    hide DbAfter, WellFormedFile, Durable, Covered;
    var h := hist + [e];
    forall f | 0 <= f < |h| ensures BoundedTable(DbAfter(base, h[..f]).table) {
      if f < |hist| { assert h[..f] == hist[..f]; } else { assert h[..f] == hist; }
    }
  }

  lemma JobBounded(s: Sys, i: nat)
    requires JobInv(s) && BoundedJobs(s.accepted) && i < |s.workers| && !Idle(s.workers[i])
    ensures BoundedRequest(Decode(s.workers[i].job.text))
  {
    hide Decode, Effects, Replies;
    var job := s.workers[i].job;
    assert s.accepted[job.id] == s.popped[job.id] == job;
    DecodeBounded(job.text);
  }

  /** The table that the file stands for while the writer is in phase p, when d is the database before its
      command: as soon as the command is logged, the table after it. */
  function Promised(d: Db, p: Phase): Table {
    match p
    case SetLogged(job, t1) => PromisedSet(d.table, Decode(job.text), t1)
    case SetStored(job, t1) => PromisedSet(d.table, Decode(job.text), t1)
    case DelLogged(job, t1) => d.table - {KeyOf(Decode(job.text))}
    case _ => d.table
  }

  function PromisedSet(m: Table, r: Request, t1: int): Table {
    m[KeyOf(r) := Timed(ValueOfSet(r), Deadline(SecondsOf(r), t1))]
  }

  function OnDisk(s: Sys): Table {
    var d := DbAfter(s.base, s.hist);
    if s.writer.Some? && s.writer.value < |s.workers| then Promised(d, s.workers[s.writer.value]) else d.table
  }

  /** At every moment, also in the middle of a command, the file on disk is safe for the table it stands for. */
  lemma CrashSafe(s: Sys)
    requires DbInv(s) && JobInv(s) && SafeInv(s)
    ensures Safe(Db(OnDisk(s), s.db.file), s.now)
  {
    hide Decode, Print, Scan, Legal, PhaseOk, DbAfter, Safe, Fifo, Effects, Replies, Working, Deadline;
    var d := DbAfter(s.base, s.hist);
    if s.writer.Some? {
      var p := s.workers[s.writer.value];
      if Writing(p) {
        var r := Decode(p.job.text);
        JobBounded(s, s.writer.value);
        WritingRequest(d, s.hist, s.now, p);
        if p.SetLogged? || p.SetStored? { SafeSet(d, s.now, r.key, r.value, Deadline(r.seconds, p.t1)); }
        if p.DelLogged? { SafeDel(d, s.now, r.key); }
      }
    }
  }

  lemma WritingRequest(d: Db, hist: seq<Event>, now: int, p: Phase)
    requires PhaseOk(d, hist, now, p) && Writing(p)
    ensures p.SetLogged? || p.SetStored? ==> Decode(p.job.text).SetKey?
    ensures p.DelLogged? ==> Decode(p.job.text).DelKey?
  {
    hide Decode;
  }

  lemma SafeCommit(s: Sys, step: Step)
    requires DbInv(s) && LockInv(s) && JobInv(s) && SafeInv(s)
    requires step.Exec? && step.action.Commit? && Enabled(s, step)
    ensures SafeInv(After(s, step))
  {
    hide Does, Decode, Legal, DbAfter, PhaseOk, Partial, Locked, Execute, Safe, Fifo, Working, Effects, Replies, BoundedThroughout;
    var d, i, a := DbAfter(s.base, s.hist), step.i, step.action;
    var p := s.workers[i];
    DoesKeepsJob(s.db, s.now, step.now, p, a);
    var e := Event(p.job, a.call, a.reply);
    DbSeen(s, i);
    CommitMatches(d, s.hist, s.now, step.now, p, a);
    LegalAppend(s.base, s.hist, e);
    BoundedAppend(s.base, s.hist, e, s.now);
    JobBounded(s, i);
    SafeLater(d, s.now, step.now);
    ExecuteSafe(d, a.call, step.now);
  }

  lemma SafeStep(s: Sys, step: Step)
    requires DbInv(s) && LockInv(s) && JobInv(s) && SafeInv(s) && Enabled(s, step)
    ensures SafeInv(After(s, step))
  {
    hide Does, DbInv, Locked, Safe, Fifo, Working, Effects, Replies, Scan;
    var d := DbAfter(s.base, s.hist);
    match step
    case Tick(n) => SafeLater(d, s.now, n);
    case Exec(i, a, n) =>
      if a.Inner? {
        DoesKeepsJob(s.db, s.now, n, s.workers[i], a);
        SafeLater(d, s.now, n);
      } else {
        SafeCommit(s, step);
      }
    case Restart(clock, n) => SafeRestart(s, clock, n);
    case _ =>
  }

  lemma SafeRestart(s: Sys, clock: Clock, n: int)
    requires DbInv(s) && JobInv(s) && SafeInv(s) && Enabled(s, Restart(clock, n))
    ensures SafeInv(After(s, Restart(clock, n)))
  {
    hide DbInv, Scan, Replay, Safe, OnDisk, Fifo, Working, Effects, Replies;
    CrashSafe(s);
    RestartSafe(Db(OnDisk(s), s.db.file), s.now, clock, n);
  }
}
