/** The running server as a state machine: N workers, the task queue with its condition variable, the
    read-write lock, the table and the log, the clock, and restarts at any moment. Each critical section
    under the queue mutex is one step; command_execute is split into its observable sub-steps. */
module ServerModel {
  import opened Store
  import opened Text
  import opened Aof
  import opened Commands
  import opened TaskQueues

  /** A submitted command; id numbers the accepted commands of this process. */
  datatype Job = Job(id: nat, text: string)

  /** Where a worker is. From Running to Finished it holds the database lock. */
  datatype Phase =
    | Ready                                                // about to lock the queue mutex
    | Asleep                                               // in pthread_cond_wait
    | Exited
    | Holding(job: Job)                                    // popped, waiting for the database lock
    | Running(job: Job)
    | Found(job: Job, entry: Option<Timed>)                // GET, TTL, DEL: after find_entry
    | TtlChecked(job: Job, live: Timed, t1: int)           // TTL: live at t1, about to read the clock again
    | DelChecked(job: Job, t1: int)                        // DEL: live at t1, not logged yet
    | DelLogged(job: Job, t1: int)                         // DEL: logged, not removed yet
    | SetTimed(job: Job, t1: int)                          // SET: expiry computed, not logged yet
    | SetLogged(job: Job, t1: int)                         // SET: logged, not stored yet
    | SetStored(job: Job, t1: int)                         // SET: stored with expiry 0
    | Finished(job: Job, reply: string)                    // reply ready, lock still held
    | Replying(job: Job, reply: string)                    // lock released, reply not sent yet

  predicate Idle(p: Phase) {
    p.Ready? || p.Asleep? || p.Exited?
  }

  predicate HoldsLock(p: Phase) {
    !Idle(p) && !p.Holding? && !p.Replying?
  }

  /** The worker has a job whose effect is not decided yet. */
  predicate Pending(p: Phase) {
    !Idle(p) && !p.Finished? && !p.Replying?
  }

  /** A command as it took effect, in the order of effects. */
  datatype Event = Event(job: Job, call: Call, reply: string)

  datatype Sent = Sent(job: Job, reply: string)

  /** The last six fields are history: what was accepted, popped and given the lock, the table and file this
      process started from, the effects so far, and the replies sent. */
  datatype Sys = Sys(
    queue: seq<Job>, shuttingDown: bool, workers: seq<Phase>, readers: set<nat>, writer: Option<nat>,
    db: Db, now: int,
    accepted: seq<Job>, popped: seq<Job>, locks: seq<Job>, base: Db, hist: seq<Event>, sent: seq<Sent>)

  function Started(n: nat, db: Db, now: int): Sys {
    Sys([], false, seq(n, i => Ready), {}, None, db, now, [], [], [], db, [], [])
  }

  // ---------- the sub-steps of command_execute ----------

  /** One sub-step of a command: go to another phase, or decide the reply. */
  datatype Action = Inner(phase: Phase, db: Db) | Commit(call: Call, reply: string, db: Db)

  function KeyOf(r: Request): string {
    match r
    case SetKey(k, _, _) => k
    case GetKey(k) => k
    case TtlOf(k) => k
    case DelKey(k) => k
    case _ => ""
  }

  function ValueOfSet(r: Request): string {
    if r.SetKey? then r.value else ""
  }

  function SecondsOf(r: Request): nat {
    if r.SetKey? then r.seconds else 0
  }

  function FinalRecord(r: Request, t1: int): Record {
    Set(KeyOf(r), ValueOfSet(r), Deadline(SecondsOf(r), t1))
  }

  predicate Missing(entry: Option<Timed>, now: int) {
    entry == None || Expired(entry.value, now)
  }

  /** What a worker in phase p may do next; now is the clock before the sub-step and then after it. */
  ghost predicate Does(db: Db, now: int, later: int, p: Phase, a: Action) {
    if Idle(p) || p.Holding? || p.Finished? || p.Replying? then false
    else
      var r := Decode(p.job.text);
      var m := db.table;
      ((p.Running? && r.Exit?) || later == now) &&
      match p
      case Running(job) =>
        if r.Answer? then a == Commit(Call(r, now, now, true, []), r.text, db)
        else if r.SetKey? then a == Inner(SetTimed(job, now), db)
        else if r.Exit? then DoesExit(db, now, later, a)
        else a == Inner(Found(job, Get(m, KeyOf(r))), db)
      case Found(job, entry) =>
        if r.GetKey? then a == Commit(Call(r, now, now, true, []), GetReply(entry, now), db)
        else if r.TtlOf? then
          if Missing(entry, now) then a == Commit(Call(r, now, now, true, []), "-2\n", db)
          else if entry.value.expiresAt == 0 then a == Commit(Call(r, now, now, true, []), "-1\n", db)
          else a == Inner(TtlChecked(job, entry.value, now), db)
        else if Missing(entry, now) then a == Commit(Call(r, now, now, true, []), "0\n", db)
        else a == Inner(DelChecked(job, now), db)
      case TtlChecked(job, live, t1) =>
        var remaining := live.expiresAt - now;
        a == Commit(Call(r, t1, now, true, []), if remaining <= 0 then "-2\n" else DecInt(remaining) + "\n", db)
      case DelChecked(job, t1) =>
        || a == Inner(DelLogged(job, t1), db.(file := db.file + Print(Del(KeyOf(r)))))
        || a == Commit(Call(r, t1, now, false, []), "ERR failed to write AOF\n", db)
      case DelLogged(job, t1) =>
        a == Commit(Call(r, t1, now, true, []),
                    if KeyOf(r) in m then "1\n" else "ERR failed to delete key\n", db.(table := m - {KeyOf(r)}))
      case SetTimed(job, t1) =>
        || a == Inner(SetLogged(job, t1), db.(file := db.file + Print(FinalRecord(r, t1))))
        || a == Commit(Call(r, t1, now, false, []), "ERR failed to write AOF\n", db)
      case SetLogged(job, t1) =>
        a == Inner(SetStored(job, t1), db.(table := m[KeyOf(r) := Timed(ValueOfSet(r), 0)]))
      case SetStored(job, t1) =>
        if KeyOf(r) in m then
          a == Commit(Call(r, t1, now, true, []), "OK\n",
                      db.(table := m[KeyOf(r) := Timed(m[KeyOf(r)].value, Deadline(SecondsOf(r), t1))]))
        else if SecondsOf(r) > 0 then a == Commit(Call(r, t1, now, true, []), "ERR failed to set expiration\n", db)
        else a == Commit(Call(r, t1, now, true, []), "OK\n", db)
      case _ => false
  }

  /** EXIT rewrites the file, reading the clock entry by entry, or fails and leaves it alone. */
  ghost predicate DoesExit(db: Db, now: int, later: int, a: Action) {
    && a.Commit? && now <= later
    && a.call.request == Exit && a.call.t1 == now && a.call.t2 == later
    && (a.call.io ==> IsCompaction(a.call.recs, db.table, now, later))
    && a.reply == (if a.call.io then "BYE\n" else "ERR failed to rewrite AOF\n")
    && a.db == if a.call.io then db.(file := PrintAll(a.call.recs)) else db
  }

  // ---------- steps ----------

  /** Submit carries the sleeper that pthread_cond_signal wakes, if any sleeps; Wake is a spurious wake-up;
      Restart is a crash or stop at any moment followed by a load whose i-th clock reading is clock(i). */
  datatype Step =
    | Tick(now: int)
    | Submit(text: string, wakes: Option<nat>)
    | Wake(i: nat)
    | Poll(i: nat)
    | Acquire(i: nat)
    | Exec(i: nat, action: Action, now: int)
    | Release(i: nat)
    | Send(i: nat)
    | BeginShutdown
    | Restart(clock: Clock, now: int)

  ghost predicate Enabled(s: Sys, step: Step) {
    match step
    case Tick(t) => s.now <= t
    case Submit(text, wakes) =>
      // what the server frames, see Framing.CommandsFit
      && NulFree(text) && |text| <= 1022
      && (wakes.Some? ==> !s.shuttingDown && wakes.value < |s.workers| && s.workers[wakes.value].Asleep?)
      && (wakes == None ==> s.shuttingDown || forall i :: 0 <= i < |s.workers| ==> !s.workers[i].Asleep?)
    case Wake(i) => i < |s.workers| && s.workers[i].Asleep?
    case Poll(i) => i < |s.workers| && s.workers[i].Ready?
    case Acquire(i) =>
      && i < |s.workers| && s.workers[i].Holding? && s.writer == None
      && (IsReadCommand(s.workers[i].job.text) || s.readers == {})
    case Exec(i, a, t) => i < |s.workers| && Does(s.db, s.now, t, s.workers[i], a)
    case Release(i) => i < |s.workers| && s.workers[i].Finished?
    case Send(i) => i < |s.workers| && s.workers[i].Replying?
    case BeginShutdown => true
    case Restart(clock, t) =>
      Scan(s.db.file).ok && ReadsWithin(clock, |Scan(s.db.file).records|, s.now, t)
  }

  function Awoken(ws: seq<Phase>): (r: seq<Phase>)
    ensures |r| == |ws| && forall i :: 0 <= i < |ws| ==> r[i] == if ws[i].Asleep? then Ready else ws[i]
  {
    seq(|ws|, i requires 0 <= i < |ws| => if ws[i].Asleep? then Ready else ws[i])
  }

  ghost function After(s: Sys, step: Step): Sys
    requires Enabled(s, step)
  {
    match step
    case Tick(t) => s.(now := t)
    case Submit(text, wakes) =>
      if s.shuttingDown then s
      else
        var job := Job(|s.accepted|, Truncated(text));
        s.(queue := s.queue + [job], accepted := s.accepted + [job],
           workers := if wakes == None then s.workers else s.workers[wakes.value := Ready])
    case Wake(i) => s.(workers := s.workers[i := Ready])
    case Poll(i) =>
      if s.queue == [] then s.(workers := s.workers[i := if s.shuttingDown then Exited else Asleep])
      else
        s.(workers := s.workers[i := Holding(s.queue[0])], queue := s.queue[1..], popped := s.popped + [s.queue[0]])
    case Acquire(i) =>
      var job := s.workers[i].job;
      var s1 := s.(workers := s.workers[i := Running(job)], locks := s.locks + [job]);
      if IsReadCommand(job.text) then s1.(readers := s.readers + {i}) else s1.(writer := Some(i))
    case Exec(i, a, t) =>
      var job := s.workers[i].job;
      match a {
        case Inner(p, db) => s.(workers := s.workers[i := p], db := db, now := t)
        case Commit(call, reply, db) =>
          s.(workers := s.workers[i := Finished(job, reply)], db := db, now := t,
             hist := s.hist + [Event(job, call, reply)])
      }
    case Release(i) =>
      s.(workers := s.workers[i := Replying(s.workers[i].job, s.workers[i].reply)],
         readers := s.readers - {i}, writer := if s.writer == Some(i) then None else s.writer)
    case Send(i) =>
      s.(workers := s.workers[i := Ready], sent := s.sent + [Sent(s.workers[i].job, s.workers[i].reply)])
    case BeginShutdown => s.(shuttingDown := true, workers := Awoken(s.workers))
    case Restart(clock, t) =>
      Started(|s.workers|, Db(Replay(Scan(s.db.file).records, clock), s.db.file), t)
  }

  /** A run: a first state with no file and n idle workers, then any sequence of enabled steps. */
  ghost predicate Steps(s: Sys, steps: seq<Step>, t: Sys)
    decreases |steps|
  {
    if steps == [] then t == s
    else Enabled(s, steps[0]) && Steps(After(s, steps[0]), steps[1..], t)
  }

  ghost predicate Reachable(n: nat, t: Sys) {
    exists now, steps :: Steps(Started(n, Db(map[], ""), now), steps, t)
  }
}
