/** What each command line means: decoding, the effect of one command on the table and the log, the
    read-lock classifier, and the reference that drops every key at the instant it expires. */
module Commands {
  import opened Store
  import opened Text
  import opened Aof
  import opened Tokenizer

  const MAX_ARGS: nat := 5
  const RESPONSE_SIZE: nat := 1024

  // ---------- decoding ----------

  /** A decoded command line. Answer is a fixed reply with its return code and no effect; seconds is 0 for
      a SET without EX. */
  datatype Request =
    | Answer(text: string, code: int)
    | SetKey(key: string, value: string, seconds: nat)
    | GetKey(key: string)
    | TtlOf(key: string)
    | DelKey(key: string)
    | Exit

  const WRONG_ARGUMENTS: Request := Answer("ERR wrong number of arguments\n", -1)

  /** strtoll on the whole argument; None unless it is a positive number and nothing else. */
  function ExpirySeconds(s: string): (r: Option<nat>)
    ensures r.Some? ==> r.value > 0
  {
    match ScanInt(s)
    case None => None
    case Some((n, rest)) => if rest == [] && n > 0 then Some(n) else None
  }

  function DecodeSet(ts: seq<string>): Request
    requires |ts| > 0
  {
    if |ts| != 3 && |ts| != 5 then WRONG_ARGUMENTS
    else if |ts| == 3 then SetKey(ts[1], ts[2], 0)
    else if Upper(ts[3]) != "EX" then Answer("ERR syntax error\n", -1)
    else
      match ExpirySeconds(ts[4])
      case None => Answer("ERR invalid expire time\n", -1)
      case Some(n) => SetKey(ts[1], ts[2], n)
  }

  function DecodeTokens(ts: seq<string>): Request {
    if ts == [] then Answer("", 0)
    else
      var name := Upper(ts[0]);
      if name == "SET" then DecodeSet(ts)
      else if name == "GET" then if |ts| == 2 then GetKey(ts[1]) else WRONG_ARGUMENTS
      else if name == "TTL" then if |ts| == 2 then TtlOf(ts[1]) else WRONG_ARGUMENTS
      else if name == "DEL" then if |ts| == 2 then DelKey(ts[1]) else WRONG_ARGUMENTS
      else if name == "PING" then if |ts| == 1 then Answer("PONG\n", 0) else WRONG_ARGUMENTS
      else if name == "EXIT" then if |ts| == 1 then Exit else WRONG_ARGUMENTS
      else Answer("ERR unknown command\n", -1)
  }

  function Decode(s: string): Request {
    match Tokens(s, MAX_ARGS)
    case None => Answer("ERR invalid command\n", -1)
    case Some(ts) => DecodeTokens(ts)
  }

  ghost predicate QuoteFree(s: string) {
    forall j :: 0 <= j < |s| ==> s[j] != QUOTE
  }

  lemma DecodeQuoted(args: seq<string>)
    requires |args| <= MAX_ARGS && forall i :: 0 <= i < |args| ==> QuoteFree(args[i])
    ensures Decode(Quoted(args)) == DecodeTokens(args)
  {
    hide Tokens, DecodeTokens;
    assert forall i, j :: 0 <= i < |args| && 0 <= j < |args[i]| ==> args[i][j] != QUOTE by {
      forall i, j | 0 <= i < |args| && 0 <= j < |args[i]| ensures args[i][j] != QUOTE { assert QuoteFree(args[i]); }
    }
    QuotedRoundTrip(args, MAX_ARGS);
  }

  lemma ExpiryPrinted(n: nat)
    requires n > 0
    ensures ExpirySeconds(Dec(n)) == Some(n) && QuoteFree(Dec(n))
  {
    hide Dec;
    ScanPrinted([], n, []);
    assert [] + (DecInt(n) + []) == Dec(n);
  }

  /** A client can send every quote-free key and value, in any case of the command name: quoting each argument
      decodes to exactly the command meant. */
  lemma QuotedCommands(set_: string, get: string, ex: string, k: string, v: string, n: nat)
    requires QuoteFree(set_) && QuoteFree(get) && QuoteFree(ex) && QuoteFree(k) && QuoteFree(v) && n > 0
    requires Upper(set_) == "SET" && Upper(get) == "GET" && Upper(ex) == "EX"
    ensures Decode(Quoted([set_, k, v])) == SetKey(k, v, 0)
    ensures Decode(Quoted([set_, k, v, ex, Dec(n)])) == SetKey(k, v, n)
    ensures Decode(Quoted([get, k])) == GetKey(k)
  {
    hide Decode, Quoted, Dec, ExpirySeconds, Upper;
    ExpiryPrinted(n);
    DecodeQuoted([set_, k, v]);
    DecodeQuoted([set_, k, v, ex, Dec(n)]);
    DecodeQuoted([get, k]);
  }

  // ---------- executing ----------

  /** The table and the bytes of the append-only file. */
  datatype Db = Db(table: Table, file: string)

  datatype Outcome = Outcome(db: Db, reply: string, code: int)

  /** snprintf keeps at most size - 1 characters. */
  function Fit(s: string): string {
    if |s| < RESPONSE_SIZE then s else s[..RESPONSE_SIZE - 1]
  }

  /** A command as it ran: its request, the (at most two) clock readings it used, whether its file
      operation succeeded, and the records that an EXIT wrote. */
  datatype Call = Call(request: Request, t1: int, t2: int, io: bool, recs: seq<Record>)

  function Deadline(seconds: nat, now: int): int {
    if seconds > 0 then now + seconds else 0
  }

  function TtlReply(entry: Option<Timed>, t1: int, t2: int): string {
    if entry == None || Expired(entry.value, t1) then "-2\n"
    else if entry.value.expiresAt == 0 then "-1\n"
    else if entry.value.expiresAt - t2 <= 0 then "-2\n"
    else DecInt(entry.value.expiresAt - t2) + "\n"
  }

  function GetReply(entry: Option<Timed>, now: int): string {
    if entry == None || Expired(entry.value, now) then "(nil)\n" else Fit(entry.value.value + "\n")
  }

  function Execute(db: Db, c: Call): Outcome {
    match c.request
    case Answer(text, code) => Outcome(db, text, code)
    case SetKey(k, v, s) =>
      var e := Deadline(s, c.t1);
      if c.io then Outcome(Db(db.table[k := Timed(v, e)], db.file + Print(Set(k, v, e))), "OK\n", 0)
      else Outcome(db, "ERR failed to write AOF\n", -1)
    case GetKey(k) => Outcome(db, GetReply(Get(db.table, k), c.t1), 0)
    case TtlOf(k) => Outcome(db, TtlReply(Get(db.table, k), c.t1, c.t2), 0)
    case DelKey(k) =>
      if k !in db.table || Expired(db.table[k], c.t1) then Outcome(db, "0\n", 0)
      else if c.io then Outcome(Db(db.table - {k}, db.file + Print(Del(k))), "1\n", 0)
      else Outcome(db, "ERR failed to write AOF\n", -1)
    case Exit =>
      if c.io then Outcome(Db(db.table, PrintAll(c.recs)), "BYE\n", 1)
      else Outcome(db, "ERR failed to rewrite AOF\n", -1)
  }

  /** What the environment guarantees of a call on db: readings in order, and that an EXIT which succeeded
      wrote a compaction of the table made between them. */
  ghost predicate Possible(db: Db, c: Call) {
    c.t1 <= c.t2 && (c.request.Exit? && c.io ==> IsCompaction(c.recs, db.table, c.t1, c.t2))
  }

  // ---------- the read lock ----------

  function ToLower(c: char): char {
    if 'A' <= c <= 'Z' then (c as int + 32) as char else c
  }

  /** strncasecmp(s, word, 3) == 0 for a lower-case word of three letters. */
  predicate StartsWith(s: string, word: string)
    requires |word| == 3
  {
    |s| >= 3 && forall i :: 0 <= i < 3 ==> ToLower(s[i]) == word[i]
  }

  /** is_read_command: decided from the raw text, before any parsing. */
  predicate IsReadCommand(s: string) {
    var t := SkipSpace(s);
    if StartsWith(t, "get") then |t| == 3 || IsSpace(t[3])
    else StartsWith(t, "ttl") && (|t| == 3 || IsSpace(t[3]))
  }

  predicate ReadOnly(r: Request) {
    r.GetKey? || r.TtlOf? || r.Answer?
  }

  lemma UpperName(t: string, lower: string, upper: string)
    requires |t| == 3 && |lower| == 3 && |upper| == 3
    requires forall i :: 0 <= i < 3 ==> ToLower(t[i]) == lower[i]
    requires forall i :: 0 <= i < 3 ==> 'a' <= lower[i] <= 'z' && upper[i] == ToUpper(lower[i])
    ensures Upper(t) == upper
  {}

  lemma ShortWord(t: string)
    requires |t| >= 3 && forall i :: 0 <= i < 3 ==> !IsSpace(t[i])
    requires |t| == 3 || IsSpace(t[3])
    ensures WordLength(t, |t|) == 3
  {}

  /** The read lock is sound for every text: what it lets through never changes the table or the log. */
  lemma ReadLockSound(s: string)
    requires IsReadCommand(s)
    ensures ReadOnly(Decode(s))
  {
    var t := SkipSpace(s);
    ShortWord(t);
    var word := t[..3];
    assert FirstToken(t) == Some((word, if |t| > 3 then t[4..] else [])) by { assert |t| == 3 ==> t[..3] == t; }
    if StartsWith(t, "get") { UpperName(word, "get", "GET"); } else { UpperName(word, "ttl", "TTL"); }
    FirstName(s, word);
  }

  lemma FirstName(s: string, word: string)
    requires SkipSpace(s) != [] && FirstToken(SkipSpace(s)).Some? && FirstToken(SkipSpace(s)).value.0 == word
    requires Upper(word) == "GET" || Upper(word) == "TTL"
    ensures ReadOnly(Decode(s))
  {
    hide FirstToken, SkipSpace;
  }

  lemma ReadOnlyKeeps(db: Db, c: Call)
    requires ReadOnly(c.request)
    ensures Execute(db, c).db == db
  {}

  // ---------- durability of one command ----------

  ghost predicate WellFormedFile(file: string) {
    Scan(file).ok && CleanLog(Scan(file).records) && file == PrintAll(Scan(file).records)
  }

  lemma PrintedIsWellFormed(log: seq<Record>)
    requires CleanLog(log)
    ensures WellFormedFile(PrintAll(log)) && Scan(PrintAll(log)).records == log
  {
    RoundTrip(log);
  }

  lemma AppendedIsWellFormed(file: string, r: Record)
    requires WellFormedFile(file) && Clean(r)
    ensures WellFormedFile(file + Print(r)) && Scan(file + Print(r)).records == Scan(file).records + [r]
  {
    hide Scan, Print, PrintAll;
    PrintAllAppend(Scan(file).records, r);
    PrintedIsWellFormed(Scan(file).records + [r]);
  }

  /** Every stored string came from a command line of at most limit characters. */
  const VALUE_LIMIT: nat := 1016

  ghost predicate Bounded(v: string) {
    NulFree(v) && |v| <= VALUE_LIMIT
  }

  ghost predicate BoundedTable(m: Table) {
    forall k :: k in m ==> NulFree(k) && Bounded(m[k].value)
  }

  ghost predicate BoundedLog(log: seq<Record>) {
    forall i :: 0 <= i < |log| ==> NulFree(log[i].key) && (log[i].Set? ==> Bounded(log[i].value))
  }

  ghost predicate BoundedRequest(r: Request) {
    match r
    case SetKey(k, v, _) => NulFree(k) && Bounded(v)
    case DelKey(k) => NulFree(k)
    case _ => true
  }

  /** The file can be loaded, whatever is live in the table is rooted in it, whatever is not in the table has
      nothing left in it, and stored strings are bounded. */
  ghost predicate Safe(db: Db, now: int) {
    && WellFormedFile(db.file)
    && Durable(db.table, Scan(db.file).records, now) && Covered(db.table, Scan(db.file).records, now)
    && BoundedTable(db.table) && BoundedLog(Scan(db.file).records)
  }

  lemma SafeLater(db: Db, now: int, later: int)
    requires Safe(db, now) && now <= later
    ensures Safe(db, later)
  {
    DurableLater(db.table, Scan(db.file).records, now, later);
    CoveredLater(db.table, Scan(db.file).records, now, later);
  }

  lemma SafeSet(db: Db, now: int, k: string, v: string, e: int)
    requires Safe(db, now) && NulFree(k) && Bounded(v)
    ensures Safe(Db(db.table[k := Timed(v, e)], db.file + Print(Set(k, v, e))), now)
  {
    hide Scan, Print, PrintAll, Durable, Covered;
    AppendedIsWellFormed(db.file, Set(k, v, e));
    DurableSet(db.table, Scan(db.file).records, now, k, v, e);
    CoveredAppend(db.table, Scan(db.file).records, now, Set(k, v, e), db.table[k := Timed(v, e)]);
  }

  lemma SafeDel(db: Db, now: int, k: string)
    requires Safe(db, now) && NulFree(k)
    ensures Safe(Db(db.table - {k}, db.file + Print(Del(k))), now)
  {
    hide Scan, Print, PrintAll, Durable, Covered;
    AppendedIsWellFormed(db.file, Del(k));
    DurableDel(db.table, Scan(db.file).records, now, k);
    CoveredAppend(db.table, Scan(db.file).records, now, Del(k), db.table - {k});
  }

  lemma SafeExit(db: Db, recs: seq<Record>, lo: int, hi: int)
    requires BoundedTable(db.table) && IsCompaction(recs, db.table, lo, hi)
    ensures Safe(Db(db.table, PrintAll(recs)), hi)
  {
    hide Scan, Print, PrintAll, Durable, Covered;
    CompactionIsDurable(recs, db.table, lo, hi);
    CompactionCovers(recs, db.table, lo, hi);
    forall i | 0 <= i < |recs| ensures NulFree(recs[i].key) && Bounded(recs[i].value) {
      assert Lists(recs[i], db.table, lo);
    }
    PrintedIsWellFormed(recs);
  }

  /** Every command keeps the durability invariant. */
  lemma ExecuteSafe(db: Db, c: Call, now: int)
    requires Safe(db, now) && Possible(db, c) && BoundedRequest(c.request)
    requires c.request.Exit? ==> c.t2 <= now
    ensures Safe(Execute(db, c).db, now)
  {
    hide Safe, Print, PrintAll, GetReply, TtlReply;
    match c.request
    case SetKey(k, v, s) => SafeSet(db, now, k, v, Deadline(s, c.t1));
    case DelKey(k) => SafeDel(db, now, k);
    case Exit =>
      if c.io {
        SafeTable(db, now);
        SafeExit(db, c.recs, c.t1, c.t2);
        SafeLater(Execute(db, c).db, c.t2, now);
      }
    case _ =>
  }

  lemma SafeTable(db: Db, now: int)
    requires Safe(db, now)
    ensures BoundedTable(db.table)
  {}

  /** A restart at any later time rebuilds every entry still live, and is safe again. */
  lemma RestartSafe(db: Db, now: int, clock: Clock, end: int)
    requires Safe(db, now) && ReadsWithin(clock, |Scan(db.file).records|, now, end)
    ensures Scan(db.file).ok
    ensures var m := Replay(Scan(db.file).records, clock);
            && Safe(Db(m, db.file), end)
            && forall k :: k in Live(db.table, end) ==> Get(m, k) == Some(db.table[k])
  {
    hide Scan, Replay, Durable, Covered;
    var log := Scan(db.file).records;
    DurableLoad(db.table, log, now, clock, end);
    LoadIsDurable(log, clock, now, end);
    LoadCovers(log, clock, now, end);
    ReplayBounded(log, clock);
  }

  lemma {:induction false} ReplayBounded(log: seq<Record>, clock: Clock)
    requires BoundedLog(log)
    ensures BoundedTable(Replay(log, clock))
  {
    if log != [] { ReplayBounded(log[..|log| - 1], clock); }
  }

  /** A command line of at most 1022 characters never stores more than 1016. */
  lemma DecodeBounded(s: string)
    requires NulFree(s) && |s| <= 1022
    ensures BoundedRequest(Decode(s))
  {
    hide Tokens, ExpirySeconds;
    TokensNulFree(s, MAX_ARGS);
    var r := Tokens(s, MAX_ARGS);
    if r.Some? && |r.value| >= 3 { ThirdTokenFits(s, MAX_ARGS); }
  }

  /** A reply to GET is never cut short. */
  lemma GetReplyWhole(m: Table, k: string, now: int)
    requires BoundedTable(m)
    ensures GetReply(Get(m, k), now) == if k in Live(m, now) then m[k].value + "\n" else "(nil)\n"
  {}

  // ---------- the reference ----------

  /** The reference store: no key outlives its expiry. */
  function RefExecute(r: Table, c: Call, now: int): (Table, string) {
    var m := Live(r, now);
    match c.request
    case Answer(text, _) => (m, text)
    case SetKey(k, v, s) =>
      if c.io then (m[k := Timed(v, Deadline(s, now))], "OK\n") else (m, "ERR failed to write AOF\n")
    case GetKey(k) => (m, if k in m then Fit(m[k].value + "\n") else "(nil)\n")
    case TtlOf(k) =>
      (m, if k !in m then "-2\n" else if m[k].expiresAt == 0 then "-1\n" else DecInt(m[k].expiresAt - now) + "\n")
    case DelKey(k) =>
      if k !in m then (m, "0\n") else if c.io then (m - {k}, "1\n") else (m, "ERR failed to write AOF\n")
    case Exit => (m, if c.io then "BYE\n" else "ERR failed to rewrite AOF\n")
  }

  /** The instant at which a call takes effect: TTL's second reading, every other command's first. */
  function Instant(c: Call): int {
    if c.request.TtlOf? then c.t2 else c.t1
  }

  lemma LiveLive(m: Table, t: int, u: int)
    requires t <= u
    ensures Live(Live(m, t), u) == Live(m, u)
  {}

  /** Lazy expiry cannot be observed: one command on a table that still holds expired entries gives the reply,
      and leaves the live entries, of the reference that dropped them when they expired. */
  lemma Unobservable(db: Db, c: Call, since: int)
    requires Possible(db, c) && since <= Instant(c)
    ensures var o, now := Execute(db, c), Instant(c);
            RefExecute(Live(db.table, since), c, now) == (Live(o.db.table, now), o.reply)
  {
    hide Print, PrintAll, DecInt, Fit, IsCompaction;
    var now := Instant(c);
    LiveLive(db.table, since, now);
    match c.request
    case SetKey(k, v, s) =>
      assert Live(db.table[k := Timed(v, Deadline(s, now))], now) == Live(db.table, now)[k := Timed(v, Deadline(s, now))];
    case DelKey(k) =>
      assert Live(db.table - {k}, now) == Live(db.table, now) - {k};
    case _ =>
  }
}
