/** command_execute on the heap: it tokenizes and upper-cases its input in place, logs, then changes the
    table. Proved against Commands.Execute of the decoded text. */
module Engine {
  import opened Store
  import opened Text
  import opened Aof
  import opened Chains
  import opened HashTables
  import opened Persistence
  import opened Tokenizer
  import opened Commands

  /** The arguments ts stand in the buffer at argv, in order and apart from each other. */
  ghost predicate ArgumentsAt(buf: string, argv: seq<nat>, ts: seq<string>) {
    && |argv| == |ts|
    && (forall i :: 0 <= i < |ts| ==> Unread(buf, argv[i], ts[i]))
    && (forall i, j :: 0 <= i < j < |ts| ==> argv[i] + |ts[i]| < argv[j])
  }

  lemma {:induction false} Apart(argv: seq<nat>, ts: seq<string>, i: nat, j: nat)
    requires |argv| == |ts| && Disjoint(argv, ts) && i < j < |argv|
    ensures argv[i] + |ts[i]| < argv[j]
  {
    if i < j - 1 { Apart(argv, ts, i, j - 1); }
  }

  method ReadArgument(input: array<char>, at: nat, ghost token: string) returns (s: string)
    requires Unread(input[..], at, token)
    ensures s == token
  {
    s := CString(input[at..]);
    assert input[at..] == input[..][at..];
    assert input[..][at..][..|token|] == token;
    CStringUntil(input[at..], |token|);
  }

  /** Upper-case argument x where it stands. */
  method UpperArgument(input: array<char>, argv: seq<nat>, x: nat, ghost ts: seq<string>)
    requires ArgumentsAt(input[..], argv, ts) && x < |argv|
    modifies input
    ensures ArgumentsAt(input[..], argv, ts[x := Upper(ts[x])])
  {
    ghost var before, token := input[..], ts[x];
    var at, p := argv[x], argv[x];
    while input[p] != NUL
      invariant at <= p <= at + |token|
      invariant forall j :: 0 <= j < |before| ==> input[j] == if at <= j < p then ToUpper(before[j]) else before[j]
      decreases at + |token| - p
    {
      CharAtOrEnd(before, at, token, p - at);
      input[p] := ToUpper(input[p]);
      p := p + 1;
    }
    CharAtOrEnd(before, at, token, p - at);
    UpperKeeps(before, input[..], argv, ts, x);
  }

  lemma CharAtOrEnd(buf: string, at: nat, token: string, n: nat)
    requires Unread(buf, at, token) && n <= |token|
    ensures n < |token| ==> buf[at + n] == token[n] && token[n] != NUL
    ensures n == |token| ==> buf[at + n] == NUL
  {}

  lemma UpperKeeps(before: string, after: string, argv: seq<nat>, ts: seq<string>, x: nat)
    requires ArgumentsAt(before, argv, ts) && x < |ts| && |after| == |before|
    requires forall j :: 0 <= j < |before| ==>
               after[j] == if argv[x] <= j < argv[x] + |ts[x]| then ToUpper(before[j]) else before[j]
    ensures ArgumentsAt(after, argv, ts[x := Upper(ts[x])])
  {
    hide Upper;
  }

  /** table and file are what Execute makes of the state before, and it gives this reply and code. */
  ghost predicate Ran(table: HashTable, file: LogFile, before: Db, c: Call, reply: string, code: int)
    reads table, file
  {
    var o := Execute(before, c);
    table.view == o.db.table && file.Content() == o.db.file && reply == o.reply && code == o.code
  }

  ghost function DbOf(table: HashTable, file: LogFile): Db
    reads table, file
  {
    Db(table.view, file.Content())
  }

  /** The SET branch: log the final entry, store it without expiry, then write the expiry. */
  method ExecuteSet(table: HashTable, file: LogFile, key: string, value: string, seconds: nat,
                    now: int, io: bool, canResize: bool)
    returns (reply: string, code: int)
    requires table.Valid()
    modifies table, table.buckets, table.nodes, file
    ensures table.Valid()
    ensures (table.buckets == old(table.buckets) || fresh(table.buckets)) && fresh(table.nodes - old(table.nodes))
    ensures forall t2, recs :: Ran(table, file, old(DbOf(table, file)), Call(SetKey(key, value, seconds), now, t2, io, recs), reply, code)
    ensures code == if io then 0 else -1
    ensures io ==> Get(table.view, key) == Some(Timed(value, if seconds == 0 then 0 else now + seconds))
  {
    hide Structure, Represents, Total, Insert, Put, Print;
    var expiresAt := if seconds > 0 then now + seconds else 0;
    var persisted := file.AppendSetExpiry(key, value, expiresAt, io);
    if !persisted { return "ERR failed to write AOF\n", -1; }
    table.SetWithExpiry(key, value, 0, canResize);
    var found := table.ChangeExpiry(key, expiresAt);
    if !found && seconds > 0 { return "ERR failed to set expiration\n", -1; }
    return "OK\n", 0;
  }

  /** The GET branch. */
  method ExecuteGet(table: HashTable, key: string, now: int) returns (reply: string)
    requires table.Valid()
    ensures reply == GetReply(Get(table.view, key), now)
  {
    hide Structure, Represents, Total, DecInt, Fit;
    var entry, i, j := table.FindEntry(key);
    if entry == null { return "(nil)\n"; }
    if Expired(Timed(entry.value, entry.expiresAt), now) { return "(nil)\n"; }
    return Fit(entry.value + "\n");
  }

  /** The TTL branch, with its two readings of the clock. */
  method ExecuteTtl(table: HashTable, key: string, t1: int, t2: int) returns (reply: string)
    requires table.Valid()
    ensures reply == TtlReply(Get(table.view, key), t1, t2)
  {
    hide Structure, Represents, Total, DecInt, Fit;
    var entry, i, j := table.FindEntry(key);
    if entry == null { return "-2\n"; }
    if Expired(Timed(entry.value, entry.expiresAt), t1) { return "-2\n"; }
    if entry.expiresAt == 0 { return "-1\n"; }
    var remaining := entry.expiresAt - t2;
    if remaining <= 0 { return "-2\n"; }
    return DecInt(remaining) + "\n";
  }

  /** The DEL branch: an expired key is not there; a live one is logged, then removed. */
  method ExecuteDel(table: HashTable, file: LogFile, key: string, now: int, io: bool)
    returns (reply: string, code: int)
    requires table.Valid()
    modifies table, table.buckets, table.nodes, file
    ensures table.Valid() && table.buckets == old(table.buckets) && table.nodes == old(table.nodes)
    ensures forall t2, recs :: Ran(table, file, old(DbOf(table, file)), Call(DelKey(key), now, t2, io, recs), reply, code)
  {
    hide Structure, Represents, Total, Remove, Print;
    var entry, i, j := table.FindEntry(key);
    if entry == null || Expired(Timed(entry.value, entry.expiresAt), now) { return "0\n", 0; }
    var persisted := file.AppendDel(key, io);
    if !persisted { return "ERR failed to write AOF\n", -1; }
    var found := table.Delete(key);
    if !found { return "ERR failed to delete key\n", -1; }
    return "1\n", 0;
  }

  lemma UpperTwice(s: string)
    ensures Upper(Upper(s)) == Upper(s)
  {}

  /** Decoding looks at the name, and at EX, in upper case only. */
  lemma DecodeUpper(ts: seq<string>)
    requires ts != []
    ensures DecodeTokens(ts[0 := Upper(ts[0])]) == DecodeTokens(ts)
  {
    hide Upper, ExpirySeconds;
    UpperTwice(ts[0]);
  }

  /** The part of the SET branch before anything is written: check the arguments. */
  method CheckSet(input: array<char>, argv: seq<nat>, ghost ts: seq<string>) returns (request: Request)
    requires ArgumentsAt(input[..], argv, ts) && ts != []
    modifies input
    ensures request == DecodeSet(ts)
  {
    hide ArgumentsAt, Upper;
    ArgumentsFacts(input[..], argv, ts);
    if |argv| != 3 && |argv| != 5 { return WRONG_ARGUMENTS; }
    var seconds := 0;
    ghost var us := ts;
    if |argv| == 5 {
      UpperArgument(input, argv, 3, ts);
      us := ts[3 := Upper(ts[3])];
      ArgumentsFacts(input[..], argv, us);
      var option := ReadArgument(input, argv[3], us[3]);
      if option != "EX" { return Answer("ERR syntax error\n", -1); }
      var text := ReadArgument(input, argv[4], us[4]);
      var parsed := ExpirySeconds(text);
      if parsed == None { return Answer("ERR invalid expire time\n", -1); }
      seconds := parsed.value;
    }
    var key := ReadArgument(input, argv[1], us[1]);
    var value := ReadArgument(input, argv[2], us[2]);
    return SetKey(key, value, seconds);
  }

  lemma ArgumentsFacts(buf: string, argv: seq<nat>, ts: seq<string>)
    requires ArgumentsAt(buf, argv, ts)
    ensures |argv| == |ts| && forall i :: 0 <= i < |ts| ==> Unread(buf, argv[i], ts[i])
  {}

  /** What command_execute decodes from its input while tokenizing and upper-casing it in place. */
  method DecodeInPlace(input: array<char>) returns (request: Request)
    requires |CString(input[..])| < input.Length
    modifies input
    ensures request == Decode(CString(old(input[..])))
  {
    hide ArgumentsAt, Tokens, CString, Upper, DecodeSet;
    ghost var r := Tokens(CString(input[..]), MAX_ARGS);
    var argc, argv := ParseCommand(input, MAX_ARGS);
    if argc == -1 { return Answer("ERR invalid command\n", -1); }
    if argc == 0 { return Answer("", 0); }
    ghost var ts := r.value;
    InPlace(input[..], argv, ts);
    UpperArgument(input, argv, 0, ts);
    ghost var us := ts[0 := Upper(ts[0])];
    DecodeUpper(ts);
    UpperTwice(ts[0]);
    ArgumentsFacts(input[..], argv, us);
    var name := ReadArgument(input, argv[0], us[0]);
    if name == "SET" {
      request := CheckSet(input, argv, us);
    } else if name == "GET" || name == "TTL" || name == "DEL" {
      if argc != 2 { return WRONG_ARGUMENTS; }
      var key := ReadArgument(input, argv[1], us[1]);
      return if name == "GET" then GetKey(key) else if name == "TTL" then TtlOf(key) else DelKey(key);
    } else if name == "PING" || name == "EXIT" {
      if argc != 1 { return WRONG_ARGUMENTS; }
      return if name == "PING" then Answer("PONG\n", 0) else Exit;
    } else {
      return Answer("ERR unknown command\n", -1);
    }
  }

  lemma InPlace(buf: string, argv: seq<nat>, ts: seq<string>)
    requires |argv| == |ts| && Disjoint(argv, ts)
    requires forall i :: 0 <= i < |ts| ==> Unread(buf, argv[i], ts[i])
    ensures ArgumentsAt(buf, argv, ts)
  {
    forall i, j | 0 <= i < j < |ts| ensures argv[i] + |ts[i]| < argv[j] {
      Apart(argv, ts, i, j);
    }
  }

  /** command_execute. t1 and t2 are the clock readings of SET, GET, TTL and DEL, clock those of an EXIT;
      io says whether the file operation succeeds. */
  method CommandExecute(table: HashTable, file: LogFile, input: array<char>,
                        t1: int, t2: int, clock: Clock, io: bool, canResize: bool)
    returns (reply: string, code: int)
    requires table.Valid() && |CString(input[..])| < input.Length && Monotone(clock)
    modifies table, table.buckets, table.nodes, file, input
    ensures table.Valid()
    ensures (table.buckets == old(table.buckets) || fresh(table.buckets)) && fresh(table.nodes - old(table.nodes))
    ensures var recs := LiveRecords(Flatten(old(table.cells)), clock);
            && IsCompaction(recs, old(table.view), clock(0), clock(old(table.count)))
            && Ran(table, file, old(DbOf(table, file)),
                   Call(Decode(CString(old(input[..]))), t1, t2, io, recs), reply, code)
    ensures code == 1 <==> Decode(CString(old(input[..]))) == Exit && io
    ensures code == 1 ==>
              && reply == "BYE\n" && table.view == old(table.view)
              && file.Content() == PrintAll(LiveRecords(Flatten(old(table.cells)), clock))
  {
    hide Structure, Represents, Total, Decode, CString, Print, PrintAll, LiveRecords, Flatten, IsCompaction;
    ExitCompacts(table, clock);
    var request := DecodeInPlace(input);
    match request
    case Answer(text, c) =>
      AnswerCode(CString(old(input[..])));
      return text, c;
    case SetKey(key, value, seconds) =>
      reply, code := ExecuteSet(table, file, key, value, seconds, t1, io, canResize);
    case GetKey(key) =>
      reply := ExecuteGet(table, key, t1);
      code := 0;
    case TtlOf(key) =>
      reply := ExecuteTtl(table, key, t1, t2);
      code := 0;
    case DelKey(key) => reply, code := ExecuteDel(table, file, key, t1, io);
    case Exit =>
      var ok := Rewrite(table, file, clock, io);
      return if ok then "BYE\n" else "ERR failed to rewrite AOF\n", if ok then 1 else -1;
  }

  lemma AnswerCode(s: string)
    requires Decode(s).Answer?
    ensures Decode(s).code == 0 || Decode(s).code == -1
  {
    hide Tokens, Upper, ExpirySeconds;
  }

  lemma ExitCompacts(table: HashTable, clock: Clock)
    requires table.Valid() && Monotone(clock)
    ensures IsCompaction(LiveRecords(Flatten(table.cells), clock), table.view, clock(0), clock(table.count))
  {
    hide Represents, Structure, Flatten, LiveRecords, Total, IsCompaction;
    RewriteCompacts(table.cells, table.view, clock);
  }
}
