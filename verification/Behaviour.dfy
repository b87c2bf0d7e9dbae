/** What a client can send and what it gets, written out command by command: the forms of a command line,
    the replies, and the effects on the stored keys and on the file. */
module Behaviour {
  import opened Store
  import opened Text
  import opened Aof
  import opened Tokenizer
  import opened Commands

  // ---------- names ----------

  /** s is the word, each letter in either case. */
  ghost predicate Spells(s: string, upper: string, lower: string) {
    |s| == |upper| == |lower| && forall i :: 0 <= i < |s| ==> s[i] == upper[i] || s[i] == lower[i]
  }

  lemma UpperSpells(s: string, upper: string, lower: string)
    requires |lower| == |upper|
    requires forall i :: 0 <= i < |upper| ==> 'A' <= upper[i] <= 'Z' && lower[i] as int == upper[i] as int + 32
    ensures Upper(s) == upper <==> Spells(s, upper, lower)
  {
    if Upper(s) == upper {
      forall i | 0 <= i < |s| ensures s[i] == upper[i] || s[i] == lower[i] {
        assert Upper(s)[i] == ToUpper(s[i]);
      }
    }
  }

  lemma Names(s: string)
    ensures Upper(s) == "SET" <==> Spells(s, "SET", "set")
    ensures Upper(s) == "GET" <==> Spells(s, "GET", "get")
    ensures Upper(s) == "TTL" <==> Spells(s, "TTL", "ttl")
    ensures Upper(s) == "DEL" <==> Spells(s, "DEL", "del")
    ensures Upper(s) == "PING" <==> Spells(s, "PING", "ping")
    ensures Upper(s) == "EXIT" <==> Spells(s, "EXIT", "exit")
    ensures Upper(s) == "EX" <==> Spells(s, "EX", "ex")
  {
    hide Upper, Spells;
    UpperSpells(s, "SET", "set");
    UpperSpells(s, "GET", "get");
    UpperSpells(s, "TTL", "ttl");
    UpperSpells(s, "DEL", "del");
    UpperSpells(s, "PING", "ping");
    UpperSpells(s, "EXIT", "exit");
    UpperSpells(s, "EX", "ex");
  }

  // ---------- the forms of a command line ----------

  ghost predicate AllQuoteFree(args: seq<string>) {
    forall i :: 0 <= i < |args| ==> QuoteFree(args[i])
  }

  /** GET, TTL and DEL take a key; PING and EXIT take nothing; any other word is unknown. */
  lemma CommandForms(name: string, args: seq<string>)
    requires QuoteFree(name) && AllQuoteFree(args) && |args| <= 4
    ensures var r, wrong := Decode(Quoted([name] + args)), Answer("ERR wrong number of arguments\n", -1);
            && (Spells(name, "GET", "get") ==> r == if |args| == 1 then GetKey(args[0]) else wrong)
            && (Spells(name, "TTL", "ttl") ==> r == if |args| == 1 then TtlOf(args[0]) else wrong)
            && (Spells(name, "DEL", "del") ==> r == if |args| == 1 then DelKey(args[0]) else wrong)
            && (Spells(name, "PING", "ping") ==> r == if |args| == 0 then Answer("PONG\n", 0) else wrong)
            && (Spells(name, "EXIT", "exit") ==> r == if |args| == 0 then Exit else wrong)
            && (!Spells(name, "SET", "set") && !Spells(name, "GET", "get") && !Spells(name, "TTL", "ttl")
                && !Spells(name, "DEL", "del") && !Spells(name, "PING", "ping") && !Spells(name, "EXIT", "exit")
                ==> r == Answer("ERR unknown command\n", -1))
  {
    hide Decode, Quoted, Upper, Spells, QuoteFree;
    Names(name);
    DecodeQuoted([name] + args);
  }

  /** SET takes a key and a value, and then perhaps EX and a positive number and nothing else. */
  lemma SetForms(name: string, args: seq<string>)
    requires QuoteFree(name) && Spells(name, "SET", "set") && AllQuoteFree(args) && |args| <= 4
    ensures var r := Decode(Quoted([name] + args));
            && (|args| != 2 && |args| != 4 ==> r == Answer("ERR wrong number of arguments\n", -1))
            && (|args| == 2 ==> r == SetKey(args[0], args[1], 0))
            && (|args| == 4 && !Spells(args[2], "EX", "ex") ==> r == Answer("ERR syntax error\n", -1))
            && (|args| == 4 && Spells(args[2], "EX", "ex") ==>
                  && (forall n: nat :: n > 0 && Numeral(args[3], n) ==> r == SetKey(args[0], args[1], n))
                  && ((forall n: nat :: n > 0 ==> !Numeral(args[3], n)) ==> r == Answer("ERR invalid expire time\n", -1)))
  {
    hide Decode, Quoted, Upper, Spells, QuoteFree, Numeral, ExpirySeconds;
    Names(name);
    var ts := [name] + args;
    DecodeQuoted(ts);
    if |args| == 4 {
      Names(ts[3]);
      ExpiryIsNumeral(args[3]);
    }
  }

  lemma ExpiryIsNumeral(s: string)
    ensures forall n: nat :: n > 0 ==> (Numeral(s, n) <==> ExpirySeconds(s) == Some(n))
  {
    hide Numeral, ScanInt;
    forall n: nat { ScanWhole(s, n); }
  }

  /** A line of white space is answered with nothing; one with too many arguments or a quote that is not
      closed is invalid. */
  lemma InvalidForms(blank: string, args: seq<string>, last: string)
    requires Gap(blank) && AllQuoteFree(args) && QuoteFree(last)
    ensures Decode(blank) == Answer("", 0)
    ensures |args| > 5 ==> Decode(Quoted(args)) == Answer("ERR invalid command\n", -1)
    ensures Decode(Unclosed(args, last)) == Answer("ERR invalid command\n", -1)
  {
    hide Tokens, Quoted, Unclosed;
    GapIsSpace(blank);
    SkipAll(blank);
    TokensNext([], MAX_ARGS);
    TokensSkip(blank, MAX_ARGS);
    forall i, j | 0 <= i < |args| && 0 <= j < |args[i]| ensures args[i][j] != QUOTE { assert QuoteFree(args[i]); }
    if |args| > 5 { QuotedTooMany(args, MAX_ARGS); }
    UnclosedQuote(args, last, MAX_ARGS);
  }

  lemma TokensSkip(s: string, max: nat)
    ensures Tokens(s, max) == Tokens(SkipSpace(s), max)
  {
    hide FirstToken;
    SkipSpaceAgain(s);
  }

  /** Quotes are not needed around words: separated by any white space they mean the same. */
  lemma UnquotedForms(words: seq<string>, gaps: seq<string>)
    requires Separated(words, gaps) && AllQuoteFree(words)
    ensures Decode(Spaced(words, gaps)) == Decode(Quoted(words))
  {
    hide Tokens, Quoted, Spaced, DecodeTokens, Word, Gap;
    WordsRoundTrip(words, gaps, MAX_ARGS);
    forall i, j | 0 <= i < |words| && 0 <= j < |words[i]| ensures words[i][j] != QUOTE { assert QuoteFree(words[i]); }
    if |words| <= MAX_ARGS { QuotedRoundTrip(words, MAX_ARGS); } else { QuotedTooMany(words, MAX_ARGS); }
  }

  // ---------- the read lock ----------

  ghost predicate ReadForm(s: string, pad: string, word: string, rest: string) {
    && s == pad + (word + rest) && Gap(pad)
    && (Spells(word, "GET", "get") || Spells(word, "TTL", "ttl"))
    && (rest == [] || rest[0] in " \t\n\r\U{0B}\U{0C}")
  }

  /** The read lock is taken exactly for the texts that start, after white space, with GET or TTL in any case,
      followed by white space or nothing. */
  lemma ReadLockExact(s: string)
    ensures IsReadCommand(s) <==> exists pad, word, rest :: ReadForm(s, pad, word, rest)
  {
    hide IsReadCommand, ReadForm;
    if IsReadCommand(s) { var pad, word, rest := ReadText(s); }
    forall pad, word, rest | ReadForm(s, pad, word, rest) ensures IsReadCommand(s) { ReadTaken(s, pad, word, rest); }
  }

  lemma ReadText(s: string) returns (pad: string, word: string, rest: string)
    requires IsReadCommand(s)
    ensures ReadForm(s, pad, word, rest)
  {
    hide SkipSpace, Spells, StartsWith;
    var t := SkipSpace(s);
    pad := SkippedIsSpace(s);
    ReadWord(t);
    word, rest := t[..3], t[3..];
    assert t == word + rest;
    forall i | 0 <= i < |pad| ensures pad[i] in " \t\n\r\U{0B}\U{0C}" { CharacterClasses(pad[i]); }
  }

  lemma ReadWord(t: string)
    requires if StartsWith(t, "get") then |t| == 3 || IsSpace(t[3]) else StartsWith(t, "ttl") && (|t| == 3 || IsSpace(t[3]))
    ensures |t| >= 3 && (Spells(t[..3], "GET", "get") || Spells(t[..3], "TTL", "ttl"))
    ensures t[3..] == [] || t[3..][0] in " \t\n\r\U{0B}\U{0C}"
  {
    if |t| > 3 { CharacterClasses(t[3]); }
    if StartsWith(t, "get") { LowerSpells(t[..3], "GET", "get"); } else { LowerSpells(t[..3], "TTL", "ttl"); }
  }

  lemma LowerSpells(word: string, upper: string, lower: string)
    requires |word| == |upper| == |lower|
    requires forall i :: 0 <= i < |upper| ==> 'A' <= upper[i] <= 'Z' && lower[i] as int == upper[i] as int + 32
    ensures (forall i :: 0 <= i < |word| ==> ToLower(word[i]) == lower[i]) <==> Spells(word, upper, lower)
  {}

  lemma ReadTaken(s: string, pad: string, word: string, rest: string)
    requires ReadForm(s, pad, word, rest)
    ensures IsReadCommand(s)
  {
    hide Gap;
    var t := word + rest;
    GapIsSpace(pad);
    if Spells(word, "GET", "get") { LowerSpells(word, "GET", "get"); } else { LowerSpells(word, "TTL", "ttl"); }
    assert !IsSpace(t[0]);
    SkipPad(pad, t);
    if rest != [] { CharacterClasses(rest[0]); assert t[3] == rest[0]; }
    assert forall i :: 0 <= i < 3 ==> t[i] == word[i];
  }

  // ---------- effects ----------

  /** k is there and has not expired, spelled out. */
  ghost predicate Alive(m: Table, k: string, now: int) {
    k in m && (m[k].expiresAt == 0 || now < m[k].expiresAt)
  }

  /** GET answers the whole value of a key that is alive. */
  lemma GetEffect(db: Db, c: Call, k: string)
    requires c.request == GetKey(k) && BoundedTable(db.table)
    ensures Execute(db, c) == Outcome(db, if Alive(db.table, k, c.t1) then db.table[k].value + "\n" else "(nil)\n", 0)
  {}

  /** TTL answers the seconds left at its second reading, -1 for a key that stays, -2 for one that is gone. */
  lemma TtlEffect(db: Db, c: Call, k: string)
    requires c.request == TtlOf(k) && c.t1 <= c.t2
    ensures Execute(db, c).db == db && Execute(db, c).code == 0
    ensures var reply := Execute(db, c).reply;
            if !Alive(db.table, k, c.t2) then reply == "-2\n"
            else if db.table[k].expiresAt == 0 then reply == "-1\n"
            else reply == Dec(db.table[k].expiresAt - c.t2) + "\n"
  {
    hide Dec;
  }

  lemma DelRuns(db: Db, c: Call, k: string)
    requires c.request == DelKey(k)
    ensures Execute(db, c)
            == if !Alive(db.table, k, c.t1) then Outcome(db, "0\n", 0)
               else if !c.io then Outcome(db, "ERR failed to write AOF\n", -1)
               else Outcome(Db(db.table - {k}, db.file + Print(Del(k))), "1\n", 0)
  {
    hide Print;
  }

  /** DEL removes a key that is alive, and nothing else, and logs it; any other key answers 0. */
  lemma DelEffect(db: Db, c: Call, k: string)
    requires c.request == DelKey(k)
    ensures var o := Execute(db, c);
            if !Alive(db.table, k, c.t1) then o == Outcome(db, "0\n", 0)
            else if !c.io then o == Outcome(db, "ERR failed to write AOF\n", -1)
            else
              && o.reply == "1\n" && o.code == 0
              && o.db.file == db.file + ("DEL " + Dec(|k|) + ":" + k + "\n")
              && forall x :: Get(o.db.table, x) == if x == k then None else Get(db.table, x)
  {
    hide Execute, Print, Dec, Alive;
    DelRuns(db, c, k);
    RecordFormat(k, "", 0);
  }

  lemma SetRuns(db: Db, c: Call, k: string, v: string, n: nat)
    requires c.request == SetKey(k, v, n)
    ensures var e := if n == 0 then 0 else c.t1 + n;
            Execute(db, c) == if !c.io then Outcome(db, "ERR failed to write AOF\n", -1)
                              else Outcome(Db(db.table[k := Timed(v, e)], db.file + Print(Set(k, v, e))), "OK\n", 0)
  {
    hide Print;
  }

  /** SET stores and logs the value with one deadline, its reading plus the seconds given, or none; and the key
      is there at every later time up to but not at the deadline. 0 stands for "never", also as a sum. */
  lemma SetEffect(db: Db, c: Call, k: string, v: string, n: nat)
    requires c.request == SetKey(k, v, n)
    ensures !c.io ==> Execute(db, c) == Outcome(db, "ERR failed to write AOF\n", -1)
    ensures c.io ==>
              var o, size := Execute(db, c), |db.file|;
              && o.reply == "OK\n" && o.code == 0
              && (forall x :: x != k ==> Get(o.db.table, x) == Get(db.table, x))
              && Get(o.db.table, k) == Some(Timed(v, if n == 0 then 0 else c.t1 + n))
              && (n == 0 ==> o.db.file == db.file + ("SET " + Dec(|k|) + ":" + k + Dec(|v|) + ":" + v + "\n"))
              && (n > 0 && c.t1 + n != 0 ==>
                    o.db.file == db.file + ("SET " + Dec(|k|) + ":" + k + Dec(|v|) + ":" + v
                                            + " EXAT " + DecInt(c.t1 + n) + "\n"))
              && (forall u :: c.t1 + n != 0 ==> (k in Live(o.db.table, u) <==> n == 0 || u < c.t1 + n))
  {
    hide Execute, Print, Dec, DecInt;
    SetRuns(db, c, k, v, n);
    RecordFormat(k, v, if n == 0 then 0 else c.t1 + n);
  }

  /** From command line to reply: what a client that sent SET k v EX n at time t1 is told later by GET and TTL. */
  lemma SetThenRead(db: Db, c: Call, later: Call, set_: string, ex: string, k: string, v: string, s: string, n: nat)
    requires QuoteFree(set_) && QuoteFree(k) && QuoteFree(v) && QuoteFree(ex) && QuoteFree(s)
    requires Spells(set_, "SET", "set") && Spells(ex, "EX", "ex") && n > 0 && Numeral(s, n)
    requires c.request == Decode(Quoted([set_, k, v, ex, s])) && c.io && 0 <= c.t1 <= later.t1 <= later.t2
    requires BoundedTable(db.table) && NulFree(k) && Bounded(v)
    ensures var db', deadline := Execute(db, c).db, c.t1 + n;
            && (later.request == GetKey(k) ==>
                  Execute(db', later).reply == if later.t1 < deadline then v + "\n" else "(nil)\n")
            && (later.request == TtlOf(k) ==>
                  Execute(db', later).reply == if later.t2 < deadline then Dec(deadline - later.t2) + "\n" else "-2\n")
  {
    hide Decode, Quoted, Execute, Numeral, Dec, QuoteFree, Bounded, NulFree, Live;
    var args := [k, v, ex, s];
    assert [set_] + args == [set_, k, v, ex, s];
    SetForms(set_, args);
    assert Numeral(args[3], n);
    SetEffect(db, c, k, v, n);
    var db' := Execute(db, c).db;
    assert forall x :: x in db'.table <==> Get(db'.table, x).Some?;
    assert forall x :: x in db'.table ==> db'.table[x] == Get(db'.table, x).value;
    if later.request == GetKey(k) { GetEffect(db', later, k); }
    if later.request == TtlOf(k) { TtlEffect(db', later, k); }
  }

  /** EXIT leaves the table alone; if it succeeds the file loads, lists entries found live, once each, and at
      any later time gives exactly the entries live then; if it fails nothing changes. */
  lemma ExitEffect(db: Db, c: Call)
    requires c.request == Exit && Possible(db, c) && BoundedTable(db.table)
    ensures !c.io ==> Execute(db, c) == Outcome(db, "ERR failed to rewrite AOF\n", -1)
    ensures c.io ==>
              var o := Execute(db, c);
              var log := Scan(o.db.file);
              && o.reply == "BYE\n" && o.code == 1 && o.db.table == db.table
              && log.ok && IsCompaction(log.records, db.table, c.t1, c.t2)
              && forall t :: c.t2 <= t ==> Replay(log.records, At(t)) == Live(db.table, t)
  {
    hide Scan, PrintAll, Replay, Live, IsCompaction, At;
    if c.io {
      CompactionClean(c.recs, db.table, c.t1, c.t2);
      RoundTrip(c.recs);
      forall t | c.t2 <= t ensures Replay(c.recs, At(t)) == Live(db.table, t) {
        CompactionExact(c.recs, db.table, c.t1, c.t2, t);
      }
    }
  }
}
