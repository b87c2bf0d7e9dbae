/** The imperative side of the append-only file: appending a record, loading the file into a table,
    and rewriting it from a table. */
module Persistence {
  import opened Store
  import opened Text
  import opened Aof
  import opened Chains
  import opened HashTables

  /** data.aof; None when the file does not exist. */
  class LogFile {
    var bytes: Option<string>

    constructor ()
      ensures bytes == None
    {
      bytes := None;
    }

    function Content(): string
      reads this
    {
      if bytes == None then "" else bytes.value
    }

    /** persistence_append_set_expiry; io says whether opening, printing and closing all succeed. */
    method AppendSetExpiry(key: string, value: string, expiresAt: int, io: bool) returns (ok: bool)
      modifies this
      ensures ok == io
      ensures Content() == old(Content()) + if ok then Print(Set(key, value, expiresAt)) else ""
    {
      hide Print, Dec, DecInt;
      if !io { return false; }
      var text := SET + [' '] + Dec(|key|) + [':'] + key + Dec(|value|) + [':'] + value;
      FlatSet(key, value, expiresAt, text);
      if expiresAt == 0 {
        text := text + "\n";
      } else {
        text := text + [' '] + EXAT + [' '] + DecInt(expiresAt) + "\n";
      }
      bytes := Some(Content() + text);
      return true;
    }

    /** persistence_append_del */
    method AppendDel(key: string, io: bool) returns (ok: bool)
      modifies this
      ensures ok == io
      ensures Content() == old(Content()) + if ok then Print(Del(key)) else ""
    {
      hide Print, Dec, DecInt;
      if !io { return false; }
      FlatDel(key);
      bytes := Some(Content() + (DEL + [' '] + Dec(|key|) + [':'] + key + "\n"));
      return true;
    }
  }

  // ---------- loading ----------

  /** A file opened for reading: what fscanf, fgetc and fread have not consumed yet. */
  class Input {
    var unread: string

    constructor (bytes: string)
      ensures unread == bytes
    {
      unread := bytes;
    }

    /** A length, a colon and that many bytes, as a C string. */
    method ReadField() returns (field: Option<string>)
      modifies this
      ensures match ScanField(old(unread))
              case None => field == None
              case Some((raw, rest)) => field == Some(CString(raw)) && unread == rest
    {
      hide CString, ScanInt;
      var length := ScanSize(unread);
      if length == None { return None; }
      unread := length.value.1;
      var colon := Expect(unread, ':');
      if colon == None { return None; }
      unread := colon.value;
      var raw := Take(unread, length.value.0);
      if raw == None { return None; }
      unread := raw.value.1;
      return Some(CString(raw.value.0));
    }

    /** The end of a SET record: its expiry, 0 when it has none. */
    method ReadTail() returns (expiresAt: Option<int>)
      modifies this
      ensures match ScanTail(old(unread))
              case None => expiresAt == None
              case Some((e, rest)) => expiresAt == Some(e) && unread == rest
    {
      hide ScanInt, ScanWord;
      if unread == [] { return None; }
      var nextChar := unread[0];
      unread := unread[1..];
      if nextChar == '\n' { return Some(0); }
      if nextChar != ' ' { return None; }
      var word := ScanWord(unread, 4);
      if word == None { return None; }
      var timestamp := ScanInt(word.value.1);
      if timestamp == None || word.value.0 != EXAT { return None; }
      var newline := Expect(timestamp.value.1, '\n');
      if newline == None { return None; }
      unread := newline.value;
      return Some(timestamp.value.0);
    }

    /** The key, value and expiry that follow the word SET. */
    method ReadSet() returns (record: Option<Record>)
      modifies this
      ensures match ScanSet(old(unread))
              case Got(r, rest) => record == Some(r) && unread == rest
              case _ => record == None
    {
      hide CString, ScanField, ScanTail;
      var key := ReadField();
      if key == None { return None; }
      var value := ReadField();
      if value == None { return None; }
      var expiresAt := ReadTail();
      if expiresAt == None { return None; }
      return Some(Set(key.value, value.value, expiresAt.value));
    }
  }

  datatype Turn = AtEnd | Malformed | Loaded

  ghost predicate Applied(m: Table, rs: seq<Record>, now: int, m': Table) {
    |rs| <= 1 && m' == if rs == [] then m else Restore(m, rs[0], now)
  }

  /** One turn of the loop of persistence_load, with the clock at now. */
  method LoadRecord(input: Input, table: HashTable, now: int, canResize: bool) returns (turn: Turn)
    requires table.Valid()
    modifies input, table, table.buckets, table.nodes
    ensures table.Valid()
    ensures (table.buckets == old(table.buckets) || fresh(table.buckets)) && fresh(table.nodes - old(table.nodes))
    ensures match ScanRecord(old(input.unread))
            case End => turn == AtEnd && Applied(old(table.view), [], now, table.view)
            case Bad(rs) => turn == Malformed && Applied(old(table.view), rs, now, table.view)
            case Got(r, rest) => turn == Loaded && Applied(old(table.view), [r], now, table.view) && input.unread == rest
  {
    hide ScanField, ScanSet, ScanWord, CString, Insert, Remove, Structure, Represents, Total;
    var word := ScanWord(input.unread, 3);
    if word == None { return AtEnd; }
    input.unread := word.value.1;
    if word.value.0 == SET {
      SetOnly(input.unread);
      var record := input.ReadSet();
      if record == None { return Malformed; }
      var Set(key, value, expiresAt) := record.value;
      if expiresAt != 0 && now >= expiresAt { return Loaded; }
      table.SetWithExpiry(key, value, expiresAt, canResize);
    } else if word.value.0 == DEL {
      var key := input.ReadField();
      if key == None { return Malformed; }
      var found := table.Delete(key.value);
      var newline := Expect(input.unread, '\n');
      if newline == None { return Malformed; }
      input.unread := newline.value;
    } else {
      return Malformed;
    }
    return Loaded;
  }

  lemma SetOnly(s: string)
    ensures ScanSet(s).Bad? ==> ScanSet(s).applied == []
    ensures !ScanSet(s).End? && (ScanSet(s).Got? ==> ScanSet(s).record.Set?)
  {
    hide ScanField, ScanTail;
  }

  /** persistence_load: apply records up to the end of the file or the first malformed one. Record i is read
      at time clock(i); canResize(i) says whether a resize that it triggers can allocate. */
  method Load(file: LogFile, table: HashTable, clock: Clock, canResize: nat -> bool) returns (ok: bool)
    requires table.Valid()
    modifies table, table.buckets, table.nodes
    ensures table.Valid()
    ensures (table.buckets == old(table.buckets) || fresh(table.buckets)) && fresh(table.nodes - old(table.nodes))
    ensures var s := Scan(file.Content());
            ok == s.ok && table.view == ReplayOnto(old(table.view), s.records, clock)
  {
    hide ScanRecord, ReplayOnto, Scan, Restore, Structure, Represents, Total;
    var input := new Input(file.Content());
    ghost var done: seq<Record>, all := [], Scan(file.Content());
    ScanStart(file.Content(), table.view, clock);
    var n := 0;
    while true
      invariant table.Valid()
      invariant (table.buckets == old(table.buckets) || fresh(table.buckets)) && fresh(table.nodes - old(table.nodes))
      invariant all == Scanned(done + Scan(input.unread).records, Scan(input.unread).ok)
      invariant n == |done| && table.view == ReplayOnto(old(table.view), done, clock)
      decreases |input.unread|
    {
      ScanOnce(input.unread, done);
      ghost var outcome, m := ScanRecord(input.unread), table.view;
      var turn := LoadRecord(input, table, clock(n), canResize(n));
      if turn == AtEnd { return true; }
      ghost var rs := if outcome.Got? then [outcome.record] else outcome.applied;
      AppliedAppends(old(table.view), done, rs, clock, m, table.view);
      if turn == Malformed { return false; }
      done, n := done + rs, n + 1;
    }
  }

  lemma AppliedAppends(m0: Table, done: seq<Record>, rs: seq<Record>, clock: Clock, m: Table, m': Table)
    requires m == ReplayOnto(m0, done, clock) && Applied(m, rs, clock(|done|), m')
    ensures m' == ReplayOnto(m0, done + rs, clock)
  {
    if rs == [] {
      assert done + rs == done;
    } else {
      assert rs == [rs[0]];
      ReplayAppend(m0, done, rs[0], clock);
    }
  }

  lemma ScanStart(s: string, m: Table, clock: Clock)
    ensures Scan(s) == Scanned([] + Scan(s).records, Scan(s).ok)
    ensures ReplayOnto(m, [], clock) == m
  {}

  /** How one turn of the loader relates to the whole scan. */
  lemma ScanOnce(s: string, done: seq<Record>)
    ensures match ScanRecord(s)
            case End => Scan(s) == Scanned([], true) && done + [] == done
            case Bad(applied) => Scan(s) == Scanned(applied, false)
            case Got(r, rest) =>
              && Scan(s) == Scanned([r] + Scan(rest).records, Scan(rest).ok)
              && done + ([r] + Scan(rest).records) == (done + [r]) + Scan(rest).records
  {
    hide ScanRecord;
  }

  /** Start-up: load the file into a new table of 8 buckets. */
  method Recover(file: LogFile, clock: Clock, canResize: nat -> bool) returns (table: HashTable, ok: bool)
    ensures table.Valid() && fresh(table) && fresh(table.buckets) && fresh(table.nodes)
    ensures ok == Scan(file.Content()).ok
    ensures table.view == Replay(Scan(file.Content()).records, clock)
  {
    hide Scan, ReplayOnto, Structure, Represents, Total;
    table := new HashTable(8);
    ok := Load(file, table, clock, canResize);
  }

  // ---------- rewriting ----------

  /** The records of the cells not expired when they are visited; cell i is visited at time clock(i). */
  function LiveRecords(cells: Chain, clock: Clock): seq<Record> {
    if cells == [] then []
    else
      var n := |cells| - 1;
      var c := cells[n];
      LiveRecords(cells[..n], clock) + (if Expired(ValueOf(c), clock(n)) then [] else [Set(c.key, c.value, c.expiresAt)])
  }

  ghost predicate RecordOf(cells: Chain, clock: Clock, x: nat, r: Record) {
    && x < |cells| && r == Set(cells[x].key, cells[x].value, cells[x].expiresAt)
    && !Expired(ValueOf(cells[x]), clock(x))
  }

  ghost predicate Comes(cells: Chain, clock: Clock, r: Record) {
    exists x: nat :: RecordOf(cells, clock, x, r)
  }

  /** Each record is that of a cell live when visited, and no key has two. */
  lemma {:induction false} LiveRecordsSound(cells: Chain, clock: Clock)
    requires DistinctKeys(cells)
    ensures forall i :: 0 <= i < |LiveRecords(cells, clock)| ==> Comes(cells, clock, LiveRecords(cells, clock)[i])
    ensures forall i, j :: 0 <= i < j < |LiveRecords(cells, clock)| ==>
              LiveRecords(cells, clock)[i].key != LiveRecords(cells, clock)[j].key
  {
    if cells != [] {
      var n := |cells| - 1;
      var pre, rs := LiveRecords(cells[..n], clock), LiveRecords(cells, clock);
      LiveRecordsSound(cells[..n], clock);
      forall i | 0 <= i < |pre| ensures Comes(cells, clock, pre[i]) && pre[i].key != cells[n].key {
        assert Comes(cells[..n], clock, pre[i]);
        var x: nat :| RecordOf(cells[..n], clock, x, pre[i]);
        assert RecordOf(cells, clock, x, pre[i]);
      }
      if |rs| > |pre| { assert RecordOf(cells, clock, n, rs[|pre|]); }
    }
  }

  /** Each cell live when visited has a record. */
  lemma {:induction false} LiveRecordsComplete(cells: Chain, clock: Clock, x: nat)
    requires x < |cells| && !Expired(ValueOf(cells[x]), clock(x))
    ensures Listed(LiveRecords(cells, clock), cells[x].key)
  {
    var n := |cells| - 1;
    var pre, rs := LiveRecords(cells[..n], clock), LiveRecords(cells, clock);
    if x < n {
      LiveRecordsComplete(cells[..n], clock, x);
      var i :| 0 <= i < |pre| && pre[i].key == cells[..n][x].key;
      assert rs[i].key == cells[x].key;
    } else {
      assert rs[|pre|].key == cells[x].key;
    }
  }

  /** Rewriting is a compaction of the table, for any bucket count and chain order. */
  lemma RewriteCompacts(b: Buckets, m: Table, clock: Clock)
    requires Represents(b, m) && Monotone(clock)
    ensures IsCompaction(LiveRecords(Flatten(b), clock), m, clock(0), clock(Total(b)))
  {
    hide Represents, Flatten, Total, LiveRecords;
    var cells := Flatten(b);
    FlattenHolds(b, m);
    FlattenLength(b);
    LiveRecordsSound(cells, clock);
    var rs := LiveRecords(cells, clock);
    forall i | 0 <= i < |rs| ensures Lists(rs[i], m, clock(0)) {
      assert Comes(cells, clock, rs[i]);
      var x: nat :| RecordOf(cells, clock, x, rs[i]);
      assert Get(m, cells[x].key) == Some(ValueOf(cells[x]));
      assert clock(0) <= clock(x);
    }
    forall k | k in m && !Expired(m[k], clock(|cells|)) ensures Listed(rs, k) {
      var x :| 0 <= x < |cells| && cells[x].key == k;
      assert Get(m, cells[x].key) == Some(ValueOf(cells[x]));
      assert clock(x) <= clock(|cells|);
      LiveRecordsComplete(cells, clock, x);
    }
  }

  /** Loading the bytes of a rewrite succeeds and gives exactly the entries live at the time of the load,
      for any bucket count and chain order. */
  lemma RewriteThenLoad(b: Buckets, m: Table, clock: Clock, now: int)
    requires Represents(b, m) && Monotone(clock) && clock(Total(b)) <= now && CleanTable(m)
    ensures var s := Scan(PrintAll(LiveRecords(Flatten(b), clock)));
            s.ok && Replay(s.records, At(now)) == Live(m, now)
  {
    hide Represents, Total, Flatten, LiveRecords, Scan, PrintAll, Replay;
    var rs := LiveRecords(Flatten(b), clock);
    RewriteCompacts(b, m, clock);
    CompactionClean(rs, m, clock(0), clock(Total(b)));
    RoundTrip(rs);
    CompactionExact(rs, m, clock(0), clock(Total(b)), now);
  }

  /** persistence_rewrite: write the live entries, bucket by bucket, to a new file that then replaces the old
      one. io says whether every operation on the new file and the final rename succeed. */
  method Rewrite(table: HashTable, file: LogFile, clock: Clock, io: bool) returns (ok: bool)
    requires table.Valid() && Monotone(clock)
    modifies file
    ensures ok == io
    ensures !ok ==> file.bytes == old(file.bytes)
    ensures ok ==> file.bytes == Some(PrintAll(LiveRecords(Flatten(table.cells), clock)))
    ensures IsCompaction(LiveRecords(Flatten(table.cells), clock), table.view, clock(0), clock(table.count))
  {
    hide Structure, Represents, Print, PrintAll, LiveRecords, Flatten, Prefix, IsCompaction;
    RewriteCompacts(table.cells, table.view, clock);
    if !io { return false; }
    var text, i, n := "", 0, 0;
    StructureAt(table.buckets, table.chains, table.cells, table.nodes, 0);
    RewriteStart(table.cells, clock);
    while i < table.size
      invariant i <= table.size == |table.cells|
      invariant text == PrintAll(LiveRecords(Prefix(table.cells, i, 0), clock)) && n == |Prefix(table.cells, i, 0)|
    {
      text, n := RewriteChain(table, i, text, n, clock);
      i := i + 1;
    }
    RewriteEnd(table.cells);
    file.bytes := Some(text);
    return true;
  }

  /** The inner loop of the rewrite: write the live entries of chain i after the text so far. */
  method RewriteChain(table: HashTable, i: nat, before: string, visited: nat, clock: Clock) returns (text: string, n: nat)
    requires table.Valid() && i < table.size == |table.cells|
    requires before == PrintAll(LiveRecords(Prefix(table.cells, i, 0), clock)) && visited == |Prefix(table.cells, i, 0)|
    ensures text == PrintAll(LiveRecords(Prefix(table.cells, i + 1, 0), clock)) && n == |Prefix(table.cells, i + 1, 0)|
  {
    hide Structure, Represents, Print, PrintAll, LiveRecords, Flatten, Prefix, Total;
    text, n := before, visited;
    StructureAt(table.buckets, table.chains, table.cells, table.nodes, i);
    var entry := table.buckets[i];
    ghost var j, chain := 0, table.chains[i];
    while entry != null
      invariant 0 <= j <= |chain| && entry == Nth(chain, j)
      invariant text == PrintAll(LiveRecords(Prefix(table.cells, i, j), clock)) && n == |Prefix(table.cells, i, j)|
      decreases |chain| - j
    {
      RewriteNext(table.cells, i, j, clock);
      if !Expired(Timed(entry.value, entry.expiresAt), clock(n)) {
        text := text + Print(Set(entry.key, entry.value, entry.expiresAt));
      }
      n := n + 1;
      entry, j := entry.next, j + 1;
    }
    PrefixNextChain(table.cells, i);
  }

  lemma RewriteStart(b: Buckets, clock: Clock)
    requires |b| > 0
    ensures Prefix(b, 0, 0) == [] && PrintAll(LiveRecords([], clock)) == ""
  {}

  lemma RewriteEnd(b: Buckets)
    ensures Prefix(b, |b|, 0) == Flatten(b)
  {}

  lemma RewriteNext(b: Buckets, i: nat, j: nat, clock: Clock)
    requires i < |b| && j < |b[i]|
    ensures var pre, next, c := Prefix(b, i, j), Prefix(b, i, j + 1), b[i][j];
            && |next| == |pre| + 1
            && PrintAll(LiveRecords(next, clock)) == PrintAll(LiveRecords(pre, clock))
                 + if Expired(ValueOf(c), clock(|pre|)) then "" else Print(Set(c.key, c.value, c.expiresAt))
  {
    hide Flatten, Print, PrintAll;
    var pre, next, c := Prefix(b, i, j), Prefix(b, i, j + 1), b[i][j];
    assert next == pre + [c];
    assert next[..|pre|] == pre;
    if Expired(ValueOf(c), clock(|pre|)) {
      assert LiveRecords(next, clock) == LiveRecords(pre, clock);
    } else {
      PrintAllAppend(LiveRecords(pre, clock), Set(c.key, c.value, c.expiresAt));
    }
  }
}
