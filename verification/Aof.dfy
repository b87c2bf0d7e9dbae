/** The append-only file: its length-prefixed text format, the scanner of the loader, and the two
    theorems that tie them together (round trip, and every torn tail is refused). */
module Aof {
  import opened Store
  import opened Text

  // ---------- printing ----------

  const SET: string := "SET"
  const DEL: string := "DEL"
  const EXAT: string := "EXAT"

  function Field(s: string): (r: string)
    ensures r != []
  {
    Dec(|s|) + ([':'] + s)
  }

  function Tail(expiresAt: int): string {
    if expiresAt == 0 then "\n" else [' '] + (EXAT + ([' '] + (DecInt(expiresAt) + "\n")))
  }

  function Print(r: Record): (s: string)
    ensures |s| > 4
  {
    match r
    case Set(k, v, e) => SET + ([' '] + (Field(k) + (Field(v) + Tail(e))))
    case Del(k) => DEL + ([' '] + (Field(k) + "\n"))
  }

  function PrintAll(log: seq<Record>): string {
    if log == [] then "" else Print(log[0]) + PrintAll(log[1..])
  }

  lemma {:induction false} PrintAllAppend(log: seq<Record>, r: Record)
    ensures PrintAll(log + [r]) == PrintAll(log) + Print(r)
  {
    if log == [] {
      assert PrintAll([r]) == Print(r) + PrintAll([]);
    } else {
      assert (log + [r])[1..] == log[1..] + [r];
      PrintAllAppend(log[1..], r);
    }
  }

  lemma FlatField(pre: string, k: string)
    ensures pre + Dec(|k|) + [':'] + k == pre + Field(k)
  {
    Assoc(pre + Dec(|k|), [':'], k);
    Assoc(pre, Dec(|k|), [':'] + k);
  }

  /** The pieces that fprintf writes one after the other are the printed record. */
  lemma FlatSet(k: string, v: string, e: int, text: string)
    requires text == SET + [' '] + Dec(|k|) + [':'] + k + Dec(|v|) + [':'] + v
    ensures e == 0 ==> text + "\n" == Print(Set(k, v, e))
    ensures e != 0 ==> text + [' '] + EXAT + [' '] + DecInt(e) + "\n" == Print(Set(k, v, e))
  {
    hide Field, Dec, DecInt;
    var pre := SET + [' '];
    FlatField(pre, k);
    FlatField(pre + Field(k), v);
    if e != 0 { FlatTail(text, e); }
    Assoc(pre + Field(k), Field(v), Tail(e));
    Assoc(pre, Field(k), Field(v) + Tail(e));
    Assoc(SET, [' '], Field(k) + (Field(v) + Tail(e)));
  }

  lemma FlatTail(s: string, e: int)
    requires e != 0
    ensures s + [' '] + EXAT + [' '] + DecInt(e) + "\n" == s + Tail(e)
  {
    hide DecInt;
  }

  lemma FlatDel(k: string)
    ensures DEL + [' '] + Dec(|k|) + [':'] + k + "\n" == Print(Del(k))
  {
    hide Dec, Field;
    FlatField(DEL + [' '], k);
    Assoc(DEL + [' '], Field(k), "\n");
    Assoc(DEL, [' '], Field(k) + "\n");
  }

  /** The record formats, written out: lengths in decimal, no separator between key and value length, and
      EXAT only for an entry that expires. */
  lemma RecordFormat(k: string, v: string, e: int)
    ensures e == 0 ==> Print(Set(k, v, e)) == "SET " + Dec(|k|) + ":" + k + Dec(|v|) + ":" + v + "\n"
    ensures e != 0 ==>
              Print(Set(k, v, e)) == "SET " + Dec(|k|) + ":" + k + Dec(|v|) + ":" + v + " EXAT " + DecInt(e) + "\n"
    ensures Print(Del(k)) == "DEL " + Dec(|k|) + ":" + k + "\n"
  {
    hide Print, Dec, DecInt;
    assert "SET " == SET + [' '] && "DEL " == DEL + [' '] && ":" == [':'] && " EXAT " == [' '] + (EXAT + [' ']);
    var text := SET + [' '] + Dec(|k|) + [':'] + k + Dec(|v|) + [':'] + v;
    FlatSet(k, v, e, text);
    FlatDel(k);
    Assoc(text + [' '], EXAT, [' ']);
    Assoc(text, [' '], EXAT + [' ']);
  }

  // ---------- scanning ----------

  /** A length, a colon, and that many bytes. */
  function ScanField(s: string): (r: Option<(string, string)>)
    ensures r.Some? ==> |r.value.1| < |s|
  {
    match ScanSize(s)
    case None => None
    case Some((n, s1)) =>
      match Expect(s1, ':')
      case None => None
      case Some(s2) => Take(s2, n)
  }

  /** What follows the value of a SET: a newline, or an expiry and a newline. */
  function ScanTail(s: string): (r: Option<(int, string)>)
    ensures r.Some? ==> |r.value.1| < |s|
  {
    if s == [] then None
    else if s[0] == '\n' then Some((0, s[1..]))
    else if s[0] == ' ' then ScanExpiry(s[1..])
    else None
  }

  function ScanExpiry(s: string): (r: Option<(int, string)>)
    ensures r.Some? ==> |r.value.1| < |s|
  {
    match ScanWord(s, 4)
    case None => None
    case Some((word, s1)) =>
      match ScanInt(s1)
      case None => None
      case Some((e, s2)) =>
        if word != EXAT then None
        else
          match Expect(s2, '\n')
          case None => None
          case Some(s3) =>
            Some((e, s3))
  }

  /** One turn of the loader: the end of the file, a malformed record (with what it applied all the
      same), or a whole record and the rest of the file. */
  datatype Outcome = End | Bad(applied: seq<Record>) | Got(record: Record, rest: string)

  function ScanRecord(s: string): (r: Outcome)
    ensures r.Got? ==> |r.rest| < |s|
  {
    match ScanWord(s, 3)
    case None => End
    case Some((word, s1)) =>
      if word == SET then ScanSet(s1) else if word == DEL then ScanDel(s1) else Bad([])
  }

  function ScanSet(s: string): (r: Outcome)
    ensures r.Got? ==> |r.rest| < |s|
  {
    match ScanField(s)
    case None => Bad([])
    case Some((key, s1)) =>
      match ScanField(s1)
      case None => Bad([])
      case Some((value, s2)) =>
        match ScanTail(s2)
        case None => Bad([])
        case Some((e, s3)) =>
          Got(Set(CString(key), CString(value), e), s3)
  }

  /** The key is deleted before the closing newline is checked. */
  function ScanDel(s: string): (r: Outcome)
    ensures r.Got? ==> |r.rest| < |s|
  {
    match ScanField(s)
    case None => Bad([])
    case Some((key, s1)) =>
      var del := Del(CString(key));
      match Expect(s1, '\n')
      case None => Bad([del])
      case Some(s2) => Got(del, s2)
  }

  /** The records that a load applies, in order, and whether it reports success. */
  datatype Scanned = Scanned(records: seq<Record>, ok: bool)

  function Scan(s: string): Scanned
    decreases |s|
  {
    match ScanRecord(s)
    case End => Scanned([], true)
    case Bad(applied) => Scanned(applied, false)
    case Got(r, rest) =>
      var t := Scan(rest);
      Scanned([r] + t.records, t.ok)
  }

  // ---------- round trip ----------

  ghost predicate Clean(r: Record) {
    NulFree(r.key) && (r.Set? ==> NulFree(r.value))
  }

  ghost predicate CleanLog(log: seq<Record>) {
    forall i :: 0 <= i < |log| ==> Clean(log[i])
  }

  ghost predicate CleanTable(m: Table) {
    forall k :: k in m ==> NulFree(k) && NulFree(m[k].value)
  }

  lemma CompactionClean(rs: seq<Record>, m: Table, lo: int, hi: int)
    requires IsCompaction(rs, m, lo, hi) && CleanTable(m)
    ensures CleanLog(rs)
  {}

  ghost predicate Blank(pad: string) {
    forall i :: 0 <= i < |pad| ==> IsSpace(pad[i])
  }

  lemma ScanSizePrinted(pad: string, n: nat, rest: string)
    requires Blank(pad) && (rest == [] || !IsDigit(rest[0]))
    ensures ScanSize(pad + (Dec(n) + rest)) == Some((n, rest))
  {
    ScanPrinted(pad, n, rest);
  }

  lemma ScanFieldPrinted(pad: string, k: string, rest: string)
    requires Blank(pad)
    ensures ScanField(pad + (Field(k) + rest)) == Some((k, rest))
  {
    var s1 := [':'] + (k + rest);
    Assoc(Dec(|k|), [':'] + k, rest);
    Assoc([':'], k, rest);
    ScanSizePrinted(pad, |k|, s1);
    Cons(':', k + rest);
    Split(k, rest);
  }

  lemma ScanWordPrinted(word: string, rest: string)
    requires word != [] && forall i :: 0 <= i < |word| ==> !IsSpace(word[i])
    ensures ScanWord(word + rest, |word|) == Some((word, rest))
  {}

  lemma ScanExpiryPrinted(e: int, rest: string)
    ensures ScanExpiry(EXAT + ([' '] + (DecInt(e) + (['\n'] + rest)))) == Some((e, rest))
  {
    ScanWordPrinted(EXAT, [' '] + (DecInt(e) + (['\n'] + rest)));
    ScanPrinted([' '], e, ['\n'] + rest);
    Cons('\n', rest);
  }

  lemma ScanTailPrinted(e: int, rest: string)
    ensures ScanTail(Tail(e) + rest) == Some((e, rest))
  {
    if e == 0 {
      Cons('\n', rest);
    } else {
      Assoc([' '], EXAT + ([' '] + (DecInt(e) + "\n")), rest);
      Assoc(EXAT, [' '] + (DecInt(e) + "\n"), rest);
      Assoc([' '], DecInt(e) + "\n", rest);
      Assoc(DecInt(e), "\n", rest);
      Cons(' ', EXAT + ([' '] + (DecInt(e) + (['\n'] + rest))));
      ScanExpiryPrinted(e, rest);
    }
  }

  lemma ScanSetPrinted(k: string, v: string, e: int, rest: string)
    requires NulFree(k) && NulFree(v)
    ensures ScanSet([' '] + (Field(k) + (Field(v) + (Tail(e) + rest)))) == Got(Set(k, v, e), rest)
  {
    var s1 := Field(v) + (Tail(e) + rest);
    ScanFieldPrinted([' '], k, s1);
    ScanFieldPrinted([], v, Tail(e) + rest);
    assert [] + s1 == s1;
    ScanTailPrinted(e, rest);
    CStringOfNulFree(k);
    CStringOfNulFree(v);
  }

  lemma ScanDelPrinted(k: string, rest: string)
    requires NulFree(k)
    ensures ScanDel([' '] + (Field(k) + (['\n'] + rest))) == Got(Del(k), rest)
  {
    ScanFieldPrinted([' '], k, ['\n'] + rest);
    Cons('\n', rest);
    CStringOfNulFree(k);
  }

  /** The scanner gives back any printed record, whatever its key and value contain and whatever follows. */
  lemma ScanRecordPrinted(r: Record, rest: string)
    requires Clean(r)
    ensures ScanRecord(Print(r) + rest) == Got(r, rest)
  {
    match r
    case Set(k, v, e) =>
      Assoc(SET, [' '] + (Field(k) + (Field(v) + Tail(e))), rest);
      Assoc([' '], Field(k) + (Field(v) + Tail(e)), rest);
      Assoc(Field(k), Field(v) + Tail(e), rest);
      Assoc(Field(v), Tail(e), rest);
      ScanWordPrinted(SET, [' '] + (Field(k) + (Field(v) + (Tail(e) + rest))));
      ScanSetPrinted(k, v, e, rest);
    case Del(k) =>
      Assoc(DEL, [' '] + (Field(k) + ['\n']), rest);
      Assoc([' '], Field(k) + ['\n'], rest);
      Assoc(Field(k), ['\n'], rest);
      ScanWordPrinted(DEL, [' '] + (Field(k) + (['\n'] + rest)));
      ScanDelPrinted(k, rest);
  }

  /** Scanning a printed log gives the log back. */
  lemma {:induction false} RoundTrip(log: seq<Record>)
    requires CleanLog(log)
    ensures Scan(PrintAll(log)) == Scanned(log, true)
  {
    hide ScanRecord, Print;
    NothingToScan();
    if log != [] {
      ScanRecordPrinted(log[0], PrintAll(log[1..]));
      RoundTrip(log[1..]);
    }
  }

  // ---------- torn logs ----------

  lemma {:induction false} SkipBlank(pad: string)
    requires Blank(pad)
    ensures SkipSpace(pad) == ""
  {
    if pad != [] { SkipBlank(pad[1..]); }
  }

  /** A number cut short scans as a number with nothing after it, or not at all. */
  lemma ScanIntTorn(pad: string, n: int, c: nat)
    requires Blank(pad) && c <= |DecInt(n)|
    ensures var r := ScanInt(pad + DecInt(n)[..c]); r.Some? ==> r.value.1 == ""
  {
    var s := DecInt(n)[..c];
    if c == 0 {
      assert pad + s == pad;
      SkipBlank(pad);
    } else {
      assert !IsSpace(s[0]);
      SkipPad(pad, s);
      ScanSignedTorn(n, c);
    }
  }

  lemma ScanSignedTorn(n: int, c: nat)
    requires 0 < c <= |DecInt(n)|
    ensures var r := ScanSigned(DecInt(n)[..c]); r.Some? ==> r.value.1 == ""
  {}

  lemma ScanFieldTorn(pad: string, k: string, c: nat)
    requires Blank(pad) && c < |Field(k)|
    ensures ScanField(pad + Field(k)[..c]) == None
  {
    hide Dec, ScanInt;
    var d := Dec(|k|);
    if c <= |d| {
      CutInside(d, [':'] + k, c);
      ScanIntTorn(pad, |k|, c);
    } else {
      var m := c - |d| - 1;
      CutBeyond(d, [':'] + k, c);
      CutBeyond([':'], k, m + 1);
      ScanSizePrinted(pad, |k|, [':'] + k[..m]);
      Cons(':', k[..m]);
    }
  }

  /** An expiry cut anywhere before its newline is refused. */
  lemma ScanExpiryTorn(e: int, c: nat)
    requires c < |EXAT| + 1 + |DecInt(e)| + 1
    ensures ScanExpiry((EXAT + ([' '] + (DecInt(e) + "\n")))[..c]) == None
  {
    var number := [' '] + (DecInt(e) + "\n");
    if c <= |EXAT| {
      CutInside(EXAT, number, c);
      ScanShortWord(EXAT[..c]);
    } else {
      var m := c - |EXAT| - 1;
      CutBeyond(EXAT, number, c);
      CutBeyond([' '], DecInt(e) + "\n", m + 1);
      CutInside(DecInt(e), "\n", m);
      ScanWordPrinted(EXAT, [' '] + DecInt(e)[..m]);
      ScanIntTorn([' '], e, m);
    }
  }

  /** A word that the input ends with leaves nothing for the number that should follow it. */
  lemma ScanShortWord(word: string)
    requires |word| <= 4 && forall i :: 0 <= i < |word| ==> !IsSpace(word[i])
    ensures ScanExpiry(word) == None
  {}

  lemma {:induction false} WordEndsInput(s: string, width: nat)
    requires |s| <= width && forall i :: 0 <= i < |s| ==> !IsSpace(s[i])
    ensures WordLength(s, width) == |s|
  {}

  lemma ScanTailTorn(e: int, c: nat)
    requires c < |Tail(e)|
    ensures ScanTail(Tail(e)[..c]) == None
  {
    hide ScanExpiry, DecInt;
    if c > 0 {
      var expiry := EXAT + ([' '] + (DecInt(e) + "\n"));
      CutBeyond([' '], expiry, c);
      Cons(' ', expiry[..c - 1]);
      ScanExpiryTorn(e, c - 1);
    }
  }

  lemma ScanSetTorn(k: string, v: string, e: int, c: nat)
    requires c < |Field(k)| + (|Field(v)| + |Tail(e)|)
    ensures ScanSet([' '] + (Field(k) + (Field(v) + Tail(e)))[..c]) == Bad([])
  {
    hide ScanField, ScanTail, Field, Tail;
    if c < |Field(k)| {
      CutInside(Field(k), Field(v) + Tail(e), c);
      ScanFieldTorn([' '], k, c);
    } else {
      CutBeyond(Field(k), Field(v) + Tail(e), c);
      ScanFieldPrinted([' '], k, (Field(v) + Tail(e))[..c - |Field(k)|]);
      ScanValueTorn(v, e, c - |Field(k)|);
    }
  }

  lemma ScanValueTorn(v: string, e: int, c: nat)
    requires c < |Field(v)| + |Tail(e)|
    ensures var r := ScanField((Field(v) + Tail(e))[..c]); r.Some? ==> ScanTail(r.value.1) == None
  {
    hide ScanField, ScanTail, Field, Tail;
    var s := (Field(v) + Tail(e))[..c];
    assert [] + s == s;
    if c < |Field(v)| {
      CutInside(Field(v), Tail(e), c);
      ScanFieldTorn([], v, c);
    } else {
      CutBeyond(Field(v), Tail(e), c);
      ScanFieldPrinted([], v, Tail(e)[..c - |Field(v)|]);
      ScanTailTorn(e, c - |Field(v)|);
    }
  }

  lemma ScanDelTorn(k: string, c: nat)
    requires NulFree(k) && c <= |Field(k)|
    ensures ScanDel([' '] + (Field(k) + "\n")[..c]) == Bad(if c == |Field(k)| then [Del(k)] else [])
  {
    CutInside(Field(k), "\n", c);
    if c < |Field(k)| {
      ScanFieldTorn([' '], k, c);
    } else {
      assert Field(k)[..c] == Field(k) + [];
      ScanFieldPrinted([' '], k, []);
      CStringOfNulFree(k);
    }
  }

  lemma NothingToScan()
    ensures ScanRecord([]) == End && ScanSet([]) == Bad([]) && ScanDel([]) == Bad([]) && Scan([]) == Scanned([], true)
  {}

  /** Every proper, non-empty prefix of a printed record is malformed; only a DEL that lost just its
      newline is applied. */
  lemma ScanRecordTorn(r: Record, c: nat)
    requires Clean(r) && 0 < c < |Print(r)|
    ensures ScanRecord(Print(r)[..c]) == Bad(if r.Del? && c == |Print(r)| - 1 then [r] else [])
  {
    hide ScanSet, ScanDel, Field, Tail;
    var word := if r.Set? then SET else DEL;
    var body := if r.Set? then Field(r.key) + (Field(r.value) + Tail(r.expiresAt)) else Field(r.key) + "\n";
    assert Print(r) == word + ([' '] + body);
    if c < 3 {
      CutInside(word, [' '] + body, c);
      WordEndsInput(word[..c], 3);
    } else if c == 3 {
      CutBeyond(word, [' '] + body, c);
      ScanWordPrinted(word, []);
      NothingToScan();
    } else {
      CutBeyond(word, [' '] + body, c);
      CutBeyond([' '], body, c - 3);
      ScanWordPrinted(word, [' '] + body[..c - 4]);
      if r.Set? {
        ScanSetTorn(r.key, r.value, r.expiresAt, c - 4);
      } else {
        ScanDelTorn(r.key, c - 4);
      }
    }
  }

  /** How many whole records the first c bytes of the printed log hold. */
  function Whole(log: seq<Record>, c: nat): (n: nat)
    ensures n <= |log|
  {
    if log == [] || c < |Print(log[0])| then 0 else 1 + Whole(log[1..], c - |Print(log[0])|)
  }

  /** The length of the first n printed records. */
  function Boundary(log: seq<Record>, n: nat): nat
    requires n <= |log|
  {
    |PrintAll(log[..n])|
  }

  /** Loading the first c bytes of a log succeeds exactly when the cut is on a record boundary; it applies
      the whole records before the cut, plus a final DEL that lost only its newline (and then fails). */
  lemma {:induction false} TornLog(log: seq<Record>, c: nat)
    requires CleanLog(log) && c <= |PrintAll(log)|
    ensures var n, s := Whole(log, c), Scan(PrintAll(log)[..c]);
            && Boundary(log, n) <= c && (n < |log| ==> c < Boundary(log, n + 1))
            && (s.ok <==> c == Boundary(log, n))
            && s.records == log[..if n < |log| && log[n].Del? && c == Boundary(log, n + 1) - 1 then n + 1 else n]
  {
    hide Scan, Print;
    if log == [] {
      NothingToScan();
      assert PrintAll(log)[..c] == [] && log[..0] == [];
    } else if c < |Print(log[0])| {
      BoundaryStep(log, 0);
      ScanFirst(log, c);
    } else {
      var c' := c - |Print(log[0])|;
      var n' := Whole(log[1..], c');
      ScanNext(log, c);
      TornLog(log[1..], c');
      BoundaryStep(log, n');
      if n' + 1 < |log| { BoundaryStep(log, n' + 1); }
    }
  }

  /** A cut inside the first record. */
  lemma ScanFirst(log: seq<Record>, c: nat)
    requires CleanLog(log) && log != [] && c < |Print(log[0])|
    ensures |PrintAll(log)| >= |Print(log[0])|
    ensures Scan(PrintAll(log)[..c])
            == Scanned(if log[0].Del? && c == |Print(log[0])| - 1 then log[..1] else [], c == 0)
  {
    hide ScanRecord, Print;
    CutInside(Print(log[0]), PrintAll(log[1..]), c);
    if c == 0 {
      NothingToScan();
      RecordLength(log[0]);
    } else {
      ScanRecordTorn(log[0], c);
    }
  }

  lemma RecordLength(r: Record)
    ensures |Print(r)| > 1
  {}

  /** A cut behind it. */
  lemma ScanNext(log: seq<Record>, c: nat)
    requires CleanLog(log) && log != [] && |Print(log[0])| <= c <= |PrintAll(log)|
    ensures |PrintAll(log)| == |Print(log[0])| + |PrintAll(log[1..])|
    ensures var s, t := Scan(PrintAll(log)[..c]), Scan(PrintAll(log[1..])[..c - |Print(log[0])|]);
            s.ok == t.ok && s.records == [log[0]] + t.records
  {
    hide ScanRecord, Print;
    var p, rest := Print(log[0]), PrintAll(log[1..]);
    CutBeyond(p, rest, c);
    ScanRecordPrinted(log[0], rest[..c - |p|]);
  }

  lemma BoundaryStep(log: seq<Record>, n: nat)
    requires n < |log|
    ensures Boundary(log, n + 1) == |Print(log[0])| + Boundary(log[1..], n)
    ensures log[..n + 1] == [log[0]] + log[1..][..n]
    ensures Boundary(log, 0) == 0
  {
    hide Print;
    assert log[..n + 1][1..] == log[1..][..n];
  }
}
