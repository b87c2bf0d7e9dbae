/** Cutting a client's byte stream into command lines: a bounded buffer filled by each receive and
    emptied line by line, in place. */
module Framing {
  import opened Store
  import opened Text

  const BUFFER_SIZE: nat := 1024
  const NEWLINE: char := '\n'

  // ---------- what the commands of a stream are ----------

  /** strchr for a newline: the place of the first newline or NUL; the length of s if there is none. */
  function LineEnd(s: string): (n: nat)
    ensures n <= |s| && (forall i :: 0 <= i < n ==> s[i] != NEWLINE && s[i] != NUL)
    ensures n < |s| ==> s[n] == NEWLINE || s[n] == NUL
  {
    if s == [] || s[0] == NEWLINE || s[0] == NUL then 0 else 1 + LineEnd(s[1..])
  }

  predicate HasLine(s: string) {
    LineEnd(s) < |s| && s[LineEnd(s)] == NEWLINE
  }

  /** A line without one trailing carriage return. */
  function Strip(line: string): string {
    if line != [] && line[|line| - 1] == '\r' then line[..|line| - 1] else line
  }

  /** The complete lines of a stream, in order. */
  function Lines(s: string): seq<string> {
    if HasLine(s) then [Strip(s[..LineEnd(s)])] + Lines(s[LineEnd(s) + 1..]) else []
  }

  /** What follows the last complete line. */
  function Leftover(s: string): (r: string)
    ensures |r| <= |s| && !HasLine(r)
  {
    if HasLine(s) then Leftover(s[LineEnd(s) + 1..]) else s
  }

  /** On a stream without NUL nothing is left over but an unfinished line. */
  lemma {:induction false} LeftoverUnfinished(s: string)
    requires NulFree(s)
    ensures NEWLINE !in Leftover(s)
  {
    if HasLine(s) {
      LeftoverUnfinished(s[LineEnd(s) + 1..]);
    } else {
      assert LineEnd(s) == |s|;
    }
  }

  /** Every submitted command is a C string, holds no newline, and is shorter than the stream it came from. */
  lemma {:induction false} LinesClean(s: string)
    ensures forall i :: 0 <= i < |Lines(s)| ==> NulFree(Lines(s)[i]) && NEWLINE !in Lines(s)[i] && |Lines(s)[i]| < |s|
  {
    if HasLine(s) { LinesClean(s[LineEnd(s) + 1..]); }
  }

  lemma LineEndExtends(a: string, b: string)
    requires HasLine(a)
    ensures LineEnd(a + b) == LineEnd(a) < |a| && HasLine(a + b)
  {
    assert forall i :: 0 <= i < |a| ==> (a + b)[i] == a[i];
    LineEndIs(a + b, LineEnd(a));
  }

  /** Cutting a stream anywhere gives the same lines: those of the first part, then those of what it left
      over followed by the second part. */
  lemma {:induction false} LinesConcat(a: string, b: string)
    ensures Lines(a + b) == Lines(a) + Lines(Leftover(a) + b)
    ensures Leftover(a + b) == Leftover(Leftover(a) + b)
  {
    hide HasLine, LineEnd, Strip;
    if HasLine(a) {
      var n := LineEnd(a);
      LineEndExtends(a, b);
      CutInside(a, b, n);
      DropInside(a, b, n + 1);
      LinesConcat(a[n + 1..], b);
      Assoc([Strip(a[..n])], Lines(a[n + 1..]), Lines(Leftover(a[n + 1..]) + b));
    }
  }

  function Concat(chunks: seq<string>): string {
    if chunks == [] then [] else Concat(chunks[..|chunks| - 1]) + chunks[|chunks| - 1]
  }

  /** The test that rejects a receive and empties the buffer. */
  predicate Overflows(buffer: string, chunk: string) {
    |buffer| + |chunk| >= BUFFER_SIZE
  }

  /** The buffer and the commands submitted so far, after some receives. */
  datatype Client = Client(buffer: string, submitted: seq<string>)

  function Receive(c: Client, chunk: string): Client {
    if Overflows(c.buffer, chunk) then Client([], c.submitted)
    else Client(Leftover(c.buffer + chunk), c.submitted + Lines(c.buffer + chunk))
  }

  function ReceiveAll(chunks: seq<string>): Client {
    if chunks == [] then Client([], [])
    else Receive(ReceiveAll(chunks[..|chunks| - 1]), chunks[|chunks| - 1])
  }

  /** No receive overflows: each chunk fits after the unfinished line of the bytes before it. */
  ghost predicate Fits(chunks: seq<string>) {
    forall i :: 0 <= i < |chunks| ==> !Overflows(Leftover(Concat(chunks[..i])), chunks[i])
  }

  /** However the stream is cut into receives, as long as none overflows, the submitted commands and the
      buffer are the lines and the leftover of the whole stream. */
  lemma {:induction false} ChunkingDoesNotMatter(chunks: seq<string>)
    requires Fits(chunks)
    ensures ReceiveAll(chunks) == Client(Leftover(Concat(chunks)), Lines(Concat(chunks)))
  {
    if chunks != [] {
      var n := |chunks| - 1;
      var pre := chunks[..n];
      forall i | 0 <= i < |pre| ensures !Overflows(Leftover(Concat(pre[..i])), pre[i]) {
        assert pre[..i] == chunks[..i];
      }
      ChunkingDoesNotMatter(pre);
      LinesConcat(Concat(pre), chunks[n]);
    }
  }

  /** A receive is dropped, and the pending bytes with it, exactly when together they reach 1024 bytes; otherwise
      the complete lines of the pending bytes and the new ones are submitted and the rest stays pending. */
  lemma ReceiveGuard(c: Client, chunk: string)
    ensures |c.buffer| + |chunk| >= 1024 ==> Receive(c, chunk) == Client([], c.submitted)
    ensures |c.buffer| + |chunk| < 1024 ==>
              Receive(c, chunk) == Client(Leftover(c.buffer + chunk), c.submitted + Lines(c.buffer + chunk))
  {}

  lemma ReceiveAllAppend(chunks: seq<string>, chunk: string)
    ensures ReceiveAll(chunks + [chunk]) == Receive(ReceiveAll(chunks), chunk)
    ensures Concat(chunks + [chunk]) == Concat(chunks) + chunk
  {
    assert (chunks + [chunk])[..|chunks|] == chunks;
  }

  /** An overflowing receive forgets what was pending: the receives after it are framed as if they were the
      first ones, and the commands submitted before it stand. */
  lemma {:induction false} OverflowForgets(pre: seq<string>, chunk: string, post: seq<string>)
    requires |ReceiveAll(pre).buffer| + |chunk| >= 1024 && Fits(post)
    ensures ReceiveAll(pre + [chunk] + post)
            == Client(Leftover(Concat(post)), ReceiveAll(pre).submitted + Lines(Concat(post)))
  {
    hide Receive, Lines, Leftover, Fits;
    if post == [] {
      assert pre + [chunk] + post == pre + [chunk];
      ReceiveAllAppend(pre, chunk);
      ReceiveGuard(ReceiveAll(pre), chunk);
      NoLines();
      assert ReceiveAll(pre).submitted + [] == ReceiveAll(pre).submitted;
    } else {
      var n := |post| - 1;
      FitsInit(post);
      OverflowForgets(pre, chunk, post[..n]);
      assert pre + [chunk] + post == (pre + [chunk] + post[..n]) + [post[n]];
      FitsNext(pre + [chunk] + post[..n], post[..n], post[n], ReceiveAll(pre).submitted);
    }
  }

  lemma FitsInit(chunks: seq<string>)
    requires Fits(chunks) && chunks != []
    ensures Fits(chunks[..|chunks| - 1])
    ensures |Leftover(Concat(chunks[..|chunks| - 1]))| + |chunks[|chunks| - 1]| < 1024
  {
    hide Leftover;
    var init := chunks[..|chunks| - 1];
    forall i | 0 <= i < |init| ensures !Overflows(Leftover(Concat(init[..i])), init[i]) {
      assert init[..i] == chunks[..i];
    }
  }

  /** A receive that fits, after receives that left what init leaves over. */
  lemma FitsNext(all: seq<string>, init: seq<string>, last: string, before: seq<string>)
    requires ReceiveAll(all) == Client(Leftover(Concat(init)), before + Lines(Concat(init)))
    requires |Leftover(Concat(init))| + |last| < 1024
    ensures ReceiveAll(all + [last])
            == Client(Leftover(Concat(init) + last), before + Lines(Concat(init) + last))
  {
    hide Receive, Lines, Leftover;
    ReceiveAllAppend(all, last);
    ReceiveGuard(ReceiveAll(all), last);
    LinesConcat(Concat(init), last);
    Assoc(before, Lines(Concat(init)), Lines(Leftover(Concat(init)) + last));
  }

  lemma NoLines()
    ensures Lines([]) == [] && Leftover([]) == []
  {}

  /** Lines sent with "\n" or "\r\n", and then an unfinished one. */
  function Sent(lines: seq<string>, ends: seq<string>, rest: string): string
    requires |ends| == |lines|
  {
    if lines == [] then rest else lines[0] + (ends[0] + Sent(lines[1..], ends[1..], rest))
  }

  ghost predicate Unbroken(s: string) {
    forall i :: 0 <= i < |s| ==> s[i] != '\n' && s[i] != '\0'
  }

  /** What a client sends is what is submitted: each line, whichever way it ends, without its ending; and the
      unfinished line stays pending. */
  lemma {:induction false} SentLines(lines: seq<string>, ends: seq<string>, rest: string)
    requires |ends| == |lines| && Unbroken(rest)
    requires forall i :: 0 <= i < |lines| ==>
               && Unbroken(lines[i]) && (lines[i] == [] || lines[i][|lines[i]| - 1] != '\r')
               && (ends[i] == "\n" || ends[i] == "\r\n")
    ensures Lines(Sent(lines, ends, rest)) == lines && Leftover(Sent(lines, ends, rest)) == rest
  {
    hide HasLine, LineEnd, Strip;
    var s := Sent(lines, ends, rest);
    if lines == [] {
      LineEndIs(rest, |rest|);
      NothingEnds(rest);
    } else {
      var tail := Sent(lines[1..], ends[1..], rest);
      SentLines(lines[1..], ends[1..], rest);
      OneLine(lines[0], ends[0], tail);
      assert [lines[0]] + lines[1..] == lines;
    }
  }

  lemma NothingEnds(s: string)
    requires LineEnd(s) == |s|
    ensures Lines(s) == [] && Leftover(s) == s
  {}

  lemma OneLine(line: string, end: string, tail: string)
    requires Unbroken(line) && (line == [] || line[|line| - 1] != '\r') && (end == "\n" || end == "\r\n")
    ensures var s := line + (end + tail);
            Lines(s) == [line] + Lines(tail) && Leftover(s) == Leftover(tail)
  {
    hide LineEnd, Lines, Leftover, HasLine, Strip;
    var body := line + (if end == "\n" then [] else ['\r']);
    var s := line + (end + tail);
    assert end == (if end == "\n" then [] else ['\r']) + ['\n'];
    Assoc(if end == "\n" then [] else ['\r'], ['\n'], tail);
    Assoc(line, if end == "\n" then [] else ['\r'], ['\n'] + tail);
    assert s == body + (['\n'] + tail);
    Terminated(body, tail);
    StripEnding(line, end == "\n");
    NextLine(s);
  }

  lemma StripEnding(line: string, bare: bool)
    requires line == [] || line[|line| - 1] != '\r'
    ensures Strip(line + (if bare then [] else ['\r'])) == line
  {
    if bare { assert line + [] == line; } else { Split(line, ['\r']); }
  }

  lemma Terminated(body: string, tail: string)
    requires Unbroken(body)
    ensures var s := body + (['\n'] + tail);
            HasLine(s) && LineEnd(s) == |body| && s[..|body|] == body && s[|body| + 1..] == tail
  {
    hide LineEnd;
    var s := body + (['\n'] + tail);
    LineEndIs(s, |body|);
    Split(body, ['\n'] + tail);
    Split(body + ['\n'], tail);
    Assoc(body, ['\n'], tail);
  }

  /** In every run of receives, overflowing or not, each submitted command fits in a task untruncated. */
  lemma {:induction false} CommandsFit(chunks: seq<string>)
    ensures var c := ReceiveAll(chunks);
            && |c.buffer| < BUFFER_SIZE && !HasLine(c.buffer)
            && forall i :: 0 <= i < |c.submitted| ==>
                 NulFree(c.submitted[i]) && NEWLINE !in c.submitted[i] && |c.submitted[i]| <= 1022
  {
    if chunks != [] {
      var pre, chunk := ReceiveAll(chunks[..|chunks| - 1]), chunks[|chunks| - 1];
      CommandsFit(chunks[..|chunks| - 1]);
      LinesClean(pre.buffer + chunk);
    }
  }

  // ---------- the buffer ----------

  lemma NextLine(s: string)
    ensures HasLine(s) ==> LineEnd(s) < |s|
                           && Lines(s) == [Strip(s[..LineEnd(s)])] + Lines(s[LineEnd(s) + 1..])
                           && Leftover(s) == Leftover(s[LineEnd(s) + 1..])
    ensures !HasLine(s) ==> Lines(s) == [] && Leftover(s) == s
  {
    hide LineEnd, Strip;
  }

  lemma StripAt(buf: string, n: nat, m: nat)
    requires n <= |buf| && m == if n > 0 && buf[n - 1] == '\r' then n - 1 else n
    ensures Strip(buf[..n]) == buf[..m]
  {}

  class ClientBuffer {
    var data: array<char>
    var length: nat

    ghost predicate Valid()
      reads this, data
    {
      data.Length == BUFFER_SIZE && length < BUFFER_SIZE && data[length] == NUL
    }

    ghost function Contents(): string
      reads this, data
      requires Valid()
    {
      data[..length]
    }

    constructor ()
      ensures Valid() && fresh(data) && Contents() == []
    {
      data := new char[BUFFER_SIZE](i => NUL);
      length := 0;
    }

    /** strchr(buffer, '\n') */
    method FindNewline() returns (at: nat, found: bool)
      requires Valid()
      ensures at == LineEnd(Contents()) && found == HasLine(Contents())
    {
      at := 0;
      while data[at] != NEWLINE && data[at] != NUL
        invariant at <= length
        invariant forall i :: 0 <= i < at ==> data[i] != NEWLINE && data[i] != NUL
        decreases length - at
      {
        at := at + 1;
      }
      ghost var s := Contents();
      assert at < |s| ==> s[at] == data[at];
      LineEndIs(s, at);
      return at, data[at] == NEWLINE;
    }

    /** memmove the unread part to the front and terminate it. */
    method MoveDown(consumed: nat)
      requires Valid() && consumed <= length
      modifies this, data
      ensures Valid() && data == old(data)
      ensures Contents() == old(Contents())[consumed..]
    {
      ghost var s := Contents();
      var remaining := length - consumed;
      forall i | 0 <= i < remaining { data[i] := data[consumed + i]; }
      assert forall i :: 0 <= i < remaining ==> data[i] == s[consumed + i];
      length := remaining;
      data[remaining] := NUL;
    }

    /** Take the first line out of the buffer: copy it, then move the rest to the front. */
    method TakeLine(at: nat) returns (command: string)
      requires Valid() && at == LineEnd(Contents()) && HasLine(Contents())
      modifies this, data
      ensures Valid() && data == old(data)
      ensures command == Strip(old(Contents())[..at])
      ensures Contents() == old(Contents())[at + 1..]
    {
      hide LineEnd, HasLine;
      ghost var s := Contents();
      NextLine(s);
      var commandLength := at;
      if commandLength > 0 && data[commandLength - 1] == '\r' { commandLength := commandLength - 1; }
      command := data[..][..commandLength];
      assert data[..][..at] == s[..at];
      StripAt(data[..], at, commandLength);
      MoveDown(at + 1);
    }

    /** One receive: submit every complete line, in order; a receive that does not fit empties the buffer. */
    method ReceiveChunk(chunk: string) returns (submitted: seq<string>, rejected: bool)
      requires Valid()
      modifies this, data
      ensures Valid() && data == old(data)
      ensures rejected == (old(|Contents()|) + |chunk| >= 1024)
      ensures rejected ==> Contents() == [] && submitted == []
      ensures Client(Contents(), submitted) == Receive(Client(old(Contents()), []), chunk)
    {
      submitted, rejected := [], false;
      if length + |chunk| >= BUFFER_SIZE {
        length := 0;
        data[0] := NUL;
        return submitted, true;
      }
      forall i | 0 <= i < |chunk| { data[length + i] := chunk[i]; }
      length := length + |chunk|;
      data[length] := NUL;
      ghost var stream := Contents();
      assert stream == old(Contents()) + chunk;
      submitted := TakeLines();
      assert [] + submitted == submitted;
    }

    /** The inner loop: submit lines until no newline is left. */
    method TakeLines() returns (submitted: seq<string>)
      requires Valid()
      modifies this, data
      ensures Valid() && data == old(data)
      ensures submitted == Lines(old(Contents())) && Contents() == Leftover(old(Contents()))
    {
      hide LineEnd, HasLine, Lines, Leftover, Strip;
      ghost var stream := Contents();
      submitted := [];
      assert [] + Lines(stream) == Lines(stream);
      while true
        invariant Valid() && data == old(data)
        invariant submitted + Lines(Contents()) == Lines(stream)
        invariant Leftover(Contents()) == Leftover(stream)
        decreases length
      {
        NextLine(Contents());
        var at, found := FindNewline();
        if !found { assert submitted + [] == submitted; break; }
        var command := TakeLine(at);
        Assoc(submitted, [command], Lines(Contents()));
        submitted := submitted + [command];
      }
    }
  }

  lemma {:induction false} LineEndIs(s: string, n: nat)
    requires n <= |s| && forall i :: 0 <= i < n ==> s[i] != NEWLINE && s[i] != NUL
    requires n < |s| ==> s[n] == NEWLINE || s[n] == NUL
    ensures LineEnd(s) == n
  {}
}
