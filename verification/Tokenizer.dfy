/** Splitting a command line into arguments: what the arguments are, and the in-place algorithm that
    terminates them with NULs inside the buffer it is scanning. */
module Tokenizer {
  import opened Store
  import opened Text

  const QUOTE: char := '"'

  /** The number of characters before the first quote. */
  function QuoteIndex(s: string): (n: nat)
    ensures n <= |s| && (forall i :: 0 <= i < n ==> s[i] != QUOTE) && (n < |s| ==> s[n] == QUOTE)
  {
    if s == [] || s[0] == QUOTE then 0 else 1 + QuoteIndex(s[1..])
  }

  /** The first argument of s, which starts with a non-space, and what follows its delimiter; None for an
      opening quote without a closing one. */
  function FirstToken(s: string): (r: Option<(string, string)>)
    requires s != []
    ensures r.Some? ==> |r.value.1| < |s|
  {
    if s[0] == QUOTE then
      var n := QuoteIndex(s[1..]);
      if n < |s| - 1 then Some((s[1..n + 1], s[n + 2..])) else None
    else
      var n := WordLength(s, |s|);
      if n < |s| then Some((s[..n], s[n + 1..])) else Some((s, []))
  }

  function Prepend(ts: seq<string>, r: Option<seq<string>>): Option<seq<string>> {
    if r == None then None else Some(ts + r.value)
  }

  /** The arguments of a command line; None when a quote is not closed or there are more than max. */
  function Tokens(s: string, max: nat): (r: Option<seq<string>>)
    ensures r.Some? ==> |r.value| <= max
    decreases |s|
  {
    var t := SkipSpace(s);
    if t == [] then Some([])
    else if max == 0 then None
    else
      match FirstToken(t)
      case None => None
      case Some((token, rest)) => Prepend([token], Tokens(rest, max - 1))
  }

  // ---------- the buffer ----------

  lemma {:induction false} CStringUntil(s: string, n: nat)
    requires n < |s| && s[n] == NUL && NulFree(s[..n])
    ensures CString(s) == s[..n]
  {}

  /** The unread text at position p of a NUL-terminated buffer. */
  ghost predicate Unread(buf: string, p: nat, rest: string) {
    && p + |rest| < |buf| && buf[p + |rest|] == NUL
    && NulFree(rest) && buf[p..p + |rest|] == rest
  }

  lemma UnreadDrop(buf: string, p: nat, rest: string, n: nat)
    requires Unread(buf, p, rest) && n <= |rest|
    ensures Unread(buf, p + n, rest[n..])
  {}

  /** Skip white space at p. */
  method SkipWhite(input: array<char>, start: nat, ghost rest: string) returns (p: nat)
    requires Unread(input[..], start, rest)
    ensures p == start + |rest| - |SkipSpace(rest)|
    ensures Unread(input[..], p, SkipSpace(rest))
  {
    p := start;
    ghost var r := rest;
    while IsSpace(input[p])
      invariant start <= p <= start + |rest| && r == rest[p - start..]
      invariant Unread(input[..], p, r)
      invariant SkipSpace(r) == SkipSpace(rest)
      decreases |r|
    {
      assert input[..][p..p + |r|] == r;
      UnreadDrop(input[..], p, r, 1);
      p, r := p + 1, r[1..];
    }
    assert input[..][p..p + |r|] == r;
  }

  /** A quoted argument; start is just after the opening quote. */
  method QuotedToken(input: array<char>, start: nat, ghost rest: string) returns (ok: bool, p: nat)
    requires Unread(input[..], start, rest)
    modifies input
    ensures var n := QuoteIndex(rest);
            && ok == (n < |rest|)
            && (!ok ==> input[..] == old(input[..]))
            && (ok ==> p == start + n + 1 && input[..] == old(input[..])[start + n := NUL])
  {
    ghost var before := input[..];
    p := start;
    var out := p;
    while input[p] != NUL && input[p] != QUOTE
      invariant start <= p <= start + |rest| && out == p
      invariant input[..] == before
      invariant forall i :: 0 <= i < p - start ==> rest[i] != QUOTE
      decreases start + |rest| - p
    {
      assert rest[p - start] == before[start..start + |rest|][p - start] by {
        assert p - start < |rest|;
      }
      input[out] := input[p];
      out, p := out + 1, p + 1;
    }
    QuoteIndexIs(before, start, rest, p - start);
    if input[p] != QUOTE { return false, p; }
    input[out] := NUL;
    return true, p + 1;
  }

  lemma QuoteIndexIs(buf: string, start: nat, rest: string, n: nat)
    requires Unread(buf, start, rest) && n <= |rest|
    requires buf[start + n] == NUL || buf[start + n] == QUOTE
    requires forall i :: 0 <= i < n ==> rest[i] != QUOTE
    ensures QuoteIndex(rest) == n && (n < |rest| <==> buf[start + n] == QUOTE)
  {
    assert n < |rest| ==> rest[n] == buf[start..start + |rest|][n];
  }

  /** An unquoted argument. */
  method PlainToken(input: array<char>, start: nat, ghost rest: string) returns (p: nat)
    requires Unread(input[..], start, rest)
    modifies input
    ensures var n := WordLength(rest, |rest|);
            if n < |rest| then p == start + n + 1 && input[..] == old(input[..])[start + n := NUL]
            else p == start + n && input[..] == old(input[..])
  {
    ghost var before := input[..];
    p := start;
    while input[p] != NUL && !IsSpace(input[p])
      invariant start <= p <= start + |rest|
      invariant forall i :: 0 <= i < p - start ==> !IsSpace(rest[i])
      decreases start + |rest| - p
    {
      assert rest[p - start] == before[start..start + |rest|][p - start] by {
        assert p - start < |rest|;
      }
      p := p + 1;
    }
    WordLengthIs(before, start, rest, p - start);
    if input[p] != NUL {
      input[p] := NUL;
      p := p + 1;
    }
  }

  lemma WordLengthIs(buf: string, start: nat, rest: string, n: nat)
    requires Unread(buf, start, rest) && n <= |rest|
    requires buf[start + n] == NUL || IsSpace(buf[start + n])
    requires forall i :: 0 <= i < n ==> !IsSpace(rest[i])
    ensures WordLength(rest, |rest|) == n && (n < |rest| <==> buf[start + n] != NUL)
  {
    assert n < |rest| ==> rest[n] == buf[start..start + |rest|][n];
  }

  /** Argument token occupies the buffer from position at, ended by its own NUL before position p, or by
      the NUL of the whole text when p has reached it. */
  ghost predicate TokenAt(buf: string, at: nat, token: string, p: nat) {
    && Unread(buf, at, token)
    && (at + |token| < p || (at + |token| == p && buf[p] == NUL))
  }

  /** Only delimiters before p have been overwritten, and only by NUL. */
  ghost predicate OnlyDelimiters(before: string, after: string, p: nat) {
    && |before| == |after|
    && forall j :: 0 <= j < |before| && after[j] != before[j] ==>
         j < p && after[j] == NUL && (before[j] == QUOTE || IsSpace(before[j]))
  }

  ghost predicate Disjoint(argv: seq<nat>, tokens: seq<string>)
    requires |argv| == |tokens|
  {
    forall i :: 0 <= i < |argv| - 1 ==> argv[i] + |tokens[i]| < argv[i + 1]
  }

  /** What holds at the head of the loop, with p at the unread text rest and the tokens done so far. */
  ghost predicate Progress(before: string, buf: string, text: string, max: nat,
                           p: nat, rest: string, argv: seq<nat>, done: seq<string>)
  {
    && Unread(buf, p, rest) && p + |rest| == |text| < |before| && OnlyDelimiters(before, buf, p)
    && |argv| == |done| <= max && Disjoint(argv, done)
    && (forall i :: 0 <= i < |argv| ==> TokenAt(buf, argv[i], done[i], p))
    && Tokens(text, max) == Prepend(done, Tokens(rest, max - |done|))
  }

  lemma TextUnread(before: string, max: nat)
    requires |CString(before)| < |before|
    ensures Progress(before, before, CString(before), max, 0, CString(before), [], [])
  {
    hide Tokens;
    var r := Tokens(CString(before), max);
    if r.Some? { assert [] + r.value == r.value; }
  }

  lemma ProgressFacts(before: string, buf: string, text: string, max: nat, p: nat, rest: string,
                      argv: seq<nat>, done: seq<string>)
    requires Progress(before, buf, text, max, p, rest, argv, done)
    ensures Unread(buf, p, rest) && p + |rest| == |text| && |argv| == |done| <= max
    ensures Disjoint(argv, done) && forall i :: 0 <= i < |argv| ==> Unread(buf, argv[i], done[i])
    ensures rest == [] <==> buf[p] == NUL
    ensures Tokens(text, max) == Prepend(done, Tokens(rest, max - |done|))
    ensures OnlyDelimiters(before, buf, |text|)
  {
    hide Tokens, Disjoint;
  }

  lemma NotClosed(t: string)
    requires t != [] && t[0] == QUOTE && QuoteIndex(t[1..]) == |t| - 1
    ensures FirstToken(t) == None
  {}

  lemma NothingLeft(done: seq<string>, max: nat)
    ensures Prepend(done, Tokens([], max)) == Some(done)
  {
    assert done + [] == done;
  }

  lemma SkipSpaceAgain(s: string)
    ensures SkipSpace(SkipSpace(s)) == SkipSpace(s)
  {}

  lemma ProgressSkip(before: string, buf: string, text: string, max: nat, p: nat, rest: string,
                     argv: seq<nat>, done: seq<string>)
    requires Progress(before, buf, text, max, p, rest, argv, done)
    requires Unread(buf, p + |rest| - |SkipSpace(rest)|, SkipSpace(rest))
    ensures Progress(before, buf, text, max, p + |rest| - |SkipSpace(rest)|, SkipSpace(rest), argv, done)
    ensures SkipSpace(rest) == [] <==> buf[p + |rest| - |SkipSpace(rest)|] == NUL
  {
    hide FirstToken, SkipSpace, Disjoint;
    SkipSpaceAgain(rest);
    var t, p' := SkipSpace(rest), p + |rest| - |SkipSpace(rest)|;
    assert t != [] ==> t[0] == buf[p'..p' + |t|][0];
  }

  /** What the next token does to the buffer: at most its delimiter is overwritten, and the rest of the text
      starts just after it. */
  ghost predicate Advance(mid: string, after: string, p: nat, t: string, at: nat, p': nat, token: string, rest: string) {
    && Unread(after, at, token) && Unread(after, p', rest) && TokenAt(after, at, token, p')
    && p <= at && p' + |rest| == p + |t| && at + |token| < |mid|
    && (after == mid || (after == mid[at + |token| := NUL] && at + |token| < p'
                         && (mid[at + |token|] == QUOTE || IsSpace(mid[at + |token|]))))
  }

  lemma QuotedAdvance(mid: string, after: string, p: nat, t: string)
    requires Unread(mid, p, t) && t != [] && t[0] == QUOTE
    requires var n := QuoteIndex(t[1..]); n < |t| - 1 && after == mid[p + 1 + n := NUL]
    ensures FirstToken(t).Some?
    ensures Advance(mid, after, p, t, p + 1, p + QuoteIndex(t[1..]) + 2, FirstToken(t).value.0, FirstToken(t).value.1)
  {
    var n := QuoteIndex(t[1..]);
    SubText(mid, after, p, t, 1, n + 1);
    SubText(mid, after, p, t, n + 2, |t|);
    CharAt(mid, p, t, n + 1);
  }

  lemma SubText(mid: string, after: string, p: nat, t: string, a: nat, b: nat)
    requires Unread(mid, p, t) && a <= b <= |t| && |after| == |mid|
    requires forall i :: p + a <= i < p + b ==> after[i] == mid[i]
    ensures after[p + a..p + b] == t[a..b] && NulFree(t[a..b])
    ensures after[p + b] == NUL ==> Unread(after, p + a, t[a..b])
  {
    forall i | a <= i < b ensures mid[p + i] == t[i] { CharAt(mid, p, t, i); }
    forall i | 0 <= i < b - a ensures after[p + a..p + b][i] == t[a..b][i] {
      assert after[p + (a + i)] == mid[p + (a + i)];
    }
  }

  lemma CharAt(buf: string, p: nat, t: string, i: nat)
    requires Unread(buf, p, t) && i < |t|
    ensures buf[p + i] == t[i]
  {}

  lemma PlainFirst(t: string)
    requires t != [] && t[0] != QUOTE
    ensures var n := WordLength(t, |t|);
            FirstToken(t) == if n < |t| then Some((t[0..n], t[n + 1..|t|])) else Some((t, []))
  {
    hide WordLength;
    var n := WordLength(t, |t|);
    assert n < |t| ==> t[0..n] == t[..n] && t[n + 1..|t|] == t[n + 1..];
  }

  lemma PlainAdvance(mid: string, after: string, p: nat, t: string, p': nat)
    requires Unread(mid, p, t) && t != [] && t[0] != QUOTE
    requires var n := WordLength(t, |t|);
             if n < |t| then p' == p + n + 1 && after == mid[p + n := NUL] else p' == p + n && after == mid
    ensures FirstToken(t).Some?
    ensures Advance(mid, after, p, t, p, p', FirstToken(t).value.0, FirstToken(t).value.1)
  {
    hide WordLength, FirstToken, Advance;
    PlainFirst(t);
    if WordLength(t, |t|) < |t| {
      PlainEndsInside(mid, after, p, t, WordLength(t, |t|));
    } else {
      PlainEndsText(mid, p, t);
    }
  }

  lemma PlainEndsInside(mid: string, after: string, p: nat, t: string, n: nat)
    requires Unread(mid, p, t) && n < |t| && after == mid[p + n := NUL] && IsSpace(t[n])
    ensures Advance(mid, after, p, t, p, p + n + 1, t[0..n], t[n + 1..|t|])
  {
    SubText(mid, after, p, t, 0, n);
    SubText(mid, after, p, t, n + 1, |t|);
    CharAt(mid, p, t, n);
  }

  lemma PlainEndsText(mid: string, p: nat, t: string)
    requires Unread(mid, p, t)
    ensures Advance(mid, mid, p, t, p, p + |t|, t, [])
  {
    assert mid[p + |t|..p + |t|] == [];
  }

  /** Overwriting one delimiter leaves every argument that ends before it in place. */
  lemma TokenStays(mid: string, after: string, at: nat, token: string, p: nat, p': nat, q: nat)
    requires p < |mid| && TokenAt(mid, at, token, p) && mid[p] != NUL && p <= q && p <= p'
    requires after == mid || (q < |mid| && after == mid[q := NUL])
    ensures TokenAt(after, at, token, p')
  {}

  lemma ProgressToken(before: string, mid: string, after: string, text: string, max: nat, p: nat, t: string,
                      argv: seq<nat>, done: seq<string>, at: nat, p': nat)
    requires Progress(before, mid, text, max, p, t, argv, done)
    requires t != [] && SkipSpace(t) == t && |done| < max && FirstToken(t).Some?
    requires Advance(mid, after, p, t, at, p', FirstToken(t).value.0, FirstToken(t).value.1)
    ensures Progress(before, after, text, max, p', FirstToken(t).value.1, argv + [at], done + [FirstToken(t).value.0])
  {
    hide FirstToken, SkipSpace;
    var (token, rest) := FirstToken(t).value;
    assert mid[p] == mid[p..p + |t|][0];
    forall i | 0 <= i < |argv| ensures TokenAt(after, argv[i], done[i], p') && argv[i] + |done[i]| < p {
      TokenStays(mid, after, argv[i], done[i], p, p', at + |token|);
    }
    TokensNext(t, max - |done|);
    var r := Tokens(rest, max - |done| - 1);
    if r.Some? { assert done + ([token] + r.value) == (done + [token]) + r.value; }
    assert Disjoint(argv + [at], done + [token]);
    assert OnlyDelimiters(before, after, p');
  }

  lemma TokensNext(t: string, max: nat)
    requires SkipSpace(t) == t
    ensures t == [] ==> Tokens(t, max) == Some([])
    ensures t != [] && (max == 0 || FirstToken(t) == None) ==> Tokens(t, max) == None
    ensures t != [] && max > 0 && FirstToken(t).Some? ==>
              Tokens(t, max) == Prepend([FirstToken(t).value.0], Tokens(FirstToken(t).value.1, max - 1))
  {
    hide FirstToken;
  }

  /** The argument at p: quoted or plain. */
  method NextToken(input: array<char>, p: nat, ghost t: string) returns (ok: bool, at: nat, p': nat)
    requires Unread(input[..], p, t) && t != []
    modifies input
    ensures ok == FirstToken(t).Some?
    ensures !ok ==> input[..] == old(input[..])
    ensures ok ==> Advance(old(input[..]), input[..], p, t, at, p', FirstToken(t).value.0, FirstToken(t).value.1)
  {
    hide FirstToken, Unread, Advance;
    ghost var mid := input[..];
    UnreadDrop(mid, p, t, 1);
    CharAt(mid, p, t, 0);
    if input[p] == QUOTE {
      at := p + 1;
      ok, p' := QuotedToken(input, at, t[1..]);
      if !ok { NotClosed(t); return; }
      QuotedAdvance(mid, input[..], p, t);
    } else {
      ok, at := true, p;
      p' := PlainToken(input, at, t);
      PlainAdvance(mid, input[..], p, t, p');
    }
  }

  /** parse_command: argc is -1 exactly when the text has no token sequence; otherwise argv holds the places
      where the tokens now stand, NUL-terminated and apart from each other, in the buffer itself. */
  method ParseCommand(input: array<char>, maxArgs: nat) returns (argc: int, argv: seq<nat>)
    requires |CString(input[..])| < input.Length
    modifies input
    ensures match Tokens(CString(old(input[..])), maxArgs)
            case None => argc == -1
            case Some(ts) =>
              && argc == |ts| == |argv| && Disjoint(argv, ts)
              && forall i :: 0 <= i < argc ==> Unread(input[..], argv[i], ts[i])
    ensures OnlyDelimiters(old(input[..]), input[..], |CString(old(input[..]))|)
  {
    hide Tokens, FirstToken, CString, SkipSpace, Progress, Disjoint;
    ghost var before, text := input[..], CString(input[..]);
    ghost var rest, done: seq<string> := text, [];
    var p: nat := 0;
    argc, argv := 0, [];
    TextUnread(before, maxArgs);
    while input[p] != NUL
      invariant p < input.Length && argc == |argv|
      invariant Progress(before, input[..], text, maxArgs, p, rest, argv, done)
      decreases |rest|
    {
      ProgressFacts(before, input[..], text, maxArgs, p, rest, argv, done);
      ghost var t, p0 := SkipSpace(rest), p;
      p := SkipWhite(input, p, rest);
      ProgressSkip(before, input[..], text, maxArgs, p0, rest, argv, done);
      ProgressFacts(before, input[..], text, maxArgs, p, t, argv, done);
      SkipSpaceAgain(rest);
      rest := t;
      if input[p] == NUL { break; }
      TokensNext(t, maxArgs - argc);
      if argc >= maxArgs { return -1, argv; }
      ghost var mid, p1 := input[..], p;
      var at: nat, ok;
      ok, at, p := NextToken(input, p, t);
      if !ok { return -1, argv; }
      ProgressToken(before, mid, input[..], text, maxArgs, p1, t, argv, done, at, p);
      rest := FirstToken(t).value.1;
      done := done + [FirstToken(t).value.0];
      argv := argv + [at];
      argc := argc + 1;
      ProgressFacts(before, input[..], text, maxArgs, p, rest, argv, done);
    }
    ProgressFacts(before, input[..], text, maxArgs, p, rest, argv, done);
    NothingLeft(done, maxArgs - argc);
  }

  // ---------- what the arguments of a text can be ----------

  lemma {:induction false} SkipSpaceNulFree(s: string)
    requires NulFree(s)
    ensures NulFree(SkipSpace(s))
  {
    if s != [] && IsSpace(s[0]) { SkipSpaceNulFree(s[1..]); }
  }

  lemma FirstTokenNulFree(t: string)
    requires NulFree(t) && t != [] && FirstToken(t).Some?
    ensures NulFree(FirstToken(t).value.0) && NulFree(FirstToken(t).value.1)
  {
    hide WordLength, QuoteIndex;
  }

  lemma {:induction false} TokensNulFree(s: string, max: nat)
    requires NulFree(s)
    ensures var r := Tokens(s, max); r.Some? ==> forall i :: 0 <= i < |r.value| ==> NulFree(r.value[i])
    decreases |s|
  {
    hide FirstToken, SkipSpace, NulFree;
    var t := SkipSpace(s);
    SkipSpaceNulFree(s);
    if t != [] && max > 0 && FirstToken(t).Some? {
      FirstTokenNulFree(t);
      TokensNulFree(FirstToken(t).value.1, max - 1);
    }
  }

  lemma TokensNonEmpty(s: string, max: nat)
    ensures var r := Tokens(s, max); r.Some? && r.value != [] ==>
              var t := SkipSpace(s);
              t != [] && max > 0 && FirstToken(t).Some?
              && r.value[0] == FirstToken(t).value.0
              && Tokens(FirstToken(t).value.1, max - 1) == Some(r.value[1..])
              && |s| >= |r.value[0]| + |FirstToken(t).value.1|
              && (|r.value| > 1 ==> |s| >= |FirstToken(t).value.1| + 2 && |s| >= |FirstToken(t).value.1| + |r.value[0]| + 1)
  {}

  lemma SkipNothing()
    ensures SkipSpace([]) == []
  {}

  /** The third of three or more arguments is at least |first| + 3 characters shorter than the text. */
  lemma ThirdTokenFits(s: string, max: nat)
    requires Tokens(s, max).Some? && |Tokens(s, max).value| >= 3
    ensures |Tokens(s, max).value[2]| + |Tokens(s, max).value[0]| + 3 <= |s|
  {
    hide FirstToken, SkipSpace, Tokens;
    TokensNonEmpty(s, max);
    var ts := Tokens(s, max).value;
    var s1 := FirstToken(SkipSpace(s)).value.1;
    TokensNonEmpty(s1, max - 1);
    var s2 := FirstToken(SkipSpace(s1)).value.1;
    TokensNonEmpty(s2, max - 2);
    assert ts[1..][1..][0] == ts[2];
  }

  // ---------- quoting ----------

  /** The arguments, each in quotes, separated by spaces. */
  function Quoted(args: seq<string>): string {
    if args == [] then []
    else [QUOTE] + (args[0] + ([QUOTE] + (if |args| == 1 then [] else [' '] + Quoted(args[1..]))))
  }

  lemma {:induction false} QuoteIndexOf(a: string, rest: string)
    requires forall i :: 0 <= i < |a| ==> a[i] != QUOTE
    ensures QuoteIndex(a + ([QUOTE] + rest)) == |a|
  {
    if a == [] {
      assert a + ([QUOTE] + rest) == [QUOTE] + rest;
    } else {
      assert (a + ([QUOTE] + rest))[1..] == a[1..] + ([QUOTE] + rest);
      QuoteIndexOf(a[1..], rest);
    }
  }

  /** Quoting any quote-free arguments, including empty ones and ones with spaces, and joining them with
      spaces parses back to them. */
  lemma {:induction false} QuotedRoundTrip(args: seq<string>, max: nat)
    requires |args| <= max
    requires forall i, j :: 0 <= i < |args| && 0 <= j < |args[i]| ==> args[i][j] != QUOTE
    ensures Tokens(Quoted(args), max) == Some(args)
  {
    hide FirstToken, QuoteIndex;
    if args != [] {
      var a := args[0];
      var rest := if |args| == 1 then [] else [' '] + Quoted(args[1..]);
      FirstTokenQuoted(a, rest);
      QuotedRoundTrip(args[1..], max - 1);
      if |args| > 1 {
        TokensAfterSpace(Quoted(args[1..]), max - 1);
      } else {
        SkipNothing();
        assert args[1..] == [];
      }
      assert [a] + args[1..] == args;
    }
  }

  lemma FirstTokenQuoted(a: string, rest: string)
    requires forall i :: 0 <= i < |a| ==> a[i] != QUOTE
    ensures var s := [QUOTE] + (a + ([QUOTE] + rest)); SkipSpace(s) == s && FirstToken(s) == Some((a, rest))
  {
    var s := [QUOTE] + (a + ([QUOTE] + rest));
    Cons(QUOTE, a + ([QUOTE] + rest));
    QuoteIndexOf(a, rest);
    assert s[1..|a| + 1] == a;
    assert s[|a| + 2..] == rest;
  }

  lemma TokensAfterSpace(s: string, max: nat)
    ensures Tokens([' '] + s, max) == Tokens(s, max)
  {
    hide FirstToken;
  }

  /** With more arguments than max nothing parses. */
  lemma {:induction false} QuotedTooMany(args: seq<string>, max: nat)
    requires |args| > max
    requires forall i, j :: 0 <= i < |args| && 0 <= j < |args[i]| ==> args[i][j] != QUOTE
    ensures Tokens(Quoted(args), max) == None
  {
    hide FirstToken, QuoteIndex;
    var a := args[0];
    var rest := if |args| == 1 then [] else [' '] + Quoted(args[1..]);
    FirstTokenQuoted(a, rest);
    if max > 0 {
      QuotedTooMany(args[1..], max - 1);
      TokensAfterSpace(Quoted(args[1..]), max - 1);
    }
  }

  /** The arguments, each in quotes and followed by a space, then a quote that is never closed. */
  function Unclosed(args: seq<string>, last: string): string {
    if args == [] then [QUOTE] + last
    else [QUOTE] + (args[0] + ([QUOTE] + ([' '] + Unclosed(args[1..], last))))
  }

  /** A quote that is not closed makes the whole line invalid, whatever comes before it. */
  lemma {:induction false} UnclosedQuote(args: seq<string>, last: string, max: nat)
    requires forall i, j :: 0 <= i < |args| && 0 <= j < |args[i]| ==> args[i][j] != QUOTE
    requires forall j :: 0 <= j < |last| ==> last[j] != QUOTE
    ensures Tokens(Unclosed(args, last), max) == None
  {
    hide FirstToken, QuoteIndex;
    if args == [] {
      NothingCloses(last);
    } else {
      FirstTokenQuoted(args[0], [' '] + Unclosed(args[1..], last));
      if max > 0 {
        UnclosedQuote(args[1..], last, max - 1);
        TokensAfterSpace(Unclosed(args[1..], last), max - 1);
      }
    }
  }

  lemma NothingCloses(last: string)
    requires forall j :: 0 <= j < |last| ==> last[j] != QUOTE
    ensures var s := [QUOTE] + last; SkipSpace(s) == s && FirstToken(s) == None
  {
    Cons(QUOTE, last);
  }

  // ---------- arguments without quotes ----------

  ghost predicate Gap(s: string) {
    forall i :: 0 <= i < |s| ==> s[i] in " \t\n\r\U{0B}\U{0C}"
  }

  ghost predicate Word(s: string) {
    s != [] && s[0] != '"' && forall i :: 0 <= i < |s| ==> s[i] !in " \t\n\r\U{0B}\U{0C}"
  }

  /** Words with white space around them; gap i comes before word i, and the last gap after the last word. */
  function Spaced(words: seq<string>, gaps: seq<string>): string
    requires |gaps| == |words| + 1
  {
    if words == [] then gaps[0] else gaps[0] + (words[0] + Spaced(words[1..], gaps[1..]))
  }

  ghost predicate Separated(words: seq<string>, gaps: seq<string>) {
    && |gaps| == |words| + 1
    && (forall i :: 0 <= i < |words| ==> Word(words[i]))
    && (forall i :: 0 <= i < |gaps| ==> Gap(gaps[i]))
    && (forall i :: 0 < i < |words| ==> gaps[i] != [])
  }

  lemma GapIsSpace(s: string)
    ensures Gap(s) ==> forall i :: 0 <= i < |s| ==> IsSpace(s[i])
    ensures Word(s) ==> forall i :: 0 <= i < |s| ==> !IsSpace(s[i])
  {
    forall i | 0 <= i < |s| ensures IsSpace(s[i]) <==> s[i] in " \t\n\r\U{0B}\U{0C}" { CharacterClasses(s[i]); }
  }

  /** Words separated by any white space are the arguments; with more of them than max nothing parses. */
  lemma {:induction false} WordsRoundTrip(words: seq<string>, gaps: seq<string>, max: nat)
    requires Separated(words, gaps)
    ensures Tokens(Spaced(words, gaps), max) == if |words| <= max then Some(words) else None
  {
    hide FirstToken, IsSpace, Word, Gap;
    GapIsSpace(gaps[0]);
    if words == [] {
      SkipAll(gaps[0]);
    } else {
      var word, rest := words[0], Spaced(words[1..], gaps[1..]);
      GapIsSpace(word);
      WordStarts(word);
      SkipPad(gaps[0], word + rest);
      RestStarts(words[1..], gaps[1..]);
      FirstWord(word, rest);
      if max > 0 {
        WordsRoundTrip(words[1..], gaps[1..], max - 1);
        if rest != [] { TokensAfterBlank(rest, max - 1); }
        assert [word] + words[1..] == words;
      }
    }
  }

  lemma WordStarts(word: string)
    requires Word(word)
    ensures word != [] && word[0] != QUOTE && !IsSpace(word[0])
  {
    CharacterClasses(word[0]);
  }

  lemma {:induction false} SkipAll(s: string)
    requires forall i :: 0 <= i < |s| ==> IsSpace(s[i])
    ensures SkipSpace(s) == []
  {
    if s != [] { SkipAll(s[1..]); }
  }

  lemma RestStarts(words: seq<string>, gaps: seq<string>)
    requires |gaps| == |words| + 1 && Gap(gaps[0]) && (words != [] ==> gaps[0] != [])
    ensures var rest := Spaced(words, gaps); rest == [] || IsSpace(rest[0])
  {
    GapIsSpace(gaps[0]);
  }

  lemma FirstWord(word: string, rest: string)
    requires word != [] && word[0] != QUOTE && forall i :: 0 <= i < |word| ==> !IsSpace(word[i])
    requires rest == [] || IsSpace(rest[0])
    ensures FirstToken(word + rest) == Some((word, if rest == [] then [] else rest[1..]))
  {
    hide IsSpace;
    var s := word + rest;
    WordLengthOf(word, rest, |s|);
    Split(word, rest);
    if rest == [] { assert s == word; } else { assert s[|word| + 1..] == rest[1..]; }
  }

  lemma {:induction false} WordLengthOf(word: string, rest: string, width: nat)
    requires |word| <= width && forall i :: 0 <= i < |word| ==> !IsSpace(word[i])
    requires rest == [] || IsSpace(rest[0])
    ensures WordLength(word + rest, width) == |word|
  {
    hide IsSpace;
    if word == [] {
      assert word + rest == rest;
    } else {
      assert (word + rest)[1..] == word[1..] + rest;
      WordLengthOf(word[1..], rest, width - 1);
    }
  }

  lemma TokensAfterBlank(s: string, max: nat)
    requires s != [] && IsSpace(s[0])
    ensures Tokens(s[1..], max) == Tokens(s, max)
  {
    hide FirstToken;
  }
}
