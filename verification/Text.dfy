/** C strings, character classes, decimal numbers, and the input conversions of the C library that
    the program uses (sections 7.21.6.2 and 7.22.1.4 of ISO/IEC 9899:2018). */
module Text {
  import opened Store

  const NUL: char := '\0'

  ghost predicate NulFree(s: string) {
    forall i :: 0 <= i < |s| ==> s[i] != NUL
  }

  /** The C string stored at the start of s: everything before the first NUL. */
  function CString(s: string): (r: string)
    ensures NulFree(r) && r <= s
    ensures |r| < |s| ==> s[|r|] == NUL
  {
    if s == [] || s[0] == NUL then [] else [s[0]] + CString(s[1..])
  }

  lemma {:induction false} CStringOfNulFree(s: string)
    requires NulFree(s)
    ensures CString(s) == s
  {}

  predicate IsSpace(c: char) {
    c == ' ' || c == '\t' || c == '\n' || c == '\r' || c == '\U{0B}' || c == '\U{0C}'
  }

  predicate IsDigit(c: char) {
    '0' <= c <= '9'
  }

  function ToUpper(c: char): char {
    if 'a' <= c <= 'z' then (c as int - 32) as char else c
  }

  function Upper(s: string): (r: string)
    ensures |r| == |s| && forall i :: 0 <= i < |s| ==> r[i] == ToUpper(s[i])
  {
    seq(|s|, i requires 0 <= i < |s| => ToUpper(s[i]))
  }

  // ---------- decimal numbers ----------

  function Dec(n: nat): (r: string)
    ensures r != [] && forall i :: 0 <= i < |r| ==> IsDigit(r[i])
  {
    if n < 10 then [DigitChar(n)] else Dec(n / 10) + [DigitChar(n % 10)]
  }

  function DigitChar(d: nat): (c: char)
    requires d < 10
    ensures IsDigit(c) && DigitValue(c) == d
  {
    (48 + d) as char
  }

  function DigitValue(c: char): nat
    requires IsDigit(c)
  {
    c as int - 48
  }

  function DecInt(n: int): string {
    if n < 0 then ['-'] + Dec(-n) else Dec(n)
  }

  function Value(digits: string): nat
    requires forall i :: 0 <= i < |digits| ==> IsDigit(digits[i])
  {
    if digits == [] then 0
    else Value(digits[..|digits| - 1]) * 10 + DigitValue(digits[|digits| - 1])
  }

  lemma {:induction false} ValueOfDec(n: nat)
    ensures Value(Dec(n)) == n
  {
    if n >= 10 {
      ValueOfDec(n / 10);
      assert Dec(n)[..|Dec(n)| - 1] == Dec(n / 10);
    }
  }

  /** Numbers are written in base ten, most significant digit first. */
  lemma DecimalText(q: nat, d: nat)
    requires d < 10
    ensures Dec(d) == ["0123456789"[d]]
    ensures q > 0 ==> Dec(10 * q + d) == Dec(q) + Dec(d)
    ensures q > 0 ==> DecInt(0 - q) == "-" + Dec(q)
  {
    assert (10 * q + d) / 10 == q && (10 * q + d) % 10 == d;
    assert "0123456789"[d] == DigitChar(d);
  }

  /** Digits are read in base ten, most significant digit first. */
  lemma DecimalValue(s: string, d: nat)
    requires d < 10 && forall i :: 0 <= i < |s| ==> IsDigit(s[i])
    ensures IsDigit("0123456789"[d]) && Value([]) == 0
    ensures Value(s + ["0123456789"[d]]) == 10 * Value(s) + d
  {
    var t := s + ["0123456789"[d]];
    assert "0123456789"[d] == DigitChar(d);
    assert t[..|t| - 1] == s;
  }

  /** The ten digits and the six white-space characters of the "C" locale. */
  lemma CharacterClasses(c: char)
    ensures IsDigit(c) <==> c in "0123456789"
    ensures IsSpace(c) <==> c in " \t\n\r\U{0B}\U{0C}"
  {
    if IsDigit(c) { assert "0123456789"[c as int - 48] == c; }
  }

  // ---------- input conversions ----------

  function SkipSpace(s: string): (r: string)
    ensures |r| <= |s|
    ensures r == [] || !IsSpace(r[0])
  {
    if s == [] || !IsSpace(s[0]) then s else SkipSpace(s[1..])
  }

  /** The number of digits that s starts with. */
  function Digits(s: string): (n: nat)
    ensures n <= |s| && forall i :: 0 <= i < n ==> IsDigit(s[i])
    ensures n < |s| ==> !IsDigit(s[n])
  {
    if s == [] || !IsDigit(s[0]) then 0 else 1 + Digits(s[1..])
  }

  function ScanDigits(s: string): (r: Option<(nat, string)>)
    ensures r.Some? ==> |r.value.1| < |s|
  {
    var n := Digits(s);
    if n == 0 then None else Some((Value(s[..n]), s[n..]))
  }

  /** An optional sign and as many digits as there are. */
  function ScanSigned(s: string): (r: Option<(int, string)>)
    ensures r.Some? ==> |r.value.1| < |s|
  {
    var signed := s != [] && (s[0] == '-' || s[0] == '+');
    match ScanDigits(if signed then s[1..] else s)
    case None => None
    case Some((v, rest)) => Some((if signed && s[0] == '-' then 0 - v else v, rest))
  }

  /** %lld, %zu and strtoll skip white space first. */
  function ScanInt(s: string): (r: Option<(int, string)>)
    ensures r.Some? ==> |r.value.1| < |s|
  {
    ScanSigned(SkipSpace(s))
  }

  const SIZE_MODULUS: int := 0x1_0000_0000_0000_0000

  /** %zu stores a negative number as the size_t it is congruent to. */
  function ScanSize(s: string): (r: Option<(nat, string)>)
    ensures r.Some? ==> |r.value.1| < |s|
  {
    match ScanInt(s)
    case None => None
    case Some((v, rest)) => Some((if v < 0 then v % SIZE_MODULUS else v, rest))
  }

  /** The number of non-space characters that s starts with, counting at most width of them. */
  function WordLength(s: string, width: nat): (n: nat)
    ensures n <= |s| && n <= width
    ensures forall i :: 0 <= i < n ==> !IsSpace(s[i])
    ensures n < width && n < |s| ==> IsSpace(s[n])
  {
    if s == [] || width == 0 || IsSpace(s[0]) then 0 else 1 + WordLength(s[1..], width - 1)
  }

  /** %<width>s: white space, then up to width non-space characters; None at the end of the input. */
  function ScanWord(s: string, width: nat): (r: Option<(string, string)>)
    requires width > 0
    ensures r.Some? ==> |r.value.1| < |s|
  {
    var s1 := SkipSpace(s);
    if s1 == [] then None
    else
      var n := WordLength(s1, width);
      Some((s1[..n], s1[n..]))
  }

  /** fgetc compared with c; the rest of the input when it matches. */
  function Expect(s: string, c: char): (r: Option<string>)
    ensures r.Some? ==> |r.value| < |s|
  {
    if s != [] && s[0] == c then Some(s[1..]) else None
  }

  /** fread of n bytes; None when fewer are left. */
  function Take(s: string, n: nat): (r: Option<(string, string)>)
    ensures r.Some? ==> |r.value.1| <= |s|
  {
    if n <= |s| then Some((s[..n], s[n..])) else None
  }

  // ---------- concatenations and their prefixes ----------

  lemma Assoc<T>(a: seq<T>, b: seq<T>, c: seq<T>)
    ensures (a + b) + c == a + (b + c)
  {}

  lemma Split(a: string, b: string)
    ensures (a + b)[..|a|] == a && (a + b)[|a|..] == b
  {}

  lemma CutInside(a: string, b: string, c: nat)
    requires c <= |a|
    ensures (a + b)[..c] == a[..c]
  {}

  lemma CutBeyond(a: string, b: string, c: nat)
    requires |a| <= c <= |a| + |b|
    ensures (a + b)[..c] == a + b[..c - |a|]
  {}

  lemma DropInside(a: string, b: string, n: nat)
    requires n <= |a|
    ensures (a + b)[n..] == a[n..] + b
  {}

  lemma Cons(c: char, s: string)
    ensures ([c] + s)[0] == c && ([c] + s)[1..] == s
  {}

  // ---------- scanning what was printed ----------

  lemma {:induction false} DigitsOfPrefix(d: string, rest: string)
    requires forall i :: 0 <= i < |d| ==> IsDigit(d[i])
    requires rest == [] || !IsDigit(rest[0])
    ensures Digits(d + rest) == |d|
  {
    if d == [] {
      assert d + rest == rest;
    } else {
      assert (d + rest)[1..] == d[1..] + rest;
      DigitsOfPrefix(d[1..], rest);
    }
  }

  lemma ScanPrintedNat(n: nat, rest: string)
    requires rest == [] || !IsDigit(rest[0])
    ensures ScanDigits(Dec(n) + rest) == Some((n, rest))
  {
    var d := Dec(n);
    DigitsOfPrefix(d, rest);
    ValueOfDec(n);
    assert (d + rest)[..|d|] == d && (d + rest)[|d|..] == rest;
  }

  lemma {:induction false} SkipPad(pad: string, s: string)
    requires forall i :: 0 <= i < |pad| ==> IsSpace(pad[i])
    requires s != [] && !IsSpace(s[0])
    ensures SkipSpace(pad + s) == s
  {
    if pad == [] {
      assert pad + s == s;
    } else {
      assert (pad + s)[1..] == pad[1..] + s;
      SkipPad(pad[1..], s);
    }
  }

  /** Printing then scanning any integer gives it back, whatever non-digit follows and spaces precede. */
  lemma ScanPrinted(pad: string, n: int, rest: string)
    requires forall i :: 0 <= i < |pad| ==> IsSpace(pad[i])
    requires rest == [] || !IsDigit(rest[0])
    ensures ScanInt(pad + (DecInt(n) + rest)) == Some((n, rest))
  {
    var s := DecInt(n) + rest;
    assert !IsSpace(s[0]);
    SkipPad(pad, s);
    ScanPrintedSigned(n, rest);
  }

  lemma ScanPrintedSigned(n: int, rest: string)
    requires rest == [] || !IsDigit(rest[0])
    ensures ScanSigned(DecInt(n) + rest) == Some((n, rest))
  {
    hide ScanDigits, Dec;
    if n < 0 {
      Assoc(['-'], Dec(-n), rest);
      Cons('-', Dec(-n) + rest);
      ScanPrintedNat(-n, rest);
    } else {
      assert IsDigit((Dec(n) + rest)[0]);
      ScanPrintedNat(n, rest);
    }
  }

  // ---------- whole numerals ----------

  ghost predicate NumeralParts(s: string, pad: string, sign: string, digits: string, n: int) {
    && s == pad + (sign + digits)
    && (forall i :: 0 <= i < |pad| ==> IsSpace(pad[i]))
    && digits != [] && (forall i :: 0 <= i < |digits| ==> IsDigit(digits[i]))
    && (sign == [] || sign == ['+'] || sign == ['-'])
    && n == if sign == ['-'] then 0 - Value(digits) else Value(digits)
  }

  /** White space, an optional sign and digits: a numeral of n and nothing else. */
  ghost predicate Numeral(s: string, n: int) {
    exists pad, sign, digits :: NumeralParts(s, pad, sign, digits, n)
  }

  lemma {:induction false} SkippedIsSpace(s: string) returns (pad: string)
    ensures s == pad + SkipSpace(s) && forall i :: 0 <= i < |pad| ==> IsSpace(pad[i])
  {
    hide IsSpace;
    if s == [] || !IsSpace(s[0]) {
      pad := [];
      assert [] + s == s;
    } else {
      var rest := SkippedIsSpace(s[1..]);
      pad := [s[0]] + rest;
      Assoc([s[0]], rest, SkipSpace(s[1..]));
    }
  }

  lemma DigitsOnly(digits: string)
    requires digits != [] && forall i :: 0 <= i < |digits| ==> IsDigit(digits[i])
    ensures ScanDigits(digits) == Some((Value(digits), []))
  {
    DigitsOfPrefix(digits, []);
    assert digits + [] == digits && digits[..|digits|] == digits;
  }

  lemma ScanParts(s: string, pad: string, sign: string, digits: string, n: int)
    requires NumeralParts(s, pad, sign, digits, n)
    ensures ScanInt(s) == Some((n, []))
  {
    hide ScanSigned, Value;
    SignedParts(sign, digits);
    SkipPad(pad, sign + digits);
  }

  lemma SignedParts(sign: string, digits: string)
    requires sign == [] || sign == ['+'] || sign == ['-']
    requires digits != [] && forall i :: 0 <= i < |digits| ==> IsDigit(digits[i])
    ensures ScanSigned(sign + digits) == Some((if sign == ['-'] then 0 - Value(digits) else Value(digits), []))
    ensures sign + digits != [] && !IsSpace((sign + digits)[0])
  {
    hide ScanDigits, Value;
    DigitsOnly(digits);
    assert IsDigit(digits[0]);
    if sign == [] {
      assert sign + digits == digits;
    } else {
      assert sign == [sign[0]];
      Cons(sign[0], digits);
    }
  }

  lemma WholeParts(s: string, n: int) returns (pad: string, sign: string, digits: string)
    requires ScanInt(s) == Some((n, []))
    ensures NumeralParts(s, pad, sign, digits, n)
  {
    hide SkipSpace, IsSpace, Value;
    pad := SkippedIsSpace(s);
    var s1 := SkipSpace(s);
    var signed := s1 != [] && (s1[0] == '-' || s1[0] == '+');
    sign, digits := if signed then [s1[0]] else [], if signed then s1[1..] else s1;
    assert s1 == sign + digits;
    NothingOver(digits);
  }

  lemma NothingOver(s: string)
    requires ScanDigits(s).Some? && ScanDigits(s).value.1 == []
    ensures s != [] && (forall i :: 0 <= i < |s| ==> IsDigit(s[i])) && ScanDigits(s).value.0 == Value(s)
  {
    assert Digits(s) == |s| && s[..|s|] == s;
  }

  /** A scan that leaves nothing over accepts exactly the numerals. */
  lemma ScanWhole(s: string, n: int)
    ensures ScanInt(s) == Some((n, [])) <==> Numeral(s, n)
  {
    hide ScanInt, NumeralParts;
    if ScanInt(s) == Some((n, [])) {
      var pad, sign, digits := WholeParts(s, n);
    }
    if Numeral(s, n) {
      var pad, sign, digits :| NumeralParts(s, pad, sign, digits, n);
      ScanParts(s, pad, sign, digits, n);
    }
  }
}
