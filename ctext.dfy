/** The small piece of the C library the server leans on: NUL-terminated
    strings, strstr(_, "\r\n"), the scanf conversions %s and %[^...], the
    whitespace-skipping directive, and printf's %d / %zu decimal output.
    Bytes are modelled as `char`. */
module CText {

  datatype Option<T> = None | Some(value: T)

  const CR: char := '\r'
  const LF: char := '\n'
  const NUL: char := '\0'
  const CRLF: seq<char> := "\r\n"

  /** The server's two buffer sizes: the request buffer and its word buffers, and
      the header-line, name, value and formatted-header buffers. */
  const MAX_BUFFER_SIZE: nat := 4096
  const MAX_HEADER_SIZE: nat := 1024

  /** isspace() in the C locale. */
  predicate IsSpace(c: char) {
    c == ' ' || c == '\t' || c == '\n' || c == '\U{000B}' || c == '\U{000C}' || c == '\r'
  }

  predicate NoNul(s: seq<char>) {
    forall i :: 0 <= i < |s| ==> s[i] != NUL
  }

  lemma NoNulIsNotIn(s: seq<char>)
    ensures NoNul(s) <==> NUL !in s
  {
    if NUL in s {
      var i :| 0 <= i < |s| && s[i] == NUL;
    }
  }

  predicate AllSpaces(s: seq<char>) {
    forall i :: 0 <= i < |s| ==> IsSpace(s[i])
  }

  predicate NoSpaces(s: seq<char>) {
    forall i :: 0 <= i < |s| ==> !IsSpace(s[i])
  }

  /** The C string held in a buffer: everything before its first NUL. */
  function CString(buf: seq<char>): (s: seq<char>)
    ensures NoNul(s) && |s| <= |buf|
    ensures s == buf[..|s|]
    ensures |s| == |buf| || buf[|s|] == NUL
    ensures NoNul(buf) ==> s == buf
  {
    if buf == [] || buf[0] == NUL then [] else [buf[0]] + CString(buf[1..])
  }

  // ---------------------------------------------------------------------
  // strstr(s, "\r\n")

  predicate CrlfAt(s: seq<char>, j: int) {
    0 <= j && j + 1 < |s| && s[j] == CR && s[j + 1] == LF
  }

  predicate HasNoCrlf(s: seq<char>) {
    forall j :: 0 <= j < |s| ==> !CrlfAt(s, j)
  }

  /** Index of the first "\r\n" in `s`, or None (strstr returning NULL). */
  function FindCrlf(s: seq<char>): (r: Option<nat>)
    ensures r.Some? ==> r.value + 2 <= |s|
  {
    if |s| < 2 then None
    else if s[0] == CR && s[1] == LF then Some(0)
    else
      match FindCrlf(s[1..])
      case None => None
      case Some(i) => Some(i + 1)
  }

  /** FindCrlf finds the first "\r\n", and returns None exactly when there is none. */
  lemma {:induction false} FindCrlfProps(s: seq<char>)
    ensures FindCrlf(s).Some? ==> CrlfAt(s, FindCrlf(s).value)
    ensures FindCrlf(s).Some? ==> forall j :: 0 <= j < FindCrlf(s).value ==> !CrlfAt(s, j)
    ensures FindCrlf(s).None? <==> HasNoCrlf(s)
  {
    if |s| >= 2 && !(s[0] == CR && s[1] == LF) {
      CrlfShift(s);
      FindCrlfProps(s[1..]);
    } else if |s| >= 2 {
      assert CrlfAt(s, 0);
    }
  }

  lemma CrlfShift(s: seq<char>)
    requires s != []
    ensures forall j :: 0 <= j ==> (CrlfAt(s[1..], j) <==> CrlfAt(s, j + 1))
    ensures forall j :: 1 <= j ==> (CrlfAt(s, j) <==> CrlfAt(s[1..], j - 1))
  {
  }

  /** A line free of "\r\n" followed by "\r\n": the first terminator is the one after the line. */
  lemma FindCrlfAfterLine(line: seq<char>, rest: seq<char>)
    requires HasNoCrlf(line)
    ensures FindCrlf(line + CRLF + rest) == Some(|line|)
  {
    var s := line + CRLF + rest;
    FindCrlfProps(s);
    assert CrlfAt(s, |line|);
    forall j | 0 <= j < |line| ensures !CrlfAt(s, j) {
      if j + 1 < |line| {
        assert !CrlfAt(line, j);
      } else {
        assert s[j + 1] == CR;
      }
    }
  }

  // ---------------------------------------------------------------------
  // scanf conversions

  /** The scan-set conversion %[^stops] without a field width: the longest
      prefix none of whose characters is in `stops`. */
  function Span(s: seq<char>, stops: set<char>): (r: seq<char>)
    ensures |r| <= |s|
  {
    if s == [] || s[0] in stops then [] else [s[0]] + Span(s[1..], stops)
  }

  lemma {:induction false} SpanProps(s: seq<char>, stops: set<char>)
    ensures Span(s, stops) == s[..|Span(s, stops)|]
    ensures forall i :: 0 <= i < |Span(s, stops)| ==> s[i] !in stops
    ensures |Span(s, stops)| == |s| || s[|Span(s, stops)|] in stops
  {
    if s != [] && s[0] !in stops {
      SpanProps(s[1..], stops);
    }
  }

  /** A prefix with no stop character, followed by a stop character or by nothing, is what %[^stops] reads. */
  lemma {:induction false} SpanOf(w: seq<char>, rest: seq<char>, stops: set<char>)
    requires forall i :: 0 <= i < |w| ==> w[i] !in stops
    requires rest == [] || rest[0] in stops
    ensures Span(w + rest, stops) == w
  {
    if w != [] {
      assert (w + rest)[1..] == w[1..] + rest;
      SpanOf(w[1..], rest, stops);
    }
  }

  /** A whitespace directive in a scanf format: skips zero or more isspace() characters. */
  function SkipSpaces(s: seq<char>): (r: seq<char>)
    ensures |r| <= |s|
  {
    if s != [] && IsSpace(s[0]) then SkipSpaces(s[1..]) else s
  }

  lemma {:induction false} SkipSpacesProps(s: seq<char>)
    ensures SkipSpaces(s) == s[|s| - |SkipSpaces(s)|..]
    ensures forall i :: 0 <= i < |s| - |SkipSpaces(s)| ==> IsSpace(s[i])
    ensures SkipSpaces(s) == [] || !IsSpace(SkipSpaces(s)[0])
  {
    if s != [] && IsSpace(s[0]) {
      SkipSpacesProps(s[1..]);
    }
  }

  lemma {:induction false} SkipSpacesOf(ws: seq<char>, rest: seq<char>)
    requires AllSpaces(ws)
    requires rest == [] || !IsSpace(rest[0])
    ensures SkipSpaces(ws + rest) == rest
  {
    if ws != [] {
      assert (ws + rest)[1..] == ws[1..] + rest;
      SkipSpacesOf(ws[1..], rest);
    }
  }

  /** The characters %s stores once leading whitespace is skipped: the longest prefix without whitespace. */
  function Word(s: seq<char>): (r: seq<char>)
    ensures |r| <= |s|
  {
    if s == [] || IsSpace(s[0]) then [] else [s[0]] + Word(s[1..])
  }

  lemma {:induction false} WordProps(s: seq<char>)
    ensures Word(s) == s[..|Word(s)|]
    ensures forall i :: 0 <= i < |Word(s)| ==> !IsSpace(s[i])
    ensures |Word(s)| == |s| || IsSpace(s[|Word(s)|])
  {
    if s != [] && !IsSpace(s[0]) {
      WordProps(s[1..]);
    }
  }

  lemma {:induction false} WordOf(w: seq<char>, rest: seq<char>)
    requires NoSpaces(w)
    requires rest == [] || IsSpace(rest[0])
    ensures Word(w + rest) == w
  {
    if w != [] {
      assert (w + rest)[1..] == w[1..] + rest;
      WordOf(w[1..], rest);
    }
  }

  // ---------------------------------------------------------------------
  // printf's %d and %zu, and reading decimals back

  predicate IsDigit(c: char) {
    '0' <= c <= '9'
  }

  predicate AllDigits(s: seq<char>) {
    forall i :: 0 <= i < |s| ==> IsDigit(s[i])
  }

  function DigitChar(d: nat): (c: char)
    requires d < 10
    ensures IsDigit(c) && (c as int) - ('0' as int) == d
  {
    ('0' as int + d) as char
  }

  function DigitValue(c: char): nat
    requires IsDigit(c)
  {
    (c as int) - ('0' as int)
  }

  /** Decimal digits of a natural number, most significant first, no leading zeros. */
  function Digits(n: nat): (s: seq<char>)
    ensures |s| >= 1 && AllDigits(s)
    ensures |s| > 1 ==> s[0] != '0'
  {
    if n < 10 then [DigitChar(n)] else Digits(n / 10) + [DigitChar(n % 10)]
  }

  /** The value of a run of decimal digits. */
  function DigitsValue(s: seq<char>): nat
    requires AllDigits(s)
  {
    if s == [] then 0 else 10 * DigitsValue(s[..|s| - 1]) + DigitValue(s[|s| - 1])
  }

  lemma {:induction false} DigitsValueOfDigits(n: nat)
    ensures DigitsValue(Digits(n)) == n
  {
    var s := Digits(n);
    if n >= 10 {
      assert s[..|s| - 1] == Digits(n / 10);
      DigitsValueOfDigits(n / 10);
    }
  }

  function Pow10(k: nat): nat {
    if k == 0 then 1 else 10 * Pow10(k - 1)
  }

  /** A number below 10^k has at most k digits. */
  lemma {:induction false} DigitsBound(n: nat, k: nat)
    requires 1 <= k && n < Pow10(k)
    ensures |Digits(n)| <= k
  {
    if n >= 10 {
      assert k >= 2;
      assert n / 10 < Pow10(k - 1);
      DigitsBound(n / 10, k - 1);
    }
  }

  /** printf's %d (and %zu for non-negative values). */
  function FormatInt(n: int): (s: seq<char>)
    ensures s != [] && NoNul(s) && NoSpaces(s) && CR !in s && LF !in s
  {
    if n < 0 then "-" + Digits(-n) else Digits(n)
  }

  /** Reads an optionally negative decimal integer that makes up the whole of `s`. */
  function ParseInt(s: seq<char>): Option<int> {
    if |s| >= 2 && s[0] == '-' && AllDigits(s[1..]) then
      var magnitude: int := DigitsValue(s[1..]);
      Some(-magnitude)
    else if s != [] && AllDigits(s) then Some(DigitsValue(s))
    else None
  }

  lemma ParseFormatInt(n: int)
    ensures ParseInt(FormatInt(n)) == Some(n)
  {
    var s := FormatInt(n);
    if n < 0 {
      assert s[0] == '-' && s[1..] == Digits(-n);
      DigitsValueOfDigits(-n);
    } else {
      assert s == Digits(n) && IsDigit(s[0]);
      DigitsValueOfDigits(n);
    }
  }
}
