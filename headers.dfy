/** get_header_value: walks the "\r\n"-terminated lines that follow the
    request line, stops at the first empty line (or when no "\r\n" is
    left), reads each line with sscanf(line, "%[^\r\n]", header) and then
    sscanf(header, "%[^:]: %[^\r\n]", name, value), and returns a copy of
    `value` for the first line whose `name` equals the one asked for. */
module Headers {
  import opened CText

  // ---------------------------------------------------------------------
  // One header line

  /** sscanf(header, "%[^:]: %[^\r\n]", name, value) == 2, and what it stores:
      the name is everything before the first ':', the value starts at the
      first non-whitespace character after it and runs to the first CR or LF.
      Both conversions must store at least one character. */
  function ParseField(header: seq<char>): (r: Option<(seq<char>, seq<char>)>)
    ensures r.Some? ==> r.value.0 != [] && ':' !in r.value.0
    ensures r.Some? ==> |r.value.0| < |header| && header[..|r.value.0|] == r.value.0 && header[|r.value.0|] == ':'
    ensures r.Some? ==> r.value.1 != [] && !IsSpace(r.value.1[0]) && CR !in r.value.1 && LF !in r.value.1
    ensures r.Some? ==> |r.value.1| < |header| && (NoNul(header) ==> NoNul(r.value.1))
  {
    var name := Span(header, {':'});
    if name == [] || |name| == |header| then None
    else
      var rest := header[|name| + 1..];
      var value := Span(SkipSpaces(rest), {CR, LF});
      if value == [] then None
      else
        SpanProps(header, {':'});
        ValueWithin(rest);
        assert NoNul(header) ==> NoNul(rest);
        Some((name, value))
  }

  /** The value conversion stores a NUL-free run without CR or LF that starts with no whitespace. */
  lemma ValueWithin(rest: seq<char>)
    ensures var value := Span(SkipSpaces(rest), {CR, LF});
            CR !in value && LF !in value && (value == [] || !IsSpace(value[0]))
            && (NoNul(rest) ==> NoNul(value))
  {
    SkipSpacesProps(rest);
    SpanProps(SkipSpaces(rest), {CR, LF});
  }

  /** "name:" followed by optional whitespace and a value parses back into that name and value.
      Whitespace at the end of the value is kept. */
  lemma ParseFieldOf(name: seq<char>, ws: seq<char>, value: seq<char>)
    requires name != [] && ':' !in name
    requires AllSpaces(ws)
    requires value != [] && !IsSpace(value[0]) && CR !in value && LF !in value
    ensures ParseField(name + ":" + ws + value) == Some((name, value))
  {
    var header := name + ":" + ws + value;
    assert header == name + (":" + ws + value);
    SpanOf(name, ":" + ws + value, {':'});
    assert header[|name| + 1..] == ws + value;
    SkipSpacesOf(ws, value);
    assert value == value + [];
    SpanOf(value, [], {CR, LF});
  }

  /** A header line whose value is empty, or only whitespace, is never a match. */
  lemma EmptyValueNeverParses(name: seq<char>, ws: seq<char>)
    requires ':' !in name
    requires AllSpaces(ws)
    ensures ParseField(name + ":" + ws) == None
  {
    var header := name + ":" + ws;
    assert header == name + (":" + ws);
    SpanOf(name, ":" + ws, {':'});
    assert header[|name| + 1..] == ws;
    assert ws == ws + [];
    SkipSpacesOf(ws, []);
  }

  /** A line with no ':' is never a match. */
  lemma NoColonNeverParses(header: seq<char>)
    requires ':' !in header
    ensures ParseField(header) == None
  {
    assert header == header + [];
    SpanOf(header, [], {':'});
  }

  /** A line that starts with ':' gives %[^:] nothing to store, so sscanf returns 0. */
  lemma EmptyNameNeverParses(header: seq<char>)
    requires header != [] && header[0] == ':'
    ensures ParseField(header) == None
  {
    assert Span(header, {':'}) == [];
  }

  /** What the first sscanf stores from a line: its characters up to the first CR or LF. */
  function LineText(line: seq<char>): (t: seq<char>)
    ensures |t| <= |line| && (NoNul(line) ==> NoNul(t))
  {
    SpanProps(line, {CR, LF});
    Span(line, {CR, LF})
  }

  /** What the first sscanf stores is a prefix of the line, ending at its end or at a CR or LF. */
  lemma LineTextIsPrefix(line: seq<char>)
    ensures var t := LineText(line);
      t == line[..|t|] && (|t| == |line| || line[|t|] == CR || line[|t|] == LF)
  {
    SpanProps(line, {CR, LF});
  }

  /** A line with no CR or LF in it is read whole. */
  lemma LineTextOf(line: seq<char>)
    requires CR !in line && LF !in line
    ensures LineText(line) == line
  {
    assert forall i :: 0 <= i < |line| ==> line[i] !in {CR, LF} by {
      forall i | 0 <= i < |line| ensures line[i] !in {CR, LF} {
        assert line[i] in line;
      }
    }
    assert line + [] == line;
    SpanOf(line, [], {CR, LF});
  }

  /** The field a header line carries, if the two conversions both succeed. */
  function LineField(line: seq<char>): Option<(seq<char>, seq<char>)> {
    ParseField(LineText(line))
  }

  predicate NameMatches(line: seq<char>, name: seq<char>) {
    LineField(line).Some? && LineField(line).value.0 == name
  }

  // ---------------------------------------------------------------------
  // The scan over the lines

  /** The value get_header_value returns, None standing for NULL. */
  function HeaderLookup(h: seq<char>, name: seq<char>): Option<seq<char>>
    decreases |h|
  {
    match FindCrlf(h)
    case None => None
    case Some(i) =>
      if i == 0 then None
      else if NameMatches(h[..i], name) then Some(LineField(h[..i]).value.1)
      else HeaderLookup(h[i + 2..], name)
  }

  /** The scan-set conversion into header[MAX_HEADER_SIZE] is defined on a
      line: it stores at least one character (the line does not start with CR
      or LF) and, with its terminating NUL, fits the buffer. */
  predicate LineScannable(line: seq<char>) {
    line != [] && line[0] != CR && line[0] != LF && |LineText(line)| < MAX_HEADER_SIZE
  }

  /** Every line the scan reads (up to the matching one or the blank line) is scannable. */
  predicate ScanDefined(h: seq<char>, name: seq<char>)
    decreases |h|
  {
    match FindCrlf(h)
    case None => true
    case Some(i) =>
      i == 0 || (LineScannable(h[..i]) && (NameMatches(h[..i], name) || ScanDefined(h[i + 2..], name)))
  }

  /** One step of the scan: after a non-empty line that does not match, the
      lookup and its definedness carry over to the text after the line. */
  lemma LookupStep(h: seq<char>, name: seq<char>, start: nat, e: nat)
    requires start < e <= |h| && FindCrlf(h[start..]) == Some(e - start)
    requires !NameMatches(h[start..e], name)
    ensures HeaderLookup(h[start..], name) == HeaderLookup(h[e + 2..], name)
    ensures ScanDefined(h[start..], name) ==> ScanDefined(h[e + 2..], name)
  {
    assert h[start..][..e - start] == h[start..e];
    assert h[start..][e - start + 2..] == h[e + 2..];
  }

  /** The step that returns: a non-empty line that matches yields its value. */
  lemma LookupHit(h: seq<char>, name: seq<char>, start: nat, e: nat)
    requires start < e <= |h| && FindCrlf(h[start..]) == Some(e - start)
    requires NameMatches(h[start..e], name)
    ensures HeaderLookup(h[start..], name) == Some(LineField(h[start..e]).value.1)
  {
    assert h[start..][..e - start] == h[start..e];
  }

  /** The scan ends with NULL when no "\r\n" is left or the next line is empty. */
  lemma LookupEnds(h: seq<char>, name: seq<char>)
    requires FindCrlf(h).None? || FindCrlf(h) == Some(0)
    ensures HeaderLookup(h, name).None?
  {
  }

  /** get_header_value, cursor by cursor: `start` plays header_start and `e` header_end. */
  method GetHeaderValue(h: seq<char>, name: seq<char>) returns (v: Option<seq<char>>)
    requires ScanDefined(h, name)
    ensures v == HeaderLookup(h, name)
  {
    var start := 0;
    while true
      invariant 0 <= start <= |h|
      invariant HeaderLookup(h[start..], name) == HeaderLookup(h, name)
      invariant ScanDefined(h[start..], name)
      decreases |h| - start
    {
      var found := FindCrlf(h[start..]);
      if found.None? {
        LookupEnds(h[start..], name);
        return None;
      }
      var e := start + found.value;
      if e == start {
        LookupEnds(h[start..], name);
        break;
      }
      var line := h[start..e];
      var header := LineText(line);
      var field := ParseField(header);
      assert field == LineField(line);
      if field.Some? && field.value.0 == name {
        assert NameMatches(line, name);
        LookupHit(h, name, start, e);
        return Some(field.value.1);
      }
      assert !NameMatches(line, name);
      LookupStep(h, name, start, e);
      assert HeaderLookup(h[e + 2..], name) == HeaderLookup(h, name);
      assert ScanDefined(h[e + 2..], name);
      start := e + 2;
    }
    return None;
  }

  /** A value returned is non-empty, starts with a non-whitespace character, holds
      no CR or LF, and (taken from a C string) no NUL. */
  lemma {:induction false} LookupValueShape(h: seq<char>, name: seq<char>)
    requires HeaderLookup(h, name).Some?
    ensures var v := HeaderLookup(h, name).value;
      v != [] && !IsSpace(v[0]) && CR !in v && LF !in v && |v| < |h| && (NoNul(h) ==> NoNul(v))
    decreases |h|
  {
    var i := FindCrlf(h).value;
    assert NoNul(h) ==> NoNul(h[..i]);
    if !NameMatches(h[..i], name) {
      assert NoNul(h) ==> NoNul(h[i + 2..]);
      LookupValueShape(h[i + 2..], name);
    }
  }

  /** Names are compared case-sensitively: a "user-agent" line parses, but is no
      "User-Agent" line, so a block holding only it has no User-Agent. */
  lemma NameIsCaseSensitive(line: seq<char>)
    requires line == "user-agent: curl"
    ensures LineField(line) == Some(("user-agent", "curl"))
    ensures !NameMatches(line, "User-Agent")
  {
    assert CR !in line && LF !in line;
    LineTextOf(line);
    assert line == "user-agent" + ":" + " " + "curl";
    ParseFieldOf("user-agent", " ", "curl");
    assert "user-agent"[0] != "User-Agent"[0];
  }

  // ---------------------------------------------------------------------
  // Reference: the header block as a list of lines

  /** The non-empty "\r\n"-terminated lines before the first empty line. */
  function HeaderLines(h: seq<char>): seq<seq<char>>
    decreases |h|
  {
    match FindCrlf(h)
    case None => []
    case Some(i) => if i == 0 then [] else [h[..i]] + HeaderLines(h[i + 2..])
  }

  /** The value of the first line, in order, whose name matches. */
  function FirstMatch(lines: seq<seq<char>>, name: seq<char>): (r: Option<seq<char>>)
    ensures r.Some? ==> exists k :: 0 <= k < |lines| && NameMatches(lines[k], name)
                          && LineField(lines[k]).value.1 == r.value
                          && forall j :: 0 <= j < k ==> !NameMatches(lines[j], name)
    ensures r.None? ==> forall k :: 0 <= k < |lines| ==> !NameMatches(lines[k], name)
  {
    if lines == [] then None
    else if NameMatches(lines[0], name) then Some(LineField(lines[0]).value.1)
    else
      var r := FirstMatch(lines[1..], name);
      assert forall k :: 1 <= k < |lines| ==> lines[k] == lines[1..][k - 1];
      r
  }

  /** The scan returns exactly the first match among the lines before the blank line. */
  lemma {:induction false} LookupIsFirstMatch(h: seq<char>, name: seq<char>)
    ensures HeaderLookup(h, name) == FirstMatch(HeaderLines(h), name)
    decreases |h|
  {
    match FindCrlf(h)
    case None =>
    case Some(i) =>
      if i != 0 {
        var lines := HeaderLines(h);
        assert lines[0] == h[..i] && lines[1..] == HeaderLines(h[i + 2..]);
        LookupIsFirstMatch(h[i + 2..], name);
      }
  }

  /** A line that can appear in a header block: non-empty and free of "\r\n". */
  predicate WellFormedLine(line: seq<char>) {
    line != [] && HasNoCrlf(line)
  }

  /** Lines joined with "\r\n" after each. */
  function JoinLines(lines: seq<seq<char>>): seq<char> {
    if lines == [] then [] else lines[0] + CRLF + JoinLines(lines[1..])
  }

  /** Whatever follows the blank line is never scanned: the lines read are exactly those before it. */
  lemma {:induction false} HeaderLinesOfBlock(lines: seq<seq<char>>, rest: seq<char>)
    requires forall k :: 0 <= k < |lines| ==> WellFormedLine(lines[k])
    ensures HeaderLines(JoinLines(lines) + CRLF + rest) == lines
  {
    var h := JoinLines(lines) + CRLF + rest;
    if lines == [] {
      assert h == [] + CRLF + rest;
      FindCrlfAfterLine([], rest);
    } else {
      var tail := JoinLines(lines[1..]) + CRLF + rest;
      assert h == lines[0] + CRLF + tail;
      FindCrlfAfterLine(lines[0], tail);
      assert h[..|lines[0]|] == lines[0];
      assert h[|lines[0]| + 2..] == tail;
      HeaderLinesOfBlock(lines[1..], rest);
    }
  }

  /** The lookup in a header block ended by a blank line depends on its lines only. */
  lemma LookupInBlock(lines: seq<seq<char>>, rest: seq<char>, name: seq<char>)
    requires forall k :: 0 <= k < |lines| ==> WellFormedLine(lines[k])
    ensures HeaderLookup(JoinLines(lines) + CRLF + rest, name) == FirstMatch(lines, name)
  {
    HeaderLinesOfBlock(lines, rest);
    LookupIsFirstMatch(JoinLines(lines) + CRLF + rest, name);
  }

  /** A block whose lines all fit the buffers can be scanned without undefined behaviour. */
  lemma {:induction false} BlockScanDefined(lines: seq<seq<char>>, rest: seq<char>, name: seq<char>)
    requires forall k :: 0 <= k < |lines| ==> WellFormedLine(lines[k]) && LineScannable(lines[k])
    ensures ScanDefined(JoinLines(lines) + CRLF + rest, name)
  {
    var h := JoinLines(lines) + CRLF + rest;
    if lines == [] {
      assert h == [] + CRLF + rest;
      FindCrlfAfterLine([], rest);
    } else {
      var tail := JoinLines(lines[1..]) + CRLF + rest;
      assert h == lines[0] + CRLF + tail;
      FindCrlfAfterLine(lines[0], tail);
      assert h[..|lines[0]|] == lines[0];
      assert h[|lines[0]| + 2..] == tail;
      BlockScanDefined(lines[1..], rest, name);
    }
  }
}
