/** send_response, up to the send call: snprintf formats the status line
    and a fixed header block into headers[MAX_HEADER_SIZE], then the header
    text and the body are copied back to back into one freshly allocated
    buffer. */
module Serializer {
  import opened CText
  import opened Router

  function StatusLine(r: Response): seq<char> {
    "HTTP/1.1 " + FormatInt(r.statusCode) + " " + r.reasonPhrase
  }

  /** The text the snprintf format string describes, before any truncation. */
  function HeaderBlock(r: Response): seq<char> {
    StatusLine(r) + CRLF
    + "Content-Type: " + r.contentType + CRLF
    + "Content-Length: " + FormatInt(|r.body|) + CRLF
    + "Connection: keep-alive" + CRLF
    + CRLF
  }

  /** What snprintf leaves in headers[MAX_HEADER_SIZE]: at most MAX_HEADER_SIZE - 1
      characters of the block, followed by a NUL. */
  function FormattedHeaders(r: Response): (s: seq<char>)
    ensures |s| < MAX_HEADER_SIZE && |s| <= |HeaderBlock(r)| && s == HeaderBlock(r)[..|s|]
    ensures |s| == |HeaderBlock(r)| || |s| == MAX_HEADER_SIZE - 1
  {
    var block := HeaderBlock(r);
    if |block| < MAX_HEADER_SIZE then block else block[..MAX_HEADER_SIZE - 1]
  }

  /** The bytes handed to send. */
  function Wire(r: Response): seq<char> {
    FormattedHeaders(r) + r.body
  }

  /** The C strings of a response hold no NUL, so strlen is their length. */
  predicate CStrings(r: Response) {
    NoNul(r.reasonPhrase) && NoNul(r.contentType) && NoNul(r.body)
  }

  /** The router's reason phrases and content type are C strings. */
  lemma RoutedCStrings(r: Response)
    requires r.contentType == "text/plain"
    requires (r.statusCode == 200 && r.reasonPhrase == "OK") || (r.statusCode == 404 && r.reasonPhrase == "Not Found")
    requires NoNul(r.body)
    ensures CStrings(r)
  {
    NoNulIsNotIn(r.reasonPhrase);
    NoNulIsNotIn(r.contentType);
  }

  /** The buffer assembly of send_response: the header text at offset 0 and
      the body at offset headers_len, total length headers_len + body_len. */
  method AssembleResponse(r: Response) returns (buffer: array<char>)
    requires CStrings(r)
    ensures fresh(buffer)
    ensures buffer.Length == |FormattedHeaders(r)| + |r.body|
    ensures buffer[..] == Wire(r)
  {
    var headers := FormattedHeaders(r);
    buffer := Concatenate(headers, r.body);
  }

  /** A fresh buffer holding `first` and then `second`: two memcpy calls. */
  method Concatenate(first: seq<char>, second: seq<char>) returns (buffer: array<char>)
    ensures fresh(buffer)
    ensures buffer[..] == first + second
  {
    buffer := new char[|first| + |second|];
    var i := 0;
    while i < |first|
      invariant 0 <= i <= |first|
      invariant forall k :: 0 <= k < i ==> buffer[k] == first[k]
    {
      buffer[i] := first[i];
      i := i + 1;
    }
    var j := 0;
    while j < |second|
      invariant 0 <= j <= |second|
      invariant forall k :: 0 <= k < |first| ==> buffer[k] == first[k]
      invariant forall k :: 0 <= k < j ==> buffer[|first| + k] == second[k]
    {
      buffer[|first| + j] := second[j];
      j := j + 1;
    }
    assert forall k :: |first| <= k < buffer.Length ==> buffer[k] == second[k - |first|] by {
      forall k | |first| <= k < buffer.Length ensures buffer[k] == second[k - |first|] {
        assert buffer[|first| + (k - |first|)] == second[k - |first|];
      }
    }
  }

  // ---------------------------------------------------------------------
  // Partner: reading a response back

  /** The text before the first "\r\n" and the text after it. */
  function SplitLine(s: seq<char>): Option<(seq<char>, seq<char>)> {
    match FindCrlf(s)
    case None => None
    case Some(i) => Some((s[..i], s[i + 2..]))
  }

  lemma SplitLineOf(line: seq<char>, rest: seq<char>)
    requires CR !in line
    ensures SplitLine(line + CRLF + rest) == Some((line, rest))
  {
    assert HasNoCrlf(line) by {
      forall j | 0 <= j < |line| ensures !CrlfAt(line, j) {
        assert line[j] in line;
      }
    }
    FindCrlfAfterLine(line, rest);
    var s := line + CRLF + rest;
    assert s[..|line|] == line;
    assert s[|line| + 2..] == rest;
  }

  /** The text after a fixed prefix. */
  function FieldValue(prefix: seq<char>, line: seq<char>): Option<seq<char>> {
    if |prefix| <= |line| && line[..|prefix|] == prefix then Some(line[|prefix|..]) else None
  }

  lemma FieldValueOf(prefix: seq<char>, value: seq<char>)
    ensures FieldValue(prefix, prefix + value) == Some(value)
  {
    assert (prefix + value)[..|prefix|] == prefix;
    assert (prefix + value)[|prefix|..] == value;
  }

  /** "HTTP/1.1 <code> <reason>": the code runs to the first space, the reason is the rest. */
  function ParseStatusLine(line: seq<char>): Option<(int, seq<char>)> {
    match FieldValue("HTTP/1.1 ", line)
    case None => None
    case Some(status) =>
      var codeText := Span(status, {' '});
      if |codeText| == |status| then None
      else match ParseInt(codeText)
        case None => None
        case Some(code) => Some((code, status[|codeText| + 1..]))
  }

  lemma ParseStatusLineOf(code: int, reason: seq<char>)
    ensures ParseStatusLine("HTTP/1.1 " + FormatInt(code) + " " + reason) == Some((code, reason))
  {
    var digits := FormatInt(code);
    var status := digits + " " + reason;
    assert "HTTP/1.1 " + digits + " " + reason == "HTTP/1.1 " + status;
    FieldValueOf("HTTP/1.1 ", status);
    assert status == digits + (" " + reason);
    assert forall i :: 0 <= i < |digits| ==> digits[i] != ' ' by {
      assert NoSpaces(digits);
    }
    SpanOf(digits, " " + reason, {' '});
    ParseFormatInt(code);
    assert status[|digits| + 1..] == reason;
  }

  /** Reads back a status line, the three header lines and the blank line, then
      takes as body exactly the number of characters Content-Length announces. */
  function ParseWire(w: seq<char>): Option<Response> {
    match SplitLine(w)
    case None => None
    case Some(p) =>
      match ParseStatusLine(p.0)
      case None => None
      case Some(status) => ParseContentType(status.0, status.1, p.1)
  }

  function ParseContentType(code: int, reason: seq<char>, s: seq<char>): Option<Response> {
    match SplitLine(s)
    case None => None
    case Some(p) =>
      match FieldValue("Content-Type: ", p.0)
      case None => None
      case Some(contentType) => ParseContentLength(code, reason, contentType, p.1)
  }

  function ParseContentLength(code: int, reason: seq<char>, contentType: seq<char>, s: seq<char>): Option<Response> {
    match SplitLine(s)
    case None => None
    case Some(p) =>
      match FieldValue("Content-Length: ", p.0)
      case None => None
      case Some(lengthText) =>
        match ParseInt(lengthText)
        case None => None
        case Some(n) =>
          match ParseBody(n, p.1)
          case None => None
          case Some(body) => Some(Response(code, reason, contentType, body))
  }

  /** The Connection line, the blank line, and a body of exactly `n` characters. */
  function ParseBody(n: int, s: seq<char>): Option<seq<char>> {
    match SplitLine(s)
    case None => None
    case Some(p) =>
      if p.0 != "Connection: keep-alive" then None
      else match SplitLine(p.1)
        case None => None
        case Some(q) => if q.0 != [] || |q.1| != n then None else Some(q.1)
  }

  lemma ParseBodyOf(body: seq<char>)
    ensures ParseBody(|body|, "Connection: keep-alive" + CRLF + ([] + CRLF + body)) == Some(body)
  {
    SplitLineOf("Connection: keep-alive", [] + CRLF + body);
    SplitLineOf([], body);
  }

  lemma ParseContentLengthOf(code: int, reason: seq<char>, contentType: seq<char>, body: seq<char>)
    ensures ParseContentLength(code, reason, contentType,
              ("Content-Length: " + FormatInt(|body|)) + CRLF
              + ("Connection: keep-alive" + CRLF + ([] + CRLF + body)))
         == Some(Response(code, reason, contentType, body))
  {
    var line := "Content-Length: " + FormatInt(|body|);
    assert CR !in line;
    SplitLineOf(line, "Connection: keep-alive" + CRLF + ([] + CRLF + body));
    FieldValueOf("Content-Length: ", FormatInt(|body|));
    ParseFormatInt(|body|);
    ParseBodyOf(body);
  }

  lemma ParseContentTypeOf(r: Response)
    requires CR !in r.contentType
    ensures ParseContentType(r.statusCode, r.reasonPhrase,
              ("Content-Type: " + r.contentType) + CRLF
              + (("Content-Length: " + FormatInt(|r.body|)) + CRLF
              + ("Connection: keep-alive" + CRLF + ([] + CRLF + r.body))))
         == Some(r)
  {
    var rest := ("Content-Length: " + FormatInt(|r.body|)) + CRLF
              + ("Connection: keep-alive" + CRLF + ([] + CRLF + r.body));
    SplitLineOf("Content-Type: " + r.contentType, rest);
    FieldValueOf("Content-Type: ", r.contentType);
    ParseContentLengthOf(r.statusCode, r.reasonPhrase, r.contentType, r.body);
  }

  lemma HeaderBlockRegrouped(r: Response)
    ensures HeaderBlock(r) + r.body
         == StatusLine(r) + CRLF + (("Content-Type: " + r.contentType) + CRLF
          + (("Content-Length: " + FormatInt(|r.body|)) + CRLF
          + ("Connection: keep-alive" + CRLF + ([] + CRLF + r.body))))
  {
    LinesRegrouped(StatusLine(r), CRLF, "Content-Type: ", r.contentType, "Content-Length: ",
                   FormatInt(|r.body|), "Connection: keep-alive", r.body);
  }

  lemma LinesRegrouped(status: seq<char>, eol: seq<char>, p1: seq<char>, v1: seq<char>,
                       p2: seq<char>, v2: seq<char>, p3: seq<char>, body: seq<char>)
    ensures status + eol + p1 + v1 + eol + p2 + v2 + eol + p3 + eol + eol + body
         == status + eol + ((p1 + v1) + eol + ((p2 + v2) + eol + (p3 + eol + ([] + eol + body))))
  {
  }

  /** Serializing a response whose header block fits and whose reason phrase and
      content type hold no CR, then reading it back, gives the response again;
      in particular the body read back has the length Content-Length states. */
  lemma ParseWireOfWire(r: Response)
    requires CR !in r.reasonPhrase && CR !in r.contentType
    requires |HeaderBlock(r)| < MAX_HEADER_SIZE
    ensures ParseWire(Wire(r)) == Some(r)
  {
    var rest := ("Content-Type: " + r.contentType) + CRLF
              + (("Content-Length: " + FormatInt(|r.body|)) + CRLF
              + ("Connection: keep-alive" + CRLF + ([] + CRLF + r.body)));
    HeaderBlockRegrouped(r);
    assert Wire(r) == StatusLine(r) + CRLF + rest;
    assert CR !in StatusLine(r);
    SplitLineOf(StatusLine(r), rest);
    ParseStatusLineOf(r.statusCode, r.reasonPhrase);
    ParseContentTypeOf(r);
  }

  /** A response the router builds, with a body shorter than 10000 characters,
      has a header block that fits: snprintf truncates nothing. */
  lemma RoutedHeaderFits(r: Response)
    requires r.contentType == "text/plain"
    requires (r.statusCode == 200 && r.reasonPhrase == "OK") || (r.statusCode == 404 && r.reasonPhrase == "Not Found")
    requires |r.body| < Pow10(4)
    ensures |HeaderBlock(r)| < MAX_HEADER_SIZE
    ensures FormattedHeaders(r) == HeaderBlock(r)
  {
    DigitsBound(|r.body|, 4);
    DigitsBound(r.statusCode, 3);
  }

  /** Every response the router builds with a body shorter than 10000 characters
      reads back whole from the bytes sent. */
  lemma RoutedReadsBack(r: Response)
    requires r.contentType == "text/plain"
    requires (r.statusCode == 200 && r.reasonPhrase == "OK") || (r.statusCode == 404 && r.reasonPhrase == "Not Found")
    requires |r.body| < Pow10(4)
    ensures ParseWire(Wire(r)) == Some(r)
  {
    RoutedHeaderFits(r);
    assert CR !in r.reasonPhrase && CR !in r.contentType;
    ParseWireOfWire(r);
  }

  /** Past MAX_HEADER_SIZE - 1 characters the header text is cut short; the
      whole body still follows what is left of it. */
  lemma LongHeaderIsTruncated(r: Response)
    requires |HeaderBlock(r)| >= MAX_HEADER_SIZE
    ensures |FormattedHeaders(r)| == MAX_HEADER_SIZE - 1
    ensures |Wire(r)| == MAX_HEADER_SIZE - 1 + |r.body|
    ensures Wire(r) == HeaderBlock(r)[..MAX_HEADER_SIZE - 1] + r.body
  {
  }
}
