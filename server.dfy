/** handle_request: one read of at most MAX_BUFFER_SIZE - 1 bytes, NUL-terminated;
    the request line split into method, path and version; the User-Agent looked
    up in the text after the first "\r\n"; the routed Response serialized and
    handed to send. A read that fails or returns no bytes closes the connection
    without an answer. */
module Server {
  import opened CText
  import opened RequestLine
  import opened Headers
  import opened Router
  import opened Serializer

  const USER_AGENT: seq<char> := "User-Agent"

  /** What read() gave back: an error (byte_read < 0) or the bytes received,
      none at all when the peer closed the connection (byte_read == 0). */
  datatype ReadResult = ReadFailed | Received(data: seq<char>)

  /** The text get_header_value is given: what follows the first "\r\n". */
  function AfterRequestLine(text: seq<char>): (h: seq<char>)
    requires FindCrlf(text).Some?
    ensures |h| + 2 <= |text| && h == text[|text| - |h|..]
    ensures CrlfAt(text, |text| - |h| - 2)
    ensures forall j :: 0 <= j < |text| - |h| - 2 ==> !CrlfAt(text, j)
  {
    FindCrlfProps(text);
    text[FindCrlf(text).value + 2..]
  }

  /** The request text is handled without undefined behaviour: sscanf stores at
      least a method and a path, strstr finds a "\r\n", and every header line
      the lookup scans fits its buffers. */
  predicate RequestDefined(text: seq<char>) {
    |Tokens(text, 3)| >= 2 && FindCrlf(text).Some? && ScanDefined(AfterRequestLine(text), USER_AGENT)
  }

  /** read() stores at most MAX_BUFFER_SIZE - 1 bytes; a non-empty read must be a
      request handle_request can process. */
  predicate Defined(rr: ReadResult) {
    match rr
    case ReadFailed => true
    case Received(data) => |data| < MAX_BUFFER_SIZE && (data == [] || RequestDefined(CString(data)))
  }

  /** The Response process_request builds from a request text. */
  function Answer(text: seq<char>): (r: Response)
    requires RequestDefined(text)
    ensures r.contentType == "text/plain"
    ensures (r.statusCode == 200 && r.reasonPhrase == "OK") || (r.statusCode == 404 && r.reasonPhrase == "Not Found")
    ensures |r.body| <= |text|
    ensures NoNul(text) ==> NoNul(r.body)
  {
    InputsFromText(text);
    ProcessRequest(Tokens(text, 3)[0], Tokens(text, 3)[1], HeaderLookup(AfterRequestLine(text), USER_AGENT))
  }

  /** The path and the User-Agent value are pieces of the request text: no longer
      than it, and free of NUL when it is. */
  lemma InputsFromText(text: seq<char>)
    requires |Tokens(text, 3)| >= 2 && FindCrlf(text).Some?
    ensures var path := Tokens(text, 3)[1];
      |path| <= |text| && (NoNul(text) ==> NoNul(path))
    ensures var userAgent := HeaderLookup(AfterRequestLine(text), USER_AGENT);
      userAgent.Some? ==> |userAgent.value| <= |text| && (NoNul(text) ==> NoNul(userAgent.value))
  {
    TokensShorter(text, 3);
    if HeaderLookup(AfterRequestLine(text), USER_AGENT).Some? {
      LookupValueShape(AfterRequestLine(text), USER_AGENT);
    }
    if NoNul(text) {
      TokensNoNul(text, 3);
      assert NoNul(AfterRequestLine(text));
    }
  }

  /** What is sent back for one read: None when the connection is closed without
      an answer; otherwise bytes that read back as exactly the routed Response (a
      status line, the three header lines, and a body of Content-Length characters). */
  function Exchange(rr: ReadResult): (sent: Option<seq<char>>)
    requires Defined(rr)
    ensures sent.None? <==> rr.ReadFailed? || rr.data == []
    ensures sent.Some? ==> ParseWire(sent.value) == Some(Answer(CString(rr.data)))
  {
    if rr.ReadFailed? || rr.data == [] then None
    else
      var r := Answer(CString(rr.data));
      assert |r.body| < Pow10(4);
      RoutedReadsBack(r);
      Some(Wire(r))
  }

  /** handle_request, from the bytes read to the bytes handed to send. */
  method HandleRequest(rr: ReadResult) returns (sent: Option<seq<char>>)
    requires Defined(rr)
    ensures sent == Exchange(rr)
  {
    if rr.ReadFailed? || rr.data == [] {
      return None;
    }
    var text := CString(rr.data);
    var words := Tokens(text, 3);
    var lineEnd := FindCrlf(text).value;
    var userAgent := GetHeaderValue(text[lineEnd + 2..], USER_AGENT);
    var response := ProcessRequest(words[0], words[1], userAgent);
    assert response == Answer(text);
    RoutedCStrings(response);
    var buffer := AssembleResponse(response);
    sent := Some(buffer[..]);
  }

  // ---------------------------------------------------------------------
  // What the bytes sent say

  /** A request made of a request line "method path version", header lines, a blank
      line and anything after: the answer is the routed Response for that path and
      the value of the first User-Agent line. */
  lemma ExchangeOfRequest(httpMethod: seq<char>, path: seq<char>, version: seq<char>,
                          lines: seq<seq<char>>, rest: seq<char>)
    requires httpMethod != [] && NoSpaces(httpMethod)
    requires path != [] && NoSpaces(path)
    requires version != [] && NoSpaces(version)
    requires forall k :: 0 <= k < |lines| ==> WellFormedLine(lines[k]) && LineScannable(lines[k])
    requires var data := RequestText(httpMethod, path, version, lines, rest);
      |data| < MAX_BUFFER_SIZE && NoNul(data)
    ensures var data := RequestText(httpMethod, path, version, lines, rest);
      Defined(Received(data)) &&
      Exchange(Received(data)) == Some(Wire(ProcessRequest(httpMethod, path, FirstMatch(lines, USER_AGENT))))
  {
    var data := RequestText(httpMethod, path, version, lines, rest);
    var block := JoinLines(lines) + CRLF + rest;
    RequestLineKnown(httpMethod, path, version, block);
    BlockScanDefined(lines, rest, USER_AGENT);
    LookupInBlock(lines, rest, USER_AGENT);
    assert CString(data) == data;
    assert RequestDefined(data);
    assert Answer(data) == ProcessRequest(httpMethod, path, FirstMatch(lines, USER_AGENT));
  }

  /** The request text: request line, "\r\n", the header lines each ended by "\r\n",
      "\r\n", then the rest. */
  function RequestText(httpMethod: seq<char>, path: seq<char>, version: seq<char>,
                       lines: seq<seq<char>>, rest: seq<char>): seq<char>
  {
    httpMethod + (" " + (path + (" " + (version + (CRLF + (JoinLines(lines) + CRLF + rest))))))
  }

  /** The request line splits into its three words and ends at the first "\r\n". */
  lemma RequestLineKnown(httpMethod: seq<char>, path: seq<char>, version: seq<char>, block: seq<char>)
    requires httpMethod != [] && NoSpaces(httpMethod)
    requires path != [] && NoSpaces(path)
    requires version != [] && NoSpaces(version)
    ensures var text := httpMethod + (" " + (path + (" " + (version + (CRLF + block)))));
      Tokens(text, 3) == [httpMethod, path, version] &&
      FindCrlf(text).Some? && AfterRequestLine(text) == block
  {
    var text := httpMethod + (" " + (path + (" " + (version + (CRLF + block)))));
    SplitRequestLine(httpMethod, path, version, CRLF + block);
    var requestLine := httpMethod + " " + path + " " + version;
    assert text == requestLine + CRLF + block;
    assert HasNoCrlf(requestLine) by {
      forall j | 0 <= j < |requestLine| ensures !CrlfAt(requestLine, j) {
        if j < |httpMethod| {
          assert requestLine[j] == httpMethod[j];
        } else if j == |httpMethod| || j == |httpMethod| + 1 + |path| {
          assert requestLine[j] == ' ';
        } else if j < |httpMethod| + 1 + |path| {
          assert requestLine[j] == path[j - |httpMethod| - 1];
        } else {
          assert requestLine[j] == version[j - |httpMethod| - |path| - 2];
        }
      }
    }
    FindCrlfAfterLine(requestLine, block);
    assert text[|requestLine| + 2..] == block;
  }

  lemma RequestRegrouped(httpMethod: seq<char>, path: seq<char>, version: seq<char>, block: seq<char>)
    ensures httpMethod + " " + path + " " + version + CRLF + block + CRLF
         == httpMethod + (" " + (path + (" " + (version + (CRLF + (block + CRLF + []))))))
  {
    assert block + CRLF + [] == block + CRLF;
  }

  /** A request given as its request line and header lines, each ended by "\r\n",
      then the blank line. */
  lemma ExchangeOfText(data: seq<char>, requestLine: seq<char>, httpMethod: seq<char>, path: seq<char>,
                       version: seq<char>, lines: seq<seq<char>>)
    requires requestLine == httpMethod + " " + path + " " + version
    requires data == requestLine + CRLF + JoinLines(lines) + CRLF
    requires httpMethod != [] && NoSpaces(httpMethod)
    requires path != [] && NoSpaces(path)
    requires version != [] && NoSpaces(version)
    requires forall k :: 0 <= k < |lines| ==> WellFormedLine(lines[k]) && LineScannable(lines[k])
    requires |data| < MAX_BUFFER_SIZE && NoNul(data)
    ensures Defined(Received(data))
    ensures Exchange(Received(data)) == Some(Wire(ProcessRequest(httpMethod, path, FirstMatch(lines, USER_AGENT))))
  {
    RequestRegrouped(httpMethod, path, version, JoinLines(lines));
    ExchangeOfRequest(httpMethod, path, version, lines, []);
  }

  /** A header line "name: value" as a client writes it. */
  lemma FieldLine(line: seq<char>, name: seq<char>, value: seq<char>)
    requires line == name + ":" + " " + value
    requires name != [] && ':' !in name && CR !in name && LF !in name
    requires value != [] && !IsSpace(value[0]) && CR !in value && LF !in value
    requires |line| < MAX_HEADER_SIZE
    ensures WellFormedLine(line) && LineScannable(line) && LineField(line) == Some((name, value))
  {
    assert CR !in line && LF !in line;
    assert HasNoCrlf(line) by {
      forall j | 0 <= j < |line| ensures !CrlfAt(line, j) {
        assert line[j] in line;
      }
    }
    LineTextOf(line);
    ParseFieldOf(name, " ", value);
  }

  /** The bytes sent for a routed Response, line by line. */
  lemma WireLines(r: Response)
    requires r.contentType == "text/plain" && |r.body| < Pow10(4)
    requires (r.statusCode == 200 && r.reasonPhrase == "OK") || (r.statusCode == 404 && r.reasonPhrase == "Not Found")
    ensures Wire(r) == StatusLine(r) + CRLF + "Content-Type: text/plain" + CRLF
                       + ("Content-Length: " + FormatInt(|r.body|)) + CRLF + "Connection: keep-alive" + CRLF + CRLF + r.body
  {
    RoutedHeaderFits(r);
  }

  // ---------------------------------------------------------------------
  // Answers to particular requests

  const HOST_LINE: seq<char> := "Host: localhost:4221"
  const AGENT_LINE: seq<char> := "User-Agent: test-client/1.0"
  const ROOT_REQUEST: seq<char> := "GET / HTTP/1.1" + CRLF + CRLF
  const ECHO_REQUEST: seq<char> := "GET /echo/abc HTTP/1.1" + CRLF + HOST_LINE + CRLF + CRLF
  const AGENT_REQUEST: seq<char> := "GET /user-agent HTTP/1.1" + CRLF + HOST_LINE + CRLF + AGENT_LINE + CRLF + CRLF
  const MISSING_REQUEST: seq<char> := "GET /index.html HTTP/1.1" + CRLF + CRLF
  const TEXT_PLAIN_LINE: seq<char> := "Content-Type: text/plain"
  const CONNECTION_LINE: seq<char> := "Connection: keep-alive"

  /** The decimal numbers the examples print. */
  lemma Decimals()
    ensures FormatInt(200) == "200" && FormatInt(404) == "404"
    ensures FormatInt(0) == "0" && FormatInt(3) == "3" && FormatInt(15) == "15"
  {
    assert DigitChar(0) == '0' && DigitChar(1) == '1' && DigitChar(2) == '2';
    assert DigitChar(3) == '3' && DigitChar(4) == '4' && DigitChar(5) == '5';
    assert Digits(20) == Digits(2) + [DigitChar(0)];
    assert Digits(200) == Digits(20) + [DigitChar(0)];
    assert Digits(40) == Digits(4) + [DigitChar(0)];
    assert Digits(404) == Digits(40) + [DigitChar(4)];
    assert Digits(15) == Digits(1) + [DigitChar(5)];
  }

  /** The two status lines the router can produce. */
  lemma StatusLines(r: Response)
    ensures r.statusCode == 200 && r.reasonPhrase == "OK" ==> StatusLine(r) == "HTTP/1.1 200 OK"
    ensures r.statusCode == 404 && r.reasonPhrase == "Not Found" ==> StatusLine(r) == "HTTP/1.1 404 Not Found"
  {
    Decimals();
  }

  /** The Content-Length lines the examples produce. */
  lemma ContentLengthLines()
    ensures "Content-Length: " + FormatInt(0) == "Content-Length: 0"
    ensures "Content-Length: " + FormatInt(3) == "Content-Length: 3"
    ensures "Content-Length: " + FormatInt(15) == "Content-Length: 15"
  {
    Decimals();
  }

  /** The bytes sent for a routed Response, given its status line and Content-Length line. */
  lemma AnswerWire(r: Response, statusLine: seq<char>, lengthLine: seq<char>)
    requires r.contentType == "text/plain" && |r.body| < Pow10(4)
    requires (r.statusCode == 200 && r.reasonPhrase == "OK") || (r.statusCode == 404 && r.reasonPhrase == "Not Found")
    requires statusLine == StatusLine(r) && lengthLine == "Content-Length: " + FormatInt(|r.body|)
    ensures Wire(r) == statusLine + CRLF + TEXT_PLAIN_LINE + CRLF + lengthLine + CRLF + CONNECTION_LINE + CRLF + CRLF + r.body
  {
    WireLines(r);
  }

  /** How the example request lines split into words. */
  lemma RequestLineSplits()
    ensures "GET / HTTP/1.1" == "GET" + " " + "/" + " " + "HTTP/1.1"
    ensures "GET /echo/abc HTTP/1.1" == "GET" + " " + "/echo/abc" + " " + "HTTP/1.1"
  {
  }

  lemma MoreRequestLineSplits()
    ensures "GET /user-agent HTTP/1.1" == "GET" + " " + "/user-agent" + " " + "HTTP/1.1"
    ensures "GET /index.html HTTP/1.1" == "GET" + " " + "/index.html" + " " + "HTTP/1.1"
  {
  }

  lemma ExampleWords()
    ensures NoSpaces("GET") && NoSpaces("HTTP/1.1") && NoSpaces("/") && NoSpaces("/echo/abc")
    ensures NoSpaces("/user-agent") && NoSpaces("/index.html")
  {
  }

  /** How the router sees the example paths. */
  lemma ExamplePaths()
    ensures StartsWithEcho("/echo/abc") && "/echo/abc"[6..] == "abc"
    ensures "/index.html" != "/" && !StartsWithEcho("/index.html") && "/index.html" != "/user-agent"
  {
    assert "/index.html"[1] != "/echo/"[1];
  }

  lemma HostLineParses(line: seq<char>)
    requires line == HOST_LINE
    ensures WellFormedLine(line) && LineScannable(line) && LineField(line) == Some(("Host", "localhost:4221"))
  {
    FieldLine(line, "Host", "localhost:4221");
  }

  lemma AgentLineParses(line: seq<char>)
    requires line == AGENT_LINE
    ensures WellFormedLine(line) && LineScannable(line)
    ensures LineField(line) == Some((USER_AGENT, "test-client/1.0"))
  {
    FieldLine(line, USER_AGENT, "test-client/1.0");
  }

  lemma ExampleLinesScannable(lines: seq<seq<char>>)
    requires lines == [HOST_LINE] || lines == [HOST_LINE, AGENT_LINE]
    ensures forall k :: 0 <= k < |lines| ==> WellFormedLine(lines[k]) && LineScannable(lines[k])
  {
    forall k | 0 <= k < |lines|
      ensures WellFormedLine(lines[k]) && LineScannable(lines[k])
    {
      if k == 0 {
        HostLineParses(lines[k]);
      } else {
        AgentLineParses(lines[k]);
      }
    }
  }

  lemma ExampleLinesNoNul()
    ensures NUL !in HOST_LINE && NUL !in AGENT_LINE && NUL !in CRLF
  {
  }

  lemma RequestLinesNoNul()
    ensures NUL !in "GET / HTTP/1.1" && NUL !in "GET /echo/abc HTTP/1.1"
    ensures NUL !in "GET /user-agent HTTP/1.1" && NUL !in "GET /index.html HTTP/1.1"
  {
  }

  lemma AppendEmpty(s: seq<char>)
    ensures s + "" == s
  {
  }

  // "GET / HTTP/1.1" with no header lines.

  lemma RootText(data: seq<char>)
    requires data == ROOT_REQUEST
    ensures data == "GET / HTTP/1.1" + CRLF + JoinLines([]) + CRLF
    ensures NoNul(data) && |data| < MAX_BUFFER_SIZE
  {
    assert JoinLines([]) == [];
    ExampleLinesNoNul();
    RequestLinesNoNul();
    NoNulIsNotIn(data);
  }

  lemma RootAccepted(data: seq<char>)
    requires data == ROOT_REQUEST
    ensures Defined(Received(data))
    ensures Exchange(Received(data)) == Some(Wire(Response(200, "OK", "text/plain", "")))
  {
    RootText(data);
    RequestLineSplits();
    MoreRequestLineSplits();
    ExampleWords();
    ExchangeOfText(data, "GET / HTTP/1.1", "GET", "/", "HTTP/1.1", []);
    assert FirstMatch([], USER_AGENT) == None;
    RootOnlyExact("GET", "/", None);
  }

  /** The root answers 200 with an empty body. */
  lemma RootRequest(data: seq<char>)
    requires data == ROOT_REQUEST
    ensures Defined(Received(data))
    ensures Exchange(Received(data))
         == Some("HTTP/1.1 200 OK" + CRLF + TEXT_PLAIN_LINE + CRLF + "Content-Length: 0" + CRLF
                 + CONNECTION_LINE + CRLF + CRLF)
  {
    RootAccepted(data);
    var r := Response(200, "OK", "text/plain", "");
    StatusLines(r);
    ContentLengthLines();
    AnswerWire(r, "HTTP/1.1 200 OK", "Content-Length: 0");
    AppendEmpty("HTTP/1.1 200 OK" + CRLF + TEXT_PLAIN_LINE + CRLF + "Content-Length: 0" + CRLF + CONNECTION_LINE + CRLF + CRLF);
  }

  // "GET /echo/abc HTTP/1.1" with a Host line.

  lemma EchoText(data: seq<char>)
    requires data == ECHO_REQUEST
    ensures data == "GET /echo/abc HTTP/1.1" + CRLF + JoinLines([HOST_LINE]) + CRLF
    ensures NoNul(data) && |data| < MAX_BUFFER_SIZE
  {
    assert JoinLines([HOST_LINE]) == HOST_LINE + CRLF + [] by {
      assert JoinLines([HOST_LINE][1..]) == [];
    }
    ExampleLinesNoNul();
    RequestLinesNoNul();
    NoNulIsNotIn(data);
  }

  lemma EchoAccepted(data: seq<char>, lines: seq<seq<char>>)
    requires data == ECHO_REQUEST && lines == [HOST_LINE]
    ensures Defined(Received(data))
    ensures Exchange(Received(data)) == Some(Wire(Response(200, "OK", "text/plain", "abc")))
  {
    ExampleLinesScannable(lines);
    EchoText(data);
    RequestLineSplits();
    MoreRequestLineSplits();
    ExampleWords();
    ExchangeOfText(data, "GET /echo/abc HTTP/1.1", "GET", "/echo/abc", "HTTP/1.1", lines);
    ExamplePaths();
    EchoBody("GET", "/echo/abc", FirstMatch(lines, USER_AGENT));
  }

  /** "/echo/abc" answers 200 with the body "abc"; the Host line plays no part. */
  lemma EchoRequest(data: seq<char>)
    requires data == ECHO_REQUEST
    ensures Defined(Received(data))
    ensures Exchange(Received(data))
         == Some("HTTP/1.1 200 OK" + CRLF + TEXT_PLAIN_LINE + CRLF + "Content-Length: 3" + CRLF
                 + CONNECTION_LINE + CRLF + CRLF + "abc")
  {
    EchoAccepted(data, [HOST_LINE]);
    var r := Response(200, "OK", "text/plain", "abc");
    StatusLines(r);
    ContentLengthLines();
    AnswerWire(r, "HTTP/1.1 200 OK", "Content-Length: 3");
  }

  // "GET /user-agent HTTP/1.1" with a Host line and then a User-Agent line.

  lemma AgentText(data: seq<char>)
    requires data == AGENT_REQUEST
    ensures data == "GET /user-agent HTTP/1.1" + CRLF + JoinLines([HOST_LINE, AGENT_LINE]) + CRLF
    ensures NoNul(data) && |data| < MAX_BUFFER_SIZE
  {
    var lines := [HOST_LINE, AGENT_LINE];
    assert JoinLines(lines) == HOST_LINE + CRLF + (AGENT_LINE + CRLF + []) by {
      assert lines[1..] == [AGENT_LINE];
      assert JoinLines([AGENT_LINE][1..]) == [];
    }
    ExampleLinesNoNul();
    RequestLinesNoNul();
    NoNulIsNotIn(data);
  }

  /** The Host line is passed over; the User-Agent line after it is the match. */
  lemma AgentFirstMatch(lines: seq<seq<char>>)
    requires lines == [HOST_LINE, AGENT_LINE]
    ensures FirstMatch(lines, USER_AGENT) == Some("test-client/1.0")
  {
    HostLineParses(lines[0]);
    AgentLineParses(lines[1]);
    assert "Host" != USER_AGENT by {
      assert "Host"[0] != USER_AGENT[0];
    }
    assert !NameMatches(lines[0], USER_AGENT);
    var tail := lines[1..];
    assert tail == [AGENT_LINE];
    assert NameMatches(tail[0], USER_AGENT);
    assert FirstMatch(tail, USER_AGENT) == Some("test-client/1.0");
  }

  lemma AgentAccepted(data: seq<char>, lines: seq<seq<char>>)
    requires data == AGENT_REQUEST && lines == [HOST_LINE, AGENT_LINE]
    ensures Defined(Received(data))
    ensures Exchange(Received(data)) == Some(Wire(Response(200, "OK", "text/plain", "test-client/1.0")))
  {
    ExampleLinesScannable(lines);
    AgentText(data);
    RequestLineSplits();
    MoreRequestLineSplits();
    ExampleWords();
    ExchangeOfText(data, "GET /user-agent HTTP/1.1", "GET", "/user-agent", "HTTP/1.1", lines);
    AgentFirstMatch(lines);
    UserAgentBody("GET", Some("test-client/1.0"));
  }

  /** "/user-agent" answers with the value of the User-Agent line, which need not be the first. */
  lemma UserAgentRequest(data: seq<char>)
    requires data == AGENT_REQUEST
    ensures Defined(Received(data))
    ensures Exchange(Received(data))
         == Some("HTTP/1.1 200 OK" + CRLF + TEXT_PLAIN_LINE + CRLF + "Content-Length: 15" + CRLF
                 + CONNECTION_LINE + CRLF + CRLF + "test-client/1.0")
  {
    AgentAccepted(data, [HOST_LINE, AGENT_LINE]);
    var r := Response(200, "OK", "text/plain", "test-client/1.0");
    StatusLines(r);
    ContentLengthLines();
    AnswerWire(r, "HTTP/1.1 200 OK", "Content-Length: 15");
  }

  // "GET /index.html HTTP/1.1" with no header lines.

  lemma MissingText(data: seq<char>)
    requires data == MISSING_REQUEST
    ensures data == "GET /index.html HTTP/1.1" + CRLF + JoinLines([]) + CRLF
    ensures NoNul(data) && |data| < MAX_BUFFER_SIZE
  {
    assert JoinLines([]) == [];
    ExampleLinesNoNul();
    RequestLinesNoNul();
    NoNulIsNotIn(data);
  }

  lemma MissingAccepted(data: seq<char>)
    requires data == MISSING_REQUEST
    ensures Defined(Received(data))
    ensures Exchange(Received(data)) == Some(Wire(Response(404, "Not Found", "text/plain", "")))
  {
    MissingText(data);
    RequestLineSplits();
    MoreRequestLineSplits();
    ExampleWords();
    ExchangeOfText(data, "GET /index.html HTTP/1.1", "GET", "/index.html", "HTTP/1.1", []);
    assert FirstMatch([], USER_AGENT) == None;
    ExamplePaths();
    NotFoundOtherwise("GET", "/index.html", None);
  }

  /** A path no branch claims answers 404 with an empty body. */
  lemma NotFoundRequest(data: seq<char>)
    requires data == MISSING_REQUEST
    ensures Defined(Received(data))
    ensures Exchange(Received(data))
         == Some("HTTP/1.1 404 Not Found" + CRLF + TEXT_PLAIN_LINE + CRLF + "Content-Length: 0" + CRLF
                 + CONNECTION_LINE + CRLF + CRLF)
  {
    MissingAccepted(data);
    var r := Response(404, "Not Found", "text/plain", "");
    StatusLines(r);
    ContentLengthLines();
    AnswerWire(r, "HTTP/1.1 404 Not Found", "Content-Length: 0");
    AppendEmpty("HTTP/1.1 404 Not Found" + CRLF + TEXT_PLAIN_LINE + CRLF + "Content-Length: 0" + CRLF + CONNECTION_LINE + CRLF + CRLF);
  }
}
