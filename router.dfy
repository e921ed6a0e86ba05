/** process_request and create_response: an ordered if/else chain over the
    request path that builds a Response record. The method is passed in but
    never looked at, and every Response carries the content type
    "text/plain". */
module Router {
  import opened CText

  datatype Response = Response(statusCode: int, reasonPhrase: seq<char>, contentType: seq<char>, body: seq<char>)

  /** create_response: the content type is always "text/plain"; the body is a copy of the one given. */
  function CreateResponse(statusCode: int, reasonPhrase: seq<char>, body: seq<char>): Response {
    Response(statusCode, reasonPhrase, "text/plain", body)
  }

  /** strncmp(path, "/echo/", 6) == 0 on a C string: the path starts with "/echo/". */
  predicate StartsWithEcho(path: seq<char>) {
    |path| >= 6 && path[..6] == "/echo/"
  }

  /** process_request; `userAgent` is None where the C code passes NULL. */
  function ProcessRequest(httpMethod: seq<char>, path: seq<char>, userAgent: Option<seq<char>>): (r: Response)
    ensures r == Dispatch(Routes, path, userAgent)
    ensures r.contentType == "text/plain"
    ensures (r.statusCode == 200 && r.reasonPhrase == "OK") || (r.statusCode == 404 && r.reasonPhrase == "Not Found")
    ensures NoNul(path) && (userAgent.Some? ==> NoNul(userAgent.value)) ==> NoNul(r.body)
  {
    DispatchOnRoutes(path, userAgent);
    if path == "/" then CreateResponse(200, "OK", "")
    else if StartsWithEcho(path) then CreateResponse(200, "OK", path[6..])
    else if path == "/user-agent" then CreateResponse(200, "OK", if userAgent.Some? then userAgent.value else "")
    else CreateResponse(404, "Not Found", "")
  }

  // ---------------------------------------------------------------------
  // Reference: an ordered route table, first match wins

  datatype MatchKind = Exact | Prefix
  datatype Handler = Root | Echo | UserAgent
  datatype Route = Route(pattern: seq<char>, kind: MatchKind, handler: Handler)

  const Routes: seq<Route> := [Route("/", Exact, Root), Route("/echo/", Prefix, Echo), Route("/user-agent", Exact, UserAgent)]

  predicate RouteMatches(route: Route, path: seq<char>) {
    match route.kind
    case Exact => path == route.pattern
    case Prefix => route.pattern <= path
  }

  /** The index of the first route that matches, if any. */
  function FirstRoute(table: seq<Route>, path: seq<char>): (k: Option<nat>)
    ensures k.Some? ==> k.value < |table| && RouteMatches(table[k.value], path)
                        && forall j :: 0 <= j < k.value ==> !RouteMatches(table[j], path)
    ensures k.None? ==> forall j :: 0 <= j < |table| ==> !RouteMatches(table[j], path)
  {
    if table == [] then None
    else if RouteMatches(table[0], path) then Some(0)
    else match FirstRoute(table[1..], path)
      case None => None
      case Some(i) => Some(i + 1)
  }

  function RunHandler(route: Route, path: seq<char>, userAgent: Option<seq<char>>): Response
    requires route.pattern <= path
  {
    match route.handler
    case Root => Response(200, "OK", "text/plain", "")
    case Echo => Response(200, "OK", "text/plain", path[|route.pattern|..])
    case UserAgent => Response(200, "OK", "text/plain", if userAgent.Some? then userAgent.value else "")
  }

  function Dispatch(table: seq<Route>, path: seq<char>, userAgent: Option<seq<char>>): Response {
    match FirstRoute(table, path)
    case None => Response(404, "Not Found", "text/plain", "")
    case Some(k) => RunHandler(table[k], path, userAgent)
  }

  /** Which route of the table a path selects. */
  lemma RoutesChoice(path: seq<char>)
    ensures FirstRoute(Routes, path) == Some(0) <==> path == "/"
    ensures FirstRoute(Routes, path) == Some(1) <==> path != "/" && StartsWithEcho(path)
    ensures FirstRoute(Routes, path) == Some(2) <==> path == "/user-agent"
    ensures FirstRoute(Routes, path).None? <==> path != "/" && !StartsWithEcho(path) && path != "/user-agent"
  {
    var r0, r1, r2 := Routes[0], Routes[1], Routes[2];
    assert RouteMatches(r1, path) <==> StartsWithEcho(path) by {
      assert r1.pattern == "/echo/";
    }
    UserAgentIsNotEcho();
    var k := FirstRoute(Routes, path);
    if k.Some? {
      assert k.value < 3;
    }
  }

  lemma UserAgentIsNotEcho()
    ensures !StartsWithEcho("/user-agent")
  {
    assert "/user-agent"[..6][1] != "/echo/"[1];
  }

  lemma DispatchOnRoutes(path: seq<char>, userAgent: Option<seq<char>>)
    ensures Dispatch(Routes, path, userAgent) ==
      if path == "/" then Response(200, "OK", "text/plain", "")
      else if StartsWithEcho(path) then Response(200, "OK", "text/plain", path[6..])
      else if path == "/user-agent" then Response(200, "OK", "text/plain", if userAgent.Some? then userAgent.value else "")
      else Response(404, "Not Found", "text/plain", "")
  {
    RoutesChoice(path);
  }

  // ---------------------------------------------------------------------
  // What each branch of the chain does

  /** The root handler is chosen only when the path is exactly "/". */
  lemma RootOnlyExact(httpMethod: seq<char>, path: seq<char>, userAgent: Option<seq<char>>)
    ensures FirstRoute(Routes, path) == Some(0) <==> path == "/"
    ensures path == "/" ==> ProcessRequest(httpMethod, path, userAgent) == Response(200, "OK", "text/plain", "")
  {
    RoutesChoice(path);
  }

  /** "//" is not the root: it falls through to 404. */
  lemma DoubleSlashIsNotFound(httpMethod: seq<char>, userAgent: Option<seq<char>>)
    ensures ProcessRequest(httpMethod, "//", userAgent) == Response(404, "Not Found", "text/plain", "")
  {
  }

  /** A path under "/echo/" answers 200 with the path minus its first six characters. */
  lemma EchoBody(httpMethod: seq<char>, path: seq<char>, userAgent: Option<seq<char>>)
    requires StartsWithEcho(path)
    ensures ProcessRequest(httpMethod, path, userAgent) == Response(200, "OK", "text/plain", path[6..])
    ensures path == "/echo/" ==> ProcessRequest(httpMethod, path, userAgent).body == ""
  {
  }

  /** "/user-agent" echoes the User-Agent value, or the empty string when the header is missing. */
  lemma UserAgentBody(httpMethod: seq<char>, userAgent: Option<seq<char>>)
    ensures ProcessRequest(httpMethod, "/user-agent", userAgent)
         == Response(200, "OK", "text/plain", if userAgent.Some? then userAgent.value else "")
  {
    UserAgentIsNotEcho();
  }

  /** Exactly the paths no branch claims get 404 "Not Found" with an empty body. */
  lemma NotFoundOtherwise(httpMethod: seq<char>, path: seq<char>, userAgent: Option<seq<char>>)
    ensures ProcessRequest(httpMethod, path, userAgent).statusCode == 404
        <==> path != "/" && !StartsWithEcho(path) && path != "/user-agent"
    ensures ProcessRequest(httpMethod, path, userAgent).statusCode == 404
        ==> ProcessRequest(httpMethod, path, userAgent) == Response(404, "Not Found", "text/plain", "")
  {
  }

  /** The method plays no part in the answer. */
  lemma MethodIgnored(m1: seq<char>, m2: seq<char>, path: seq<char>, userAgent: Option<seq<char>>)
    ensures ProcessRequest(m1, path, userAgent) == ProcessRequest(m2, path, userAgent)
  {
  }
}
