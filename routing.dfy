/** The `ROUTES` table and the first-match-wins search over it. */
module Routing {
  import opened Wrappers
  import opened Text

  /** The two shapes of the table's anchored regular expressions:
      `^\/$`-style literals, and `^\/echo\/(.*)$`-style literal prefixes
      followed by a capture in which `.` matches any character but `\n`. */
  datatype Pattern = Exactly(path: bytes) | PrefixThenLine(prefix: bytes)

  /** Whether `Regex::new(pattern).captures(target)` finds a match. */
  predicate Matches(p: Pattern, target: bytes) {
    match p
    case Exactly(path) => target == path
    case PrefixThenLine(prefix) =>
      prefix <= target && '\n' !in target[|prefix|..]
  }

  datatype Route = Route(name: bytes, pattern: Pattern, httpMethod: bytes)

  const ROUTES: seq<Route> := [
    Route("index", Exactly("/"), "GET"),
    Route("echo", PrefixThenLine("/echo/"), "GET"),
    Route("user_agent", Exactly("/user-agent"), "GET"),
    Route("get_file", PrefixThenLine("/files/"), "GET"),
    Route("post_file", PrefixThenLine("/files/"), "POST")
  ]

  /** The condition `stream_handler` tests on each route: its pattern
      matches the target and its method equals the request's, byte for byte. */
  predicate Selects(route: Route, httpMethod: bytes, target: bytes) {
    Matches(route.pattern, target) && route.httpMethod == httpMethod
  }

  /** `ROUTES.iter().position(...)`: the least index of a route that selects
      the request, or `None` when no route does. */
  function RoutePosition(routes: seq<Route>, httpMethod: bytes, target: bytes): (r: Option<nat>)
    ensures r.Some? ==> r.value < |routes| && Selects(routes[r.value], httpMethod, target)
    ensures r.Some? ==> forall j | 0 <= j < r.value :: !Selects(routes[j], httpMethod, target)
    ensures r.None? <==> forall j | 0 <= j < |routes| :: !Selects(routes[j], httpMethod, target)
  {
    FirstIndex(routes, (route: Route) => Selects(route, httpMethod, target))
  }

  /** Table order is the only tie-break: of two routes that both select a
      request, the later one is never chosen. */
  lemma {:induction false} EarlierRouteWins(routes: seq<Route>, i: nat, j: nat, httpMethod: bytes, target: bytes)
    requires i < j < |routes|
    requires Selects(routes[i], httpMethod, target) && Selects(routes[j], httpMethod, target)
    ensures RoutePosition(routes, httpMethod, target).Some?
    ensures RoutePosition(routes, httpMethod, target).value <= i
  {
  }

  lemma RouteIndex()
    ensures RoutePosition(ROUTES, "GET", "/") == Some(0)
  {
  }

  lemma RouteEcho(text: bytes)
    requires '\n' !in text
    ensures RoutePosition(ROUTES, "GET", "/echo/" + text) == Some(1)
  {
    var target: bytes := "/echo/" + text;
    assert target[|"/echo/"|..] == text;
    assert !Matches(ROUTES[0].pattern, target) by { assert |target| > 1; }
  }

  lemma RouteUserAgent()
    ensures RoutePosition(ROUTES, "GET", "/user-agent") == Some(2)
  {
    assert !Matches(ROUTES[1].pattern, "/user-agent") by {
      assert "/user-agent"[1] != "/echo/"[1];
    }
  }

  /** The two file routes share one pattern and differ only in method. */
  lemma RouteFiles(name: bytes)
    requires '\n' !in name
    ensures RoutePosition(ROUTES, "GET", "/files/" + name) == Some(3)
    ensures RoutePosition(ROUTES, "POST", "/files/" + name) == Some(4)
  {
    var target: bytes := "/files/" + name;
    assert target[|"/files/"|..] == name;
    assert target[1] == 'f';
    assert !Matches(ROUTES[0].pattern, target) by { assert |target| > 1; }
    assert !Matches(ROUTES[1].pattern, target) by { assert "/echo/"[1] == 'e'; }
    assert !Matches(ROUTES[2].pattern, target) by { assert "/user-agent"[1] == 'u'; }
  }

  /** Only GET and POST appear in the table. */
  lemma RouteOtherMethod(httpMethod: bytes, target: bytes)
    requires httpMethod != "GET" && httpMethod != "POST"
    ensures RoutePosition(ROUTES, httpMethod, target) == None
  {
  }

  /** A POST goes nowhere but to `/files/`. */
  lemma RoutePostOutsideFiles(target: bytes)
    requires !("/files/" <= target)
    ensures RoutePosition(ROUTES, "POST", target) == None
  {
  }

  lemma RouteUnknownPath()
    ensures RoutePosition(ROUTES, "GET", "/nope") == None
  {
    var target: bytes := "/nope";
    assert target[1] == 'n';
    assert !Matches(ROUTES[1].pattern, target) by { assert "/echo/"[1] == 'e'; }
    assert !Matches(ROUTES[3].pattern, target) by { assert "/files/"[1] == 'f'; }
  }
}
