/**
  The HTTP request handler, as one atomic step from a request and the shared
  state to a response and the next state. Rendering the status page template
  is a collaborator passed in as a function that may fail.
 */
module WebServer {
  import opened Wrappers
  import Decimal
  import Net
  import Sys
  import App

  datatype Method =
    | Options | Get | Post | Put | Delete | Head | Trace | Connect | Patch
    | Extension(name: ExtensionName)

  /** The names hyper parses into the standard methods above. */
  predicate IsStandardName(name: string) {
    name in {"OPTIONS", "GET", "POST", "PUT", "DELETE", "HEAD", "TRACE", "CONNECT", "PATCH"}
  }

  /** Any other method name. */
  type ExtensionName = name: string | !IsStandardName(name) witness "PURGE"

  /**
    A request as the handler sees it: the method and `req.uri().path()`, the
    path without any query string, so "/hi?x=1" is routed like "/hi".
   */
  datatype Request = Request(verb: Method, path: string)

  datatype Response = Response(status: nat, body: string)

  const OK: nat := 200
  const NOT_FOUND_STATUS: nat := 404

  const NOT_FOUND: string := "Not found\n"
  const INTERNAL_ERROR: string := "Internal Server Error\n"
  const UNKNOWN_IP: string := "?.?.?.?"
  const GREETING: string := "Hello!, your number is "

  /** The values the status page template is filled with. */
  datatype HelloView = HelloView(
    hiCount: nat,
    ip: string,
    osName: string,
    uname: App.UtsName,
    memory: Option<App.Memory>,
    uptime: Sys.Uptime)

  /** A template renderer: the page text, or nothing when rendering fails. */
  type Renderer = HelloView -> Option<string>

  /** The interface address as displayed; a placeholder when there is none. */
  function IpString(ip: Option<Net.Ipv4Addr>): (r: string)
    ensures ip.None? ==> r == UNKNOWN_IP
    ensures ip.Some? ==> r == Net.Ipv4ToString(ip.value)
  {
    match ip
    case Some(a) => Net.Ipv4ToString(a)
    case None => UNKNOWN_IP
  }

  function View(s: App.State): (v: HelloView)
    ensures v.hiCount == App.HiCount(s)
    ensures v.ip == IpString(s.host.ip)
    ensures v.osName == s.host.osName && v.uname == s.host.uname
    ensures v.memory == s.host.memory && v.uptime == s.host.uptime
  {
    HelloView(s.hiCount, IpString(s.host.ip), s.host.osName, s.host.uname, s.host.memory, s.host.uptime)
  }

  /** The body of a POST response: the greeting, the count `n` in decimal, a newline. */
  function Greeting(n: nat): (body: string)
    ensures |body| > |GREETING| + 1
    ensures body[..|GREETING|] == GREETING
    ensures body[|body| - 1] == '\n'
    ensures body[|GREETING|..|body| - 1] == Decimal.NatToString(n)
    ensures Decimal.ParseUsize(body[|GREETING|..|body| - 1]) == Some(n)
  {
    var digits := Decimal.NatToString(n);
    var body := GREETING + digits + "\n";
    assert body[|GREETING|..|body| - 1] == digits;
    Decimal.ParseNatToString(n);
    body
  }

  /** The two routes of the status page: GET or HEAD of "/" or "/hi". */
  predicate IsReadRoute(req: Request) {
    req.verb in {Get, Head} && req.path in {"/", "/hi"}
  }

  predicate IsHelloRoute(req: Request) {
    req == Request(Post, "/hi")
  }

  /**
    `handle_request`. The read route renders the current state and leaves it
    alone, with a generic error body when rendering fails. POST "/hi" adds one
    to the count directly, without the deduplication of `inc_hi_count`, and
    answers with the new count. Everything else is 404 "Not found".
   */
  function HandleRequest(s: App.State, req: Request, render: Renderer): (r: (Response, App.State))
    ensures IsReadRoute(req) ==> r.1 == s && r.0.status == OK
    ensures IsReadRoute(req) && render(View(s)).Some? ==> r.0.body == render(View(s)).value
    ensures IsReadRoute(req) && render(View(s)).None? ==> r.0.body == INTERNAL_ERROR
    ensures IsHelloRoute(req) ==>
      && r.1 == s.(hiCount := s.hiCount + 1)
      && r.0 == Response(OK, Greeting(r.1.hiCount))
    ensures !IsReadRoute(req) && !IsHelloRoute(req) ==>
      r == (Response(NOT_FOUND_STATUS, NOT_FOUND), s)
  {
    match (req.verb, req.path)
    case (Get, "/") => Read(s, render)
    case (Get, "/hi") => Read(s, render)
    case (Head, "/") => Read(s, render)
    case (Head, "/hi") => Read(s, render)
    case (Post, "/hi") =>
      var t := s.(hiCount := s.hiCount + 1);
      (Response(OK, Greeting(t.hiCount)), t)
    case _ => (Response(NOT_FOUND_STATUS, NOT_FOUND), s)
  }

  function Read(s: App.State, render: Renderer): (Response, App.State) {
    var body := render(View(s)).GetOr(INTERNAL_ERROR);
    (Response(OK, body), s)
  }

  /** The number a POST "/hi" answers with reads back as the count the state now holds. */
  lemma GreetingNamesCount(s: App.State, render: Renderer)
    ensures var (resp, t) := HandleRequest(s, Request(Post, "/hi"), render);
      && resp.body[..|GREETING|] == GREETING
      && Decimal.ParseUsize(resp.body[|GREETING|..|resp.body| - 1]) == Some(App.HiCount(t))
  {
    var t := s.(hiCount := s.hiCount + 1);
    assert HandleRequest(s, Request(Post, "/hi"), render) == (Response(OK, Greeting(t.hiCount)), t);
  }

  /**
    A POST "/hi" is counted even when the same visitor's hello would be
    rejected by the deduplication rule, and it records nothing about the visitor.
   */
  lemma PostBypassesDedup(s: App.State, from: Net.IpAddr, now: App.Instant, render: Renderer)
    requires !App.Accepts(s, from, now)
    ensures App.IncHiCount(s, from, now).hiCount == s.hiCount
    ensures var t := HandleRequest(s, Request(Post, "/hi"), render).1;
      t.hiCount == s.hiCount + 1 && t.hellos == s.hellos
  {
  }

  /** Near misses of the two routes are not found. */
  lemma NearMissesNotFound(s: App.State, render: Renderer)
    ensures HandleRequest(s, Request(Post, "/"), render) == (Response(NOT_FOUND_STATUS, NOT_FOUND), s)
    ensures HandleRequest(s, Request(Get, "/hi/"), render) == (Response(NOT_FOUND_STATUS, NOT_FOUND), s)
    ensures HandleRequest(s, Request(Put, "/hi"), render) == (Response(NOT_FOUND_STATUS, NOT_FOUND), s)
  {
  }

  /** The state after serving `reqs` one at a time. */
  function Serve(s: App.State, reqs: seq<Request>, render: Renderer): App.State
    decreases |reqs|
  {
    if reqs == [] then s
    else Serve(HandleRequest(s, reqs[0], render).1, reqs[1..], render)
  }

  /** Number of POST "/hi" requests in `reqs`. */
  function Posts(reqs: seq<Request>): (n: nat)
    ensures n <= |reqs|
    decreases |reqs|
  {
    if reqs == [] then 0
    else (if IsHelloRoute(reqs[0]) then 1 else 0) + Posts(reqs[1..])
  }

  /**
    Over any sequence of requests the count grows by exactly the number of
    POST "/hi" among them, and nothing else of the state changes.
   */
  lemma {:induction false} ServeCountsPosts(s: App.State, reqs: seq<Request>, render: Renderer)
    ensures Serve(s, reqs, render) == s.(hiCount := s.hiCount + Posts(reqs))
    decreases |reqs|
  {
    if reqs != [] {
      ServeCountsPosts(HandleRequest(s, reqs[0], render).1, reqs[1..], render);
    }
  }
}
