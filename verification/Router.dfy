/** The routing table and its dispatch. */
module Router {
  import opened Wrappers
  import opened Text
  import opened HttpParser
  import opened HttpResponse

  type Handler = Request -> Response

  /** Path first, then method. */
  type Routes = map<string, map<string, Handler>>

  function Methods(routes: Routes, path: string): map<string, Handler> {
    if path in routes then routes[path] else map[]
  }

  function AddRoute(routes: Routes, method_: string, path: string, handler: Handler): Routes {
    routes[path := Methods(routes, path)[method_ := handler]]
  }

  ghost predicate Registered(routes: Routes, method_: string, path: string) {
    path in routes && method_ in routes[path]
  }

  /** Registering one route changes that entry and no other. */
  lemma AddRouteExact(routes: Routes, method_: string, path: string, handler: Handler, m: string, p: string)
    ensures var r := AddRoute(routes, method_, path, handler);
            if m == method_ && p == path then Registered(r, m, p) && r[p][m] == handler
            else (Registered(r, m, p) <==> Registered(routes, m, p))
                 && (Registered(r, m, p) ==> r[p][m] == routes[p][m])
  {
  }

  /** The names joined by a comma and a space. */
  function Join(names: seq<string>): string {
    if names == [] then ""
    else
      var head, last := Join(names[..|names| - 1]), names[|names| - 1];
      if head == "" then last else head + ", " + last
  }

  /**
   Dispatch.  `file` is what the static file handler answers for the path, and `order` is the order
   in which the path's methods are walked.
   */
  function Handle(routes: Routes, req: Request, file: Option<Response>, order: seq<string>): Response {
    if req.path !in routes then
      if (req.kind == Get || req.kind == Head) && file.Some? then
        if req.kind == Head then SetBody(file.value, "") else file.value
      else Plain(NotFound, "Not Found")
    else if req.method_ !in routes[req.path] then NotAllowed(Join(order))
    else routes[req.path][req.method_](req)
  }

  function Echo(req: Request): Response {
    OkResponse(req.body, "text/plain")
  }

  /** One call of `add_route`. */
  datatype Entry = Entry(method_: string, path: string, handler: Handler)

  /** The table after a sequence of registrations. */
  function Table(entries: seq<Entry>): Routes {
    if entries == [] then map[]
    else
      var last := entries[|entries| - 1];
      AddRoute(Table(entries[..|entries| - 1]), last.method_, last.path, last.handler)
  }

  ghost predicate Matches(e: Entry, method_: string, path: string) {
    e.method_ == method_ && e.path == path
  }

  /** A method and path reach the handler of their last registration. */
  lemma {:induction false} LastRegistrationWins(entries: seq<Entry>, i: nat, m: string, p: string)
    requires i < |entries| && Matches(entries[i], m, p)
    requires forall j :: i < j < |entries| ==> !Matches(entries[j], m, p)
    ensures Registered(Table(entries), m, p) && Table(entries)[p][m] == entries[i].handler
    decreases |entries|
  {
    var n := |entries| - 1;
    var last := entries[n];
    AddRouteExact(Table(entries[..n]), last.method_, last.path, last.handler, m, p);
    if i < n {
      LastRegistrationWins(entries[..n], i, m, p);
    }
  }

  /** What was never registered is not found. */
  lemma {:induction false} UnregisteredStays(entries: seq<Entry>, m: string, p: string)
    requires forall j :: 0 <= j < |entries| ==> !Matches(entries[j], m, p)
    ensures !Registered(Table(entries), m, p)
    decreases |entries|
  {
    if entries != [] {
      var n := |entries| - 1;
      var last := entries[n];
      AddRouteExact(Table(entries[..n]), last.method_, last.path, last.handler, m, p);
      UnregisteredStays(entries[..n], m, p);
    }
  }

  /** The default registrations.  `page` stands for the handlers that read files, sleep or print metrics. */
  function DefaultEntries(page: string -> Handler): seq<Entry> {
    [Entry("GET", "/dashboard", page("/dashboard")),
     Entry("GET", "/playground", page("/playground")),
     Entry("GET", "/lab", page("/lab")),
     Entry("GET", "/work", page("/work")),
     Entry("GET", "/health", req => OkResponse("{\"status\":\"ok\"}", "application/json")),
     Entry("GET", "/hello", req => OkResponse("Hello, World!\n", "text/plain")),
     Entry("GET", "/metrics", page("/metrics")),
     Entry("POST", "/echo", Echo),
     Entry("HEAD", "/hello", req => OkResponse("", "text/plain")),
     Entry("HEAD", "/health", req => OkResponse("", "application/json"))]
  }

  function DefaultRoutes(page: string -> Handler): Routes {
    Table(DefaultEntries(page))
  }

  /** The echo path answers to POST, with the echo handler, and to no other method. */
  lemma EchoRegistered(page: string -> Handler, m: string)
    ensures var r := DefaultRoutes(page); Registered(r, "POST", "/echo") && r["/echo"]["POST"] == Echo
    ensures m != "POST" ==> m !in DefaultRoutes(page)["/echo"]
  {
    hide Table;
    var entries := DefaultEntries(page);
    LastRegistrationWins(entries, 7, "POST", "/echo");
    if m != "POST" {
      forall j | 0 <= j < |entries| ensures !Matches(entries[j], m, "/echo") {
      }
      UnregisteredStays(entries, m, "/echo");
    }
  }

  /** A POST to /echo answers 200 with the request's body, whatever files exist and however maps are walked. */
  lemma EchoAnswers(page: string -> Handler, req: Request, file: Option<Response>, order: seq<string>)
    requires req.path == "/echo"
    ensures req.method_ == "POST" ==> Handle(DefaultRoutes(page), req, file, order) == OkResponse(req.body, "text/plain")
    ensures req.method_ != "POST" ==> Handle(DefaultRoutes(page), req, file, order) == NotAllowed(Join(order))
  {
    hide DefaultRoutes, Make;
    EchoRegistered(page, req.method_);
  }

  // ---- What clients are told ----

  /** The names in a list separated by a comma and a space. */
  function SplitNames(s: string): seq<string>
    decreases |s|
  {
    match Find(s, ", ", 0)
    case None => [s]
    case Some(i) => [s[..i]] + SplitNames(s[i + 2..])
  }

  ghost predicate Name(s: string) {
    s != "" && OneLine(s) && forall i :: 0 <= i < |s| ==> s[i] != ','
  }

  ghost predicate AllNames(names: seq<string>) {
    forall i :: 0 <= i < |names| ==> Name(names[i])
  }

  lemma CommaAfterName(name: string, rest: string)
    requires Name(name)
    ensures Find(name, ", ", 0) == None
    ensures Find(name + ", " + rest, ", ", 0) == Some(|name|)
  {
    var s := name + ", " + rest;
    FindFirst(name, ", ", 0);
    if Find(name, ", ", 0).Some? {
      NoCommaAt(name, Find(name, ", ", 0).value);
    }
    assert s[|name|..|name| + 2] == ", ";
    forall j | 0 <= j < |name| ensures !MatchAt(s, ", ", j) {
      assert s[j] == name[j];
      NoCommaAt(s, j);
    }
    FindIs(s, ", ", 0, |name|);
  }

  lemma NoCommaAt(s: string, j: int)
    ensures 0 <= j < |s| && s[j] != ',' ==> !MatchAt(s, ", ", j)
  {
    if 0 <= j && j + 2 <= |s| {
      assert s[j..j + 2][0] == s[j];
    }
  }

  lemma JoinOne(name: string)
    ensures Join([name]) == name
  {
    assert [name][..0] == [];
  }

  lemma {:induction false} JoinFront(names: seq<string>)
    requires |names| > 1 && AllNames(names)
    ensures Join(names) == names[0] + ", " + Join(names[1..])
  {
    var init, last := names[..|names| - 1], names[|names| - 1];
    assert Name(names[0]) && Name(last);
    if |names| > 2 {
      JoinFront(init);
      JoinNonEmpty(names[1..][..|names| - 2]);
      assert names[1..][..|names| - 2] == init[1..] && names[1..][|names| - 2] == last;
    } else {
      assert init == [names[0]] && names[1..] == [last];
      JoinOne(names[0]);
      JoinOne(last);
    }
  }

  lemma {:induction false} JoinNonEmpty(names: seq<string>)
    requires names != [] && AllNames(names)
    ensures Join(names) != "" && OneLine(Join(names))
  {
    var init := names[..|names| - 1];
    assert Name(names[|names| - 1]);
    if init != [] {
      JoinNonEmpty(init);
    }
  }

  lemma {:induction false} SplitOfJoin(names: seq<string>)
    requires names != [] && AllNames(names)
    ensures SplitNames(Join(names)) == names
  {
    hide Find, Join;
    assert Name(names[0]);
    if |names| == 1 {
      assert names == [names[0]];
      JoinOne(names[0]);
      CommaAfterName(names[0], "");
    } else {
      JoinFront(names);
      CommaAfterName(names[0], Join(names[1..]));
      var s, n := Join(names), |names[0]|;
      assert s[..n] == names[0] && s[n + 2..] == Join(names[1..]);
      SplitOfJoin(names[1..]);
      assert names == [names[0]] + names[1..];
    }
  }

  /**
   A known path with an unknown method is answered 405, and the Allow header reads back as exactly
   the registered methods, in whatever order they were walked (section 15.5.6 of RFC 9110).
   */
  lemma AllowListsMethods(routes: Routes, req: Request, file: Option<Response>, order: seq<string>)
    requires req.path in routes && req.method_ !in routes[req.path]
    requires order != [] && AllNames(order) && (forall m :: m in order <==> m in routes[req.path])
    ensures var r := Handle(routes, req, file, order);
            && r.status == MethodNotAllowed && r.body == "Method Not Allowed" && "Allow" in r.headers
            && SplitNames(r.headers["Allow"]) == order
            && (forall m :: m in SplitNames(r.headers["Allow"]) <==> m in routes[req.path])
  {
    hide Make;
    assert OneLine("text/plain");
    FactoriesFrame(MethodNotAllowed, "Method Not Allowed", "text/plain");
    JoinNonEmpty(order);
    SplitOfJoin(order);
  }

  /** The answer depends on the files exactly when the path is not in the table and the method is GET or HEAD. */
  lemma FilesOnlyForGetAndHead(routes: Routes, req: Request, order: seq<string>)
    requires req.kind == KindOf(req.method_)
    ensures (exists f, g: Option<Response> :: Handle(routes, req, f, order) != Handle(routes, req, g, order))
            <==> req.path !in routes && (req.method_ == "GET" || req.method_ == "HEAD")
  {
    hide ToDecimal;
    var file := Some(Plain(Forbidden, "Forbidden"));
    assert req.path !in routes && (req.method_ == "GET" || req.method_ == "HEAD") ==>
        Handle(routes, req, None, order).status != Handle(routes, req, file, order).status;
  }

  /**
   HEAD against GET outside the table: same status and same headers except Content-Length.  The whole
   header block is the same, as section 9.3.2 of RFC 9110 asks, exactly when no file is found or the
   file is empty.
   */
  lemma HeadVersusGet(routes: Routes, get: Request, head: Request, file: Option<Response>, order: seq<string>)
    requires get.path == head.path && get.path !in routes && get.kind == Get && head.kind == Head
    requires file.Some? ==> Framed(file.value)
    ensures var g, h := Handle(routes, get, file, order), Handle(routes, head, file, order);
            && h.status == g.status
            && (forall k :: k != LENGTH ==> (k in h.headers <==> k in g.headers))
            && (forall k :: k != LENGTH && k in h.headers ==> h.headers[k] == g.headers[k])
            && (h.headers == g.headers <==> file.None? || g.body == "")
  {
    if file.Some? {
      OnlyZeroPrintsZero(|file.value.body|);
      var h := SetBody(file.value, "");
      assert h.headers[LENGTH] == ToDecimal(0);
      if file.value.body == "" {
        assert h.headers == file.value.headers;
      }
    }
  }

  lemma OnlyZeroPrintsZero(n: nat)
    ensures ToDecimal(n) == ToDecimal(0) <==> n == 0
  {
    if 0 < n < 10 {
      assert ToDecimal(n)[0] != ToDecimal(0)[0];
    } else if n >= 10 {
      assert |ToDecimal(n)| > 1;
    }
  }

  /** A path that is not in the table, with no file or a method other than GET and HEAD, is answered 404 on the wire. */
  lemma UnknownPathOnTheWire(routes: Routes, req: Request, file: Option<Response>, order: seq<string>, walk: seq<string>)
    requires req.path !in routes && (file.None? || (req.kind != Get && req.kind != Head))
    ensures var r := Handle(routes, req, file, order);
            var headers := map["Content-Length" := "9", "Content-Type" := "text/plain", "Connection" := "close"];
            && r.headers == headers
            && (IsOrder(walk, headers) ==>
                  ReadResponse(Serialize(r, walk)) == Some(Seen(404, "Not Found", headers, "Not Found")))
  {
    hide Make, ReadResponse, Serialize;
    assert OneLine("text/plain");
    assert ToDecimal(9) == "9" && |"Not Found"| == 9;
    MadeOnTheWire(NotFound, "Not Found", "text/plain", walk);
  }

  /** With a file, GET is answered with the file itself, HEAD with its status, no body and length zero. */
  lemma FileAnswers(routes: Routes, req: Request, file: Response, order: seq<string>)
    requires req.path !in routes
    ensures var r := Handle(routes, req, Some(file), order);
            && (req.kind == Get ==> r == file)
            && (req.kind == Head ==>
                  r.status == file.status && r.body == "" && r.headers == file.headers["Content-Length" := "0"])
  {
    assert ToDecimal(0) == "0";
  }

  // ---- The default table ----

  lemma {:induction false} PathFromEntry(entries: seq<Entry>, p: string)
    ensures p in Table(entries) <==> exists i :: 0 <= i < |entries| && entries[i].path == p
  {
    if entries != [] {
      var n := |entries| - 1;
      PathFromEntry(entries[..n], p);
      if p in Table(entries[..n]) {
        var i :| 0 <= i < n && entries[..n][i].path == p;
        assert entries[i].path == p;
      } else if entries[n].path != p {
        forall i | 0 <= i < |entries| ensures entries[i].path != p {
          assert i < n ==> entries[..n][i] == entries[i];
        }
      }
    }
  }

  /** Exactly these paths are in the default table, and these methods answer there. */
  lemma DefaultTableExactly(page: string -> Handler, m: string, p: string)
    ensures p in DefaultRoutes(page)
            <==> p in {"/dashboard", "/playground", "/lab", "/work", "/metrics", "/health", "/hello", "/echo"}
    ensures Registered(DefaultRoutes(page), m, p)
            <==> || (m == "GET" && p in {"/dashboard", "/playground", "/lab", "/work", "/metrics", "/health", "/hello"})
                 || (m == "POST" && p == "/echo")
                 || (m == "HEAD" && p in {"/health", "/hello"})
  {
    hide Table;
    var entries := DefaultEntries(page);
    PathFromEntry(entries, p);
    assert entries[0].path == "/dashboard" && entries[1].path == "/playground" && entries[2].path == "/lab";
    assert entries[3].path == "/work" && entries[4].path == "/health" && entries[5].path == "/hello";
    assert entries[6].path == "/metrics" && entries[7].path == "/echo";
    if i :| 0 <= i < |entries| && Matches(entries[i], m, p) {
      OnlyOnce(page, m, p, i);
      LastRegistrationWins(entries, i, m, p);
    } else {
      UnregisteredStays(entries, m, p);
      NotListed(page, m, p);
    }
  }

  /** No method and path are registered twice. */
  lemma OnlyOnce(page: string -> Handler, m: string, p: string, i: nat)
    requires i < |DefaultEntries(page)| && Matches(DefaultEntries(page)[i], m, p)
    ensures forall j :: i < j < |DefaultEntries(page)| ==> !Matches(DefaultEntries(page)[j], m, p)
  {
  }

  lemma NotListed(page: string -> Handler, m: string, p: string)
    requires forall i :: 0 <= i < |DefaultEntries(page)| ==> !Matches(DefaultEntries(page)[i], m, p)
    ensures !(m == "GET" && p in {"/dashboard", "/playground", "/lab", "/work", "/metrics", "/health", "/hello"})
    ensures !(m == "POST" && p == "/echo") && !(m == "HEAD" && p in {"/health", "/hello"})
  {
    var entries := DefaultEntries(page);
    assert !Matches(entries[0], m, p) && !Matches(entries[1], m, p) && !Matches(entries[2], m, p);
    assert !Matches(entries[3], m, p) && !Matches(entries[4], m, p) && !Matches(entries[5], m, p);
    assert !Matches(entries[6], m, p) && !Matches(entries[7], m, p) && !Matches(entries[8], m, p) && !Matches(entries[9], m, p);
  }

  lemma DefaultHandler(page: string -> Handler, i: nat)
    requires i < |DefaultEntries(page)|
    ensures var e, r := DefaultEntries(page)[i], DefaultRoutes(page);
            Registered(r, e.method_, e.path) && r[e.path][e.method_] == e.handler
  {
    hide Table;
    var entries := DefaultEntries(page);
    OnlyOnce(page, entries[i].method_, entries[i].path, i);
    LastRegistrationWins(entries, i, entries[i].method_, entries[i].path);
  }

  /** The body and the type of the pages with fixed text. */
  function FixedBody(req: Request): string {
    if req.method_ == "HEAD" then "" else if req.path == "/hello" then "Hello, World!\n" else "{\"status\":\"ok\"}"
  }

  function FixedType(req: Request): string {
    if req.path == "/hello" then "text/plain" else "application/json"
  }

  ghost predicate AsksFixedPage(req: Request) {
    (req.path == "/hello" || req.path == "/health") && (req.method_ == "GET" || req.method_ == "HEAD")
  }

  lemma FixedPages(page: string -> Handler, req: Request, file: Option<Response>, order: seq<string>)
    requires AsksFixedPage(req)
    ensures Handle(DefaultRoutes(page), req, file, order) == Make(Ok, FixedBody(req), FixedType(req))
  {
    hide Make, DefaultRoutes;
    DefaultHandler(page, 4);
    DefaultHandler(page, 5);
    DefaultHandler(page, 8);
    DefaultHandler(page, 9);
  }

  /** The pages with fixed text as their receiver sees them: 200, the literal text for GET and none for HEAD. */
  lemma FixedPagesOnTheWire(page: string -> Handler, req: Request, file: Option<Response>, order: seq<string>, walk: seq<string>)
    requires AsksFixedPage(req)
    ensures var r := Handle(DefaultRoutes(page), req, file, order);
            var headers := FactoryHeaders(FixedBody(req), FixedType(req));
            && r.headers == headers
            && (IsOrder(walk, headers) ==>
                  ReadResponse(Serialize(r, walk)) == Some(Seen(200, "OK", headers, FixedBody(req))))
  {
    hide Make, ReadResponse, Serialize, DefaultRoutes, FactoryHeaders, Handle, FixedBody;
    FixedPages(page, req, file, order);
    assert OneLine("text/plain") && OneLine("application/json");
    MadeOnTheWire(Ok, FixedBody(req), FixedType(req), walk);
  }

  /** The other pages reach their own handlers. */
  lemma PagesReached(page: string -> Handler, p: string)
    requires p in {"/dashboard", "/playground", "/lab", "/work", "/metrics"}
    ensures Registered(DefaultRoutes(page), "GET", p) && DefaultRoutes(page)[p]["GET"] == page(p)
  {
    hide DefaultRoutes;
    DefaultHandler(page, 0);
    DefaultHandler(page, 1);
    DefaultHandler(page, 2);
    DefaultHandler(page, 3);
    DefaultHandler(page, 6);
  }

  // ---- Every answer is framed ----

  ghost predicate FramedHandler(h: Handler) {
    forall req :: Framed(h(req))
  }

  ghost predicate FramedRoutes(routes: Routes) {
    forall p, m :: Registered(routes, m, p) ==> FramedHandler(routes[p][m])
  }

  lemma {:induction false} TableFramed(entries: seq<Entry>)
    requires forall i :: 0 <= i < |entries| ==> FramedHandler(entries[i].handler)
    ensures FramedRoutes(Table(entries))
  {
    if entries != [] {
      var n := |entries| - 1;
      TableFramed(entries[..n]);
      forall p, m | Registered(Table(entries), m, p) ensures FramedHandler(Table(entries)[p][m]) {
        AddRouteExact(Table(entries[..n]), entries[n].method_, entries[n].path, entries[n].handler, m, p);
      }
    }
  }

  lemma FixedFramed(status: Status, body: string, contentType: string)
    requires OneLine(contentType)
    ensures Framed(Make(status, body, contentType))
  {
    FactoriesFrame(status, body, contentType);
  }

  lemma DefaultEntriesFramed(page: string -> Handler)
    requires forall name :: FramedHandler(page(name))
    ensures forall i :: 0 <= i < |DefaultEntries(page)| ==> FramedHandler(DefaultEntries(page)[i].handler)
  {
    hide Make, Framed;
    assert OneLine("text/plain") && OneLine("application/json");
    forall body: string ensures Framed(OkResponse(body, "text/plain")) && Framed(OkResponse(body, "application/json")) {
      FixedFramed(Ok, body, "text/plain");
      FixedFramed(Ok, body, "application/json");
    }
    var entries := DefaultEntries(page);
  }

  lemma DefaultRoutesFramed(page: string -> Handler)
    requires forall name :: FramedHandler(page(name))
    ensures FramedRoutes(DefaultRoutes(page))
  {
    DefaultEntriesFramed(page);
    TableFramed(DefaultEntries(page));
  }

  /** Whatever the request, the answer's Content-Length is the length of its body. */
  lemma HandleFramed(routes: Routes, req: Request, file: Option<Response>, order: seq<string>)
    requires FramedRoutes(routes) && (file.Some? ==> Framed(file.value)) && AllNames(order)
    ensures Framed(Handle(routes, req, file, order))
  {
    hide Make;
    assert OneLine("text/plain");
    if req.path !in routes {
      FixedFramed(NotFound, "Not Found", "text/plain");
      if file.Some? {
        SetBodyFrames(file.value, "");
      }
    } else if req.method_ !in routes[req.path] {
      if order != [] {
        JoinNonEmpty(order);
      }
      NotAllowedFrames(Join(order));
    } else {
      assert Registered(routes, req.method_, req.path);
    }
  }

  class Router {
    var routes: Routes

    constructor ()
      ensures routes == map[]
    {
      routes := map[];
    }

    method Add(method_: string, path: string, handler: Handler)
      modifies this
      ensures routes == AddRoute(old(routes), method_, path, handler)
    {
      var methods := if path in routes then routes[path] else map[];
      routes := routes[path := methods[method_ := handler]];
    }

    /** The list for the Allow header, built while walking the methods. */
    method AllowedMethods(order: seq<string>) returns (allowed: string)
      ensures allowed == Join(order)
    {
      allowed := "";
      for i := 0 to |order|
        invariant allowed == Join(order[..i])
      {
        if allowed != "" {
          allowed := allowed + ", ";
        }
        allowed := allowed + order[i];
        assert order[..i + 1][..i] == order[..i];
      }
      assert order[..|order|] == order;
    }

    method Dispatch(req: Request, file: Option<Response>, order: seq<string>) returns (r: Response)
      ensures r == Handle(routes, req, file, order)
    {
      if req.path !in routes {
        if (req.kind == Get || req.kind == Head) && file.Some? {
          if req.kind == Head {
            return SetBody(file.value, "");
          }
          return file.value;
        }
        return Plain(NotFound, "Not Found");
      }
      if req.method_ !in routes[req.path] {
        var allowed := AllowedMethods(order);
        return NotAllowed(allowed);
      }
      r := routes[req.path][req.method_](req);
    }
  }
}
