/**
 The route table: an HTTP method and a URL path select one of the five
 handlers. An OPTIONS request is answered by the CORS middleware in front of the
 routes, and anything else falls through to the framework's default 404.
 */
module Router {
  import opened JsonValues
  import opened DocumentStore
  import opened Handlers

  /** The name of a method other than the five the service handles. */
  type OtherName = n: string | n !in {"GET", "POST", "PUT", "DELETE", "OPTIONS"} witness "PATCH"

  datatype Method = GET | POST | PUT | DELETE | OPTIONS | OtherMethod(name: OtherName)

  /** A request as the handlers see it: the path split at `/` into segments
      (`/api/tasks/7` is `["api", "tasks", "7"]`) and the parsed JSON body. */
  datatype Request = Request(verb: Method, path: seq<string>, body: Record)

  /** A recognised request, with the route parameters extracted. */
  datatype Op =
    | ListOp(entity: string)
    | GetOp(entity: string, id: string)
    | CreateOp(entity: string, body: Record)
    | ReplaceOp(entity: string, id: string, body: Record)
    | DeleteOp(entity: string, id: string)

  /** A route parameter (`:entity`, `:id`) matches one non-empty segment. */
  predicate WellFormed(op: Op)
  {
    && op.entity != ""
    && (op.GetOp? || op.ReplaceOp? || op.DeleteOp? ==> op.id != "")
  }

  function MethodOf(op: Op): Method
  {
    match op
    case ListOp(_) => GET
    case GetOp(_, _) => GET
    case CreateOp(_, _) => POST
    case ReplaceOp(_, _, _) => PUT
    case DeleteOp(_, _) => DELETE
  }

  /** The letter case of an ASCII character folded to lower case. */
  function AsciiLower(c: char): char
  {
    if 'A' <= c <= 'Z' then (c as int + 32) as char else c
  }

  /** The fixed `api` segment. The application is created without the `case
      sensitive routing` setting, so the framework compares route literals ignoring
      case. A JavaScript case-insensitive pattern without the `u` flag only folds
      ASCII letters onto ASCII letters, so folding ASCII is exact here. */
  predicate IsApiSegment(seg: string)
  {
    && |seg| == 3
    && AsciiLower(seg[0]) == 'a'
    && AsciiLower(seg[1]) == 'p'
    && AsciiLower(seg[2]) == 'i'
  }

  /** The eight spellings the `api` segment is accepted in. */
  lemma ApiSegmentSpellings(seg: string)
    ensures IsApiSegment(seg) <==>
              seg in {"api", "apI", "aPi", "aPI", "Api", "ApI", "APi", "API"}
  {
    if IsApiSegment(seg) {
      assert seg[0] in {'a', 'A'} && seg[1] in {'p', 'P'} && seg[2] in {'i', 'I'};
      assert seg == [seg[0], seg[1], seg[2]];
    }
  }

  /** A request path that fits the registered pattern `path`: the same number of
      segments, the `api` segment in any case, and the parameters as given. */
  predicate PathFits(reqPath: seq<string>, path: seq<string>)
  {
    && |reqPath| == |path| >= 1
    && IsApiSegment(reqPath[0])
    && reqPath[1..] == path[1..]
  }

  function PathOf(op: Op): seq<string>
  {
    match op
    case ListOp(e) => ["api", e]
    case CreateOp(e, _) => ["api", e]
    case GetOp(e, id) => ["api", e, id]
    case ReplaceOp(e, id, _) => ["api", e, id]
    case DeleteOp(e, id) => ["api", e, id]
  }

  /** The five `app.get`/`app.post`/`app.put`/`app.delete` registrations. */
  function Route(req: Request): (r: Option<Op>)
    ensures r.Some? ==> WellFormed(r.value) && req.verb == MethodOf(r.value) && PathFits(req.path, PathOf(r.value))
  {
    var p := req.path;
    if |p| == 2 && IsApiSegment(p[0]) && p[1] != "" then
      match req.verb
      case GET => Some(ListOp(p[1]))
      case POST => Some(CreateOp(p[1], req.body))
      case _ => None
    else if |p| == 3 && IsApiSegment(p[0]) && p[1] != "" && p[2] != "" then
      match req.verb
      case GET => Some(GetOp(p[1], p[2]))
      case PUT => Some(ReplaceOp(p[1], p[2], req.body))
      case DELETE => Some(DeleteOp(p[1], p[2]))
      case _ => None
    else None
  }

  /** A request selects an operation exactly when its method and path are the ones
      that operation is registered under, and a body-carrying operation takes the
      request's body. */
  lemma RouteExactly(req: Request, op: Op)
    ensures Route(req) == Some(op) <==>
              && WellFormed(op)
              && req.verb == MethodOf(op)
              && PathFits(req.path, PathOf(op))
              && (op.CreateOp? || op.ReplaceOp? ==> req.body == op.body)
  {
    if WellFormed(op) && req.verb == MethodOf(op) && PathFits(req.path, PathOf(op)) {
      assert req.path[1] == PathOf(op)[1];
      if |req.path| == 3 {
        assert req.path[2] == PathOf(op)[2];
      }
    }
  }

  /** `GET /API/tasks` lists the collection, as `GET /api/tasks` does. */
  lemma UpperCaseApiRoutes(b: Record)
    ensures Route(Request(GET, ["API", "tasks"], b)) == Some(ListOp("tasks"))
    ensures Route(Request(DELETE, ["Api", "tasks", "7"], b)) == Some(DeleteOp("tasks", "7"))
  {
  }

  /** The framework's reply to a method and path no route matches. */
  const NoRoute: Response := Response(404, None)

  /** The CORS middleware, registered before every route with its defaults (no
      `preflightContinue`, `optionsSuccessStatus` 204), ends every OPTIONS request
      itself, on any path, with 204 and an empty body. */
  const Preflight: Response := Response(204, None)

  /** Dispatch a request against the store read for it. `freshId` is the value the
      identifier generator would return, used only by a create. */
  function Handle(s: Store, req: Request, freshId: string): (r: Reply)
    ensures r.response.status in {200, 201, 204, 404}
    ensures r.response.status == 404 ==> r.store == s
    ensures req.verb == GET ==> r.store == s
    ensures s.Keys <= r.store.Keys
    ensures forall e :: e in s && (|req.path| < 2 || e != req.path[1]) ==> r.store[e] == s[e]
  {
    if req.verb == OPTIONS then Reply(Preflight, s)
    else match Route(req)
    case None => Reply(NoRoute, s)
    case Some(op) =>
      match op
      case ListOp(e) => List(s, e)
      case GetOp(e, id) => Get(s, e, id)
      case CreateOp(e, body) => Create(s, e, body, freshId)
      case ReplaceOp(e, id, body) => Replace(s, e, id, body)
      case DeleteOp(e, id) => Delete(s, e, id)
  }

  /** The route table end to end: each registered method and path shape reaches its
      handler with the route parameters and body of the request, an OPTIONS request
      is answered by the CORS preflight, and every other request gets the framework's
      404. Neither of the last two touches the store. */
  lemma HandleRouteTable(s: Store, req: Request, freshId: string)
    ensures var p := req.path;
            |p| == 2 && IsApiSegment(p[0]) && p[1] != "" ==>
              && (req.verb == GET ==> Handle(s, req, freshId) == List(s, p[1]))
              && (req.verb == POST ==> Handle(s, req, freshId) == Create(s, p[1], req.body, freshId))
    ensures var p := req.path;
            |p| == 3 && IsApiSegment(p[0]) && p[1] != "" && p[2] != "" ==>
              && (req.verb == GET ==> Handle(s, req, freshId) == Get(s, p[1], p[2]))
              && (req.verb == PUT ==> Handle(s, req, freshId) == Replace(s, p[1], p[2], req.body))
              && (req.verb == DELETE ==> Handle(s, req, freshId) == Delete(s, p[1], p[2]))
    ensures Route(req).None? <==>
              !(|req.path| == 2 && IsApiSegment(req.path[0]) && req.path[1] != "" && req.verb in {GET, POST})
              && !(|req.path| == 3 && IsApiSegment(req.path[0]) && req.path[1] != "" && req.path[2] != ""
                   && req.verb in {GET, PUT, DELETE})
    ensures req.verb == OPTIONS ==> Handle(s, req, freshId) == Reply(Preflight, s)
    ensures Route(req).None? && req.verb != OPTIONS ==> Handle(s, req, freshId) == Reply(NoRoute, s)
  {
  }
}
