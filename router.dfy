/**
 * App\Core\Router: an ordered route table with middleware stacks, and the
 * first-match dispatch of a request. Handlers and middlewares are PHP
 * callables; the model names each by a number and reports which ones a
 * dispatch calls, in order, instead of calling them.
 */
module Routing {
  import opened Wrappers
  import opened Text
  import opened Json
  import opened RoutePath
  import opened Http

  type HandlerId = nat
  type MiddlewareId = nat

  /** One entry of `$routes`: the middlewares are those active when it was added. */
  datatype Route = Route(verb: string, path: string, handler: HandlerId, middlewares: seq<MiddlewareId>)

  /** What a group callback does with the router it receives. */
  datatype Registration =
    | AddRoute(verb: string, path: string, handler: HandlerId)
    | Use(middleware: MiddlewareId)
    | Group(body: seq<Registration>)

  /** A call dispatch makes: a middleware on the request, or the handler with the params. */
  datatype Call = RunMiddleware(middleware: MiddlewareId) | RunHandler(handler: HandlerId, params: map<string, string>)

  /** What dispatch does: run route `index`'s calls, or answer 404. */
  datatype Outcome = Handled(index: nat, calls: seq<Call>) | NotFound(response: Response)

  /**
   * The routes a callback adds and the middleware list it leaves behind,
   * starting from the middleware list `mws`; a nested group restores the
   * list it started from.
   */
  function Registered(script: seq<Registration>, mws: seq<MiddlewareId>): (seq<Route>, seq<MiddlewareId>)
    decreases script
  {
    if |script| == 0 then ([], mws)
    else match script[0]
      case AddRoute(verb, path, handler) =>
        var rest := Registered(script[1..], mws);
        ([Route(ToUpper(verb), path, handler, mws)] + rest.0, rest.1)
      case Use(m) => Registered(script[1..], mws + [m])
      case Group(body) =>
        var inner := Registered(body, mws);
        var rest := Registered(script[1..], mws);
        (inner.0 + rest.0, rest.1)
  }

  /** The middlewares a callback adds outside any nested group. */
  function TopLevelUses(script: seq<Registration>): seq<MiddlewareId>
    decreases |script|
  {
    if |script| == 0 then []
    else match script[0]
      case Use(m) => [m] + TopLevelUses(script[1..])
      case _ => TopLevelUses(script[1..])
  }

  /** The number of routes a callback adds, nested groups included. */
  function RouteCount(script: seq<Registration>): nat
    decreases script
  {
    if |script| == 0 then 0
    else match script[0]
      case AddRoute(_, _, _) => 1 + RouteCount(script[1..])
      case Use(_) => RouteCount(script[1..])
      case Group(body) => RouteCount(body) + RouteCount(script[1..])
  }

  /**
   * Registering never removes a middleware: every route a callback adds runs
   * the middlewares active before the callback first, the list the callback
   * leaves is the old one plus its own top-level additions (nested groups add
   * nothing), every route it adds is counted, and every method is upper case.
   */
  lemma {:induction false} RegisteredSpec(script: seq<Registration>, mws: seq<MiddlewareId>)
    ensures Registered(script, mws).1 == mws + TopLevelUses(script)
    ensures |Registered(script, mws).0| == RouteCount(script)
    ensures forall r :: r in Registered(script, mws).0 ==>
      |mws| <= |r.middlewares| && r.middlewares[..|mws|] == mws && IsUpper(r.verb)
    decreases script
  {
    if |script| > 0 {
      match script[0]
      case AddRoute(verb, path, handler) =>
        RegisteredSpec(script[1..], mws);
        ToUpperIsUpper(verb);
      case Use(m) =>
        RegisteredSpec(script[1..], mws + [m]);
        forall r | r in Registered(script, mws).0
          ensures |mws| <= |r.middlewares| && r.middlewares[..|mws|] == mws
        {
          assert r.middlewares[..|mws + [m]|][..|mws|] == r.middlewares[..|mws|];
        }
      case Group(body) =>
        RegisteredSpec(body, mws);
        RegisteredSpec(script[1..], mws);
    }
  }

  /** The calls a matched route makes: its middlewares in order, then its handler. */
  function Trace(route: Route, params: map<string, string>): (calls: seq<Call>)
    ensures |calls| == |route.middlewares| + 1
    ensures forall k :: 0 <= k < |route.middlewares| ==> calls[k] == RunMiddleware(route.middlewares[k])
    ensures calls[|calls| - 1] == RunHandler(route.handler, params)
  {
    seq(|route.middlewares|, k requires 0 <= k < |route.middlewares| => RunMiddleware(route.middlewares[k]))
      + [RunHandler(route.handler, params)]
  }

  /** The JSON body dispatch writes with status 404. */
  function NotFoundResponse(uri: string): Response
  {
    Response(404, [("success", Bool(false)), ("message", Str("Route not found")), ("path", Str(uri))])
  }

  /** Route `i` is one dispatch can take: the same method and a matching path. */
  predicate Accepts(route: Route, verb: string, uri: string)
  {
    route.verb == verb && MatchParams(route.path, uri).Some?
  }

  /** What dispatch does when it looks at the routes from index `k` on. */
  function ResolveFrom(routes: seq<Route>, verb: string, uri: string, k: nat): (o: Outcome)
    requires k <= |routes|
    ensures o.Handled? ==>
      && k <= o.index < |routes|
      && Accepts(routes[o.index], verb, uri)
      && (forall j :: k <= j < o.index ==> !Accepts(routes[j], verb, uri))
      && o.calls == Trace(routes[o.index], MatchParams(routes[o.index].path, uri).value)
    ensures o.NotFound? <==> forall j :: k <= j < |routes| ==> !Accepts(routes[j], verb, uri)
    ensures o.NotFound? ==> o.response == NotFoundResponse(uri)
    decreases |routes| - k
  {
    if k == |routes| then NotFound(NotFoundResponse(uri))
    else if Accepts(routes[k], verb, uri) then
      Handled(k, Trace(routes[k], MatchParams(routes[k].path, uri).value))
    else ResolveFrom(routes, verb, uri, k + 1)
  }

  /** dispatch's decision over the whole table: the first route that accepts. */
  function Resolve(routes: seq<Route>, verb: string, uri: string): Outcome
  {
    ResolveFrom(routes, verb, uri, 0)
  }

  /**
   * The parameters a route path captures lie within the route's own
   * placeholders and put the URI back together, so the handler receives
   * exactly the segments the URI has in those places.
   */
  lemma ResolveParams(routes: seq<Route>, verb: string, uri: string)
    requires Resolve(routes, verb, uri).Handled?
    ensures var o := Resolve(routes, verb, uri);
      var params := MatchParams(routes[o.index].path, uri).value;
      && params.Keys == NameSet(Split(routes[o.index].path))
      && (Fill(routes[o.index].path, params) == uri || Fill(routes[o.index].path, params) + "\n" == uri)
  {
    var o := Resolve(routes, verb, uri);
    MatchParamsSound(routes[o.index].path, uri);
  }

  /**
   * matchPath: run the route's pattern on the URI and keep the string keys of
   * `$matches`.
   */
  method MatchPath(routePath: string, uri: string) returns (matched: bool, params: map<string, string>)
    ensures matched <==> MatchParams(routePath, uri).Some?
    ensures matched ==> params == MatchParams(routePath, uri).value
    ensures !matched ==> params == map[]
  {
    params := map[];
    var found := Captures(routePath, uri);
    if found.None? {
      return false, params;
    }
    var entries := found.value;
    for i := 0 to |entries|
      invariant params == NamedOf(entries[..i])
    {
      assert entries[..i + 1][..i] == entries[..i];
      var (key, value) := entries[i];
      if key.Named? {
        params := params[key.name := value];
      }
    }
    assert entries[..|entries|] == entries;
    matched := true;
  }

  /** The two loops dispatch runs for a matched route: its middlewares in order, then its handler. */
  method RunRoute(route: Route, params: map<string, string>) returns (calls: seq<Call>)
    ensures calls == Trace(route, params)
  {
    calls := [];
    for j := 0 to |route.middlewares|
      invariant calls == seq(j, k requires 0 <= k < j => RunMiddleware(route.middlewares[k]))
    {
      calls := calls + [RunMiddleware(route.middlewares[j])];
    }
    calls := calls + [RunHandler(route.handler, params)];
  }

  class Router {
    var routes: seq<Route>
    var middlewares: seq<MiddlewareId>
    const request: Request

    constructor (request: Request)
      ensures routes == [] && middlewares == [] && this.request == request
    {
      routes := [];
      middlewares := [];
      this.request := request;
    }

    /** add: append a route that snapshots the current middleware list. */
    method Add(verb: string, path: string, handler: HandlerId)
      modifies this
      ensures routes == old(routes) + [Route(ToUpper(verb), path, handler, middlewares)]
      ensures middlewares == old(middlewares)
    {
      routes := routes + [Route(ToUpper(verb), path, handler, middlewares)];
    }

    method Get(path: string, handler: HandlerId)
      modifies this
      ensures routes == old(routes) + [Route("GET", path, handler, middlewares)]
      ensures middlewares == old(middlewares)
    {
      ToUpperOfUpper("GET");
      Add("GET", path, handler);
    }

    method Post(path: string, handler: HandlerId)
      modifies this
      ensures routes == old(routes) + [Route("POST", path, handler, middlewares)]
      ensures middlewares == old(middlewares)
    {
      ToUpperOfUpper("POST");
      Add("POST", path, handler);
    }

    method Put(path: string, handler: HandlerId)
      modifies this
      ensures routes == old(routes) + [Route("PUT", path, handler, middlewares)]
      ensures middlewares == old(middlewares)
    {
      ToUpperOfUpper("PUT");
      Add("PUT", path, handler);
    }

    method Delete(path: string, handler: HandlerId)
      modifies this
      ensures routes == old(routes) + [Route("DELETE", path, handler, middlewares)]
      ensures middlewares == old(middlewares)
    {
      ToUpperOfUpper("DELETE");
      Add("DELETE", path, handler);
    }

    /** middleware: every route added from now on runs `m` too. */
    method Middleware(m: MiddlewareId)
      modifies this
      ensures middlewares == old(middlewares) + [m]
      ensures routes == old(routes)
    {
      middlewares := middlewares + [m];
    }

    /** Run a callback's registrations against this router. */
    method Run(script: seq<Registration>)
      modifies this
      ensures routes == old(routes) + Registered(script, old(middlewares)).0
      ensures middlewares == Registered(script, old(middlewares)).1
      decreases script, 0
    {
      if |script| == 0 {
        return;
      }
      match script[0] {
        case AddRoute(verb, path, handler) =>
          Add(verb, path, handler);
        case Use(m) =>
          Middleware(m);
        case Group(body) =>
          Group(body);
      }
      Run(script[1..]);
    }

    /** group: run the callback, then restore the middleware list it started with. */
    method Group(body: seq<Registration>)
      modifies this
      ensures routes == old(routes) + Registered(body, old(middlewares)).0
      ensures middlewares == old(middlewares)
      decreases body, 1
    {
      var current := middlewares;
      Run(body);
      middlewares := current;
    }

    /** dispatch: the first route with the request's method whose path matches. */
    method Dispatch() returns (outcome: Outcome)
      ensures outcome == Resolve(routes, request.GetMethod(), request.GetUri())
    {
      var verb := request.GetMethod();
      var uri := request.GetUri();
      var i := 0;
      while i < |routes|
        invariant 0 <= i <= |routes|
        invariant Resolve(routes, verb, uri) == ResolveFrom(routes, verb, uri, i)
      {
        var route := routes[i];
        if route.verb == verb {
          var matched, params := MatchPath(route.path, uri);
          if matched {
            var calls := RunRoute(route, params);
            return Handled(i, calls);
          }
        }
        i := i + 1;
      }
      return NotFound(NotFoundResponse(uri));
    }
  }
}
