/**
 * The route table and the dispatcher: `Request`, `Route` and `Bobby` with
 * its per-verb registration methods and `route`.
 */
module Router {
  import opened Wrappers
  import opened Paths
  import opened Matcher
  import opened Headers
  import opened Responses

  /** `hyper::Method`: the seven verbs routes are registered for, and whatever else a request may carry. */
  datatype Method = Get | Post | Put | Delete | Patch | Options | Head | Connect | Trace | Extension(name: string)

  /** An incoming request as the transport delivers it, reduced to what routing reads: its method and URI path. */
  datatype HttpRequest = HttpRequest(verb: Method, path: string)

  /** `Request`: the view a handler receives, with the parameters extracted from the path. */
  datatype Request = Request(verb: Method, path: string, params: map<string, string>)

  /** `Request::param`: the value bound to `name`, if any. */
  function Param(req: Request, name: string): (value: Option<string>)
    ensures value.Some? <==> name in req.params
    ensures value.Some? ==> value.value == req.params[name]
  {
    if name in req.params then Some(req.params[name]) else None
  }

  /** `Route`: a method, a path pattern and the handler to call. */
  datatype Route = Route(verb: Method, path: string, callable: Request -> HandlerResponse)

  /** Whether `route` takes `req`: the methods are equal and the path matches the pattern. */
  predicate Accepts(route: Route, req: HttpRequest) {
    route.verb == req.verb && Matches(Segments(route.path), Segments(req.path))
  }

  /** The position of the first route in `routes` that takes `req`, if any. */
  function FirstMatch(routes: seq<Route>, req: HttpRequest): (found: Option<nat>)
    ensures found.Some? ==>
      && found.value < |routes|
      && Accepts(routes[found.value], req)
      && forall j :: 0 <= j < found.value ==> !Accepts(routes[j], req)
    ensures found.None? ==> forall j :: 0 <= j < |routes| ==> !Accepts(routes[j], req)
  {
    if routes == [] then None
    else if Accepts(routes[0], req) then Some(0)
    else
      match FirstMatch(routes[1..], req)
      case None => None
      case Some(i) => Some(i + 1)
  }

  /** The request view the handler of `route` is called with. */
  function ViewFor(route: Route, req: HttpRequest): Request {
    Request(req.verb, req.path, Params(Segments(route.path), Segments(req.path)))
  }

  /** The response rendered when no route takes the request. */
  function NotFound(): HandlerResponse {
    WithStatus(Html("Not found."), 404)
  }

  /** The router: an ordered, append-only route table. */
  class Bobby {
    var routes: seq<Route>

    /** `Bobby::new`: an empty route table. */
    constructor ()
      ensures routes == []
    {
      routes := [];
    }

    /** `Bobby::get`: appends a GET route. */
    method Get(path: string, callable: Request -> HandlerResponse)
      modifies this
      ensures routes == old(routes) + [Route(Method.Get, path, callable)]
    {
      routes := routes + [Route(Method.Get, path, callable)];
    }

    /** `Bobby::post`: appends a POST route. */
    method Post(path: string, callable: Request -> HandlerResponse)
      modifies this
      ensures routes == old(routes) + [Route(Method.Post, path, callable)]
    {
      routes := routes + [Route(Method.Post, path, callable)];
    }

    /** `Bobby::put`: appends a PUT route. */
    method Put(path: string, callable: Request -> HandlerResponse)
      modifies this
      ensures routes == old(routes) + [Route(Method.Put, path, callable)]
    {
      routes := routes + [Route(Method.Put, path, callable)];
    }

    /** `Bobby::delete`: appends a DELETE route. */
    method Delete(path: string, callable: Request -> HandlerResponse)
      modifies this
      ensures routes == old(routes) + [Route(Method.Delete, path, callable)]
    {
      routes := routes + [Route(Method.Delete, path, callable)];
    }

    /** `Bobby::patch`: appends a PATCH route. */
    method Patch(path: string, callable: Request -> HandlerResponse)
      modifies this
      ensures routes == old(routes) + [Route(Method.Patch, path, callable)]
    {
      routes := routes + [Route(Method.Patch, path, callable)];
    }

    /** `Bobby::options`: appends an OPTIONS route. */
    method Options(path: string, callable: Request -> HandlerResponse)
      modifies this
      ensures routes == old(routes) + [Route(Method.Options, path, callable)]
    {
      routes := routes + [Route(Method.Options, path, callable)];
    }

    /** `Bobby::head`: appends a HEAD route. */
    method Head(path: string, callable: Request -> HandlerResponse)
      modifies this
      ensures routes == old(routes) + [Route(Method.Head, path, callable)]
    {
      routes := routes + [Route(Method.Head, path, callable)];
    }

    /**
     * `Bobby::route`: renders the response of the first route, in
     * registration order, that takes the request, or the not-found response
     * when none does.
     */
    method RouteRequest(req: HttpRequest) returns (result: Result<Rendered, ResponseError>)
      ensures FirstMatch(routes, req).Some? ==>
        var i := FirstMatch(routes, req).value;
        BuildsTo(routes[i].callable(ViewFor(routes[i], req)), result)
      ensures FirstMatch(routes, req).None? ==> BuildsTo(NotFound(), result)
      ensures result.Success? ==> "content-type" in result.value.headers
    {
      for i := 0 to |routes|
        invariant forall j :: 0 <= j < i ==> !Accepts(routes[j], req)
      {
        var route := routes[i];
        if req.verb == route.verb {
          var matched := UriMatchesPath(req.path, route.path);
          if matched {
            var view := Request(req.verb, req.path, map[]);
            var params := ExtractParams(req.path, route.path);
            if params.Some? {
              view := view.(params := params.value);
            }
            var response := route.callable(view);
            result := Build(response);
            if result.Success? {
              ContentTypeAlwaysRendered(response, result.value);
            }
            return;
          }
        }
      }

      result := Build(NotFound());
      if result.Success? {
        ContentTypeAlwaysRendered(NotFound(), result.value);
      }
    }
  }

  /**
   * With no route taking the request, the rendered response is status 404,
   * body "Not found.", `content-type: text/html` and `content-length: 10`.
   */
  lemma NotFoundRendering(result: Result<Rendered, ResponseError>)
    ensures BuildsTo(NotFound(), result) <==>
      result == Success(Rendered(404, map["content-type" := "text/html", "content-length" := "10"], "Not found."))
  {
    HtmlRendering("Not found.", 404, result);
    assert ByteLength("Not found.") == 10;
    assert DecimalString(10) == "10" by {
      assert DecimalString(1) == "1";
    }
  }

  /**
   * Appending a route leaves the choice for a request alone when an earlier
   * route already takes it; otherwise the new route is chosen exactly when it
   * takes the request.
   */
  lemma {:induction false} FirstMatchAppend(routes: seq<Route>, route: Route, req: HttpRequest)
    ensures FirstMatch(routes + [route], req) ==
      if FirstMatch(routes, req).Some? then FirstMatch(routes, req)
      else if Accepts(route, req) then Some(|routes|)
      else None
  {
    var all := routes + [route];
    assert forall j :: 0 <= j < |routes| ==> all[j] == routes[j];
    assert all[|routes|] == route;
  }

  /**
   * First match wins: with `/items/{id}` registered before `/items/special`,
   * a request for `/items/special` goes to the first route although the
   * second takes it as well.
   */
  lemma FirstMatchWins(byId: Request -> HandlerResponse, special: Request -> HandlerResponse)
    ensures var routes := [Route(Get, "/items/{id}", byId), Route(Get, "/items/special", special)];
      var req := HttpRequest(Get, "/items/special");
      && Accepts(routes[1], req)
      && FirstMatch(routes, req) == Some(0)
      && ViewFor(routes[0], req).params == map["id" := "special"]
  {
    var routes := [Route(Get, "/items/{id}", byId), Route(Get, "/items/special", special)];
    var req := HttpRequest(Get, "/items/special");
    ItemsSegments();
    ItemsMatch();
    assert Accepts(routes[0], req);
    assert Accepts(routes[1], req);
  }

  lemma ItemsMatch()
    ensures Matches(["items", "{id}"], ["items", "special"])
    ensures Matches(["items", "special"], ["items", "special"])
    ensures Params(["items", "{id}"], ["items", "special"]) == map["id" := "special"]
  {
    var pat := ["items", "{id}"];
    assert !IsParam(pat[0]) && IsParam(pat[1]) && ParamName(pat[1]) == "id";
    assert ParamsUpTo(pat, ["items", "special"], 1) == map[];
  }

  lemma ItemsSegments()
    ensures Segments("/items/{id}") == ["items", "{id}"]
    ensures Segments("/items/special") == ["items", "special"]
  {
    SegmentsOf(["items", "{id}"], "items/{id}");
    SegmentsOf(["items", "special"], "items/special");
  }

  /**
   * The handler chosen for a request finds, under each parameter name of its
   * pattern that the URI reaches, the URI segment at the last position
   * carrying that name.
   */
  lemma HandlerSeesParam(routes: seq<Route>, req: HttpRequest, i: nat, j: nat)
    requires FirstMatch(routes, req) == Some(i)
    requires var pat, uri := Segments(routes[i].path), Segments(req.path);
      j < |uri| && IsParam(pat[j]) && LastBinding(pat, uri, |pat|, j)
    ensures var pat, uri := Segments(routes[i].path), Segments(req.path);
      Param(ViewFor(routes[i], req), ParamName(pat[j])) == Some(uri[j])
  {
    var pat, uri := Segments(routes[i].path), Segments(req.path);
    ParamsUpToSpec(pat, uri, |pat|);
  }
}
