/**
 * The router: a table from (method, path) to handler, filled by four
 * registration methods and consulted by `handle`.
 */
module Routing {
  import opened Http
  import opened Text
  import opened Response

  /**
   * A handler computes a response from a request. Handlers are opaque here:
   * any total function from requests to responses.
   */
  type Handler = HttpRequest -> HttpResponse

  const NotFoundBody: string := "<h1>404 - Page Not Found</h1>"

  /**
   * The response `handle` gives when no route matches: a 404 with an HTML
   * content type, the not-found heading as body and its `Content-Length`.
   */
  function NotFoundPage(): (r: HttpResponse)
    ensures r.statusCode == 404 && r.statusText == "NOT FOUND"
    ensures r.headers.Keys == {ContentType, ContentLength}
    ensures r.headers[ContentType] == "text/html"
    ensures r.body == NotFoundBody
  {
    HttpResponse.NotFound().WithBody(NotFoundBody)
  }

  class Router {
    /** The route table, keyed by method and exact path. */
    var routes: map<(HttpMethod, string), Handler>

    /** An empty table. */
    constructor ()
      ensures routes == map[]
    {
      routes := map[];
    }

    /** Registers `handler` for GET on `path`, replacing any earlier one. */
    method Get(path: string, handler: Handler)
      modifies this
      ensures routes == old(routes)[(GET, path) := handler]
    {
      routes := routes[(GET, path) := handler];
    }

    /** Registers `handler` for POST on `path`, replacing any earlier one. */
    method Post(path: string, handler: Handler)
      modifies this
      ensures routes == old(routes)[(POST, path) := handler]
    {
      routes := routes[(POST, path) := handler];
    }

    /** Registers `handler` for PUT on `path`, replacing any earlier one. */
    method Put(path: string, handler: Handler)
      modifies this
      ensures routes == old(routes)[(PUT, path) := handler]
    {
      routes := routes[(PUT, path) := handler];
    }

    /** Registers `handler` for DELETE on `path`, replacing any earlier one. */
    method Delete(path: string, handler: Handler)
      modifies this
      ensures routes == old(routes)[(DELETE, path) := handler]
    {
      routes := routes[(DELETE, path) := handler];
    }

    /**
     * Dispatches on the request's method and exact path: a registered
     * handler answers with whatever it returns; otherwise the answer is the
     * not-found page. Being a function of the state, it changes no route.
     */
    function Handle(request: HttpRequest): (r: HttpResponse)
      reads this
      ensures (request.httpMethod, request.path) in routes
              ==> r == routes[(request.httpMethod, request.path)](request)
      ensures (request.httpMethod, request.path) !in routes ==> r == NotFoundPage()
    {
      var key := (request.httpMethod, request.path);
      if key in routes then routes[key](request) else NotFoundPage()
    }
  }

  // ---------------------------------------------------------------------------
  // The not-found page
  // ---------------------------------------------------------------------------

  /**
   * The not-found page in full: status 404 "NOT FOUND", an HTML content
   * type, the 29-byte heading as body and `Content-Length: 29`.
   */
  lemma NotFoundPageIs()
    ensures NotFoundPage().statusCode == 404
    ensures NotFoundPage().statusText == "NOT FOUND"
    ensures NotFoundPage().headers == map[ContentType := "text/html", ContentLength := "29"]
    ensures NotFoundPage().body == "<h1>404 - Page Not Found</h1>"
  {
    assert IsAscii(NotFoundBody) && |NotFoundBody| == 29;
    assert Decimal(29) == "29";
  }

  // ---------------------------------------------------------------------------
  // Properties of a router built by registration
  // ---------------------------------------------------------------------------

  /** Registers `handler` for `m` on `path` through the matching registration method. */
  method Register(router: Router, m: HttpMethod, path: string, handler: Handler)
    modifies router
    ensures router.routes == old(router.routes)[(m, path) := handler]
  {
    match m {
      case GET => router.Get(path, handler);
      case POST => router.Post(path, handler);
      case PUT => router.Put(path, handler);
      case DELETE => router.Delete(path, handler);
    }
  }

  /** A new router answers every request with the not-found page. */
  method EmptyRouterMisses(request: HttpRequest) returns (router: Router, r: HttpResponse)
    ensures fresh(router) && router.routes == map[]
    ensures r == router.Handle(request)
    ensures r == NotFoundPage()
  {
    router := new Router();
    r := router.Handle(request);
  }

  /**
   * Registering a method and path twice, on any router, keeps only the
   * second handler.
   */
  method LastRegistrationWins(router: Router, m: HttpMethod, path: string,
                              first: Handler, second: Handler, request: HttpRequest)
    returns (r: HttpResponse)
    modifies router
    requires request.httpMethod == m && request.path == path
    ensures router.routes == old(router.routes)[(m, path) := second]
    ensures r == router.Handle(request)
    ensures r == second(request)
  {
    Register(router, m, path, first);
    Register(router, m, path, second);
    r := router.Handle(request);
  }

  /**
   * The method is part of the key: a path registered for one method only is
   * a miss for a request with any other method on that path.
   */
  method MethodIsPartOfKey(m: HttpMethod, path: string, handler: Handler, request: HttpRequest)
    returns (router: Router, r: HttpResponse)
    requires request.httpMethod != m && request.path == path
    ensures fresh(router) && router.routes == map[(m, path) := handler]
    ensures r == router.Handle(request)
    ensures r == NotFoundPage()
  {
    router := new Router();
    Register(router, m, path, handler);
    r := router.Handle(request);
  }

  /**
   * Matching is exact: a request whose path differs from every registered
   * one, even by a prefix or a trailing slash, is a miss.
   */
  method OtherPathMisses(path: string, handler: Handler, request: HttpRequest)
    returns (router: Router, r: HttpResponse)
    requires request.path != path
    ensures fresh(router)
    ensures router.routes == map[(GET, path) := handler, (POST, path) := handler,
                                 (PUT, path) := handler, (DELETE, path) := handler]
    ensures r == router.Handle(request)
    ensures r == NotFoundPage()
  {
    router := new Router();
    router.Get(path, handler);
    router.Post(path, handler);
    router.Put(path, handler);
    router.Delete(path, handler);
    r := router.Handle(request);
  }

  /**
   * One registration affects one key only: after registering `handler` for
   * `m` on `path`, a request with that method and path reaches `handler`,
   * and every other request is answered as before.
   */
  method RegistrationIsLocal(router: Router, m: HttpMethod, path: string, handler: Handler,
                             request: HttpRequest)
    returns (before: HttpResponse, after: HttpResponse)
    modifies router
    ensures router.routes == old(router.routes)[(m, path) := handler]
    ensures before == old(router.Handle(request)) && after == router.Handle(request)
    ensures request.httpMethod == m && request.path == path ==> after == handler(request)
    ensures !(request.httpMethod == m && request.path == path) ==> after == before
  {
    before := router.Handle(request);
    Register(router, m, path, handler);
    after := router.Handle(request);
  }
}
