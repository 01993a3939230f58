/** The route records the generator reads, as plain values, and the route
    filter `Generator::getRoutes` (src/Generator.php:69-81). What the router,
    reflection and the doc-comment parser would report is given as fields. */
module Routes {
  import opened Wrappers
  import opened Text
  import opened Rules
  import opened PathParameters

  /** A response object produced by the response extractor; its contents are
      not inspected here. */
  datatype Response = Response(status: string, body: string)

  /** What the handler method's doc comment provides: the summary and
      description attributes ("" when absent) and its `@param` tags. */
  datatype MethodDoc = MethodDoc(summary: string, description: string, params: seq<DocParam>)

  /** The class-based handler of a route.
      - `classTags`: the values of the `@tags` tags of the class doc comment.
      - `rules`: what the rule extractors return for the handler, `None` when
        neither applies, `Failure` when extraction throws.
      - `responses`: what the response extractor returns, in order. */
  datatype Handler = Handler(
    className: string,
    classTags: seq<string>,
    params: seq<HandlerParam>,
    doc: MethodDoc,
    rules: Result<Option<seq<RuleField>>>,
    responses: seq<Response>)

  /** A registered route. `name` is the `as` action (absent when unnamed);
      `handler` is absent for closure routes. */
  datatype Route = Route(
    methods: seq<string>,
    uri: string,
    parameterNames: seq<string>,
    name: Option<string>,
    middleware: seq<string>,
    handler: Option<Handler>)

  /** Routes of the documentation UI itself: a truthy name starting with
      `api-docs`. */
  predicate IsDocsRoute(r: Route) {
    r.name.Some? && Truthy(r.name.value) && StartsWith(r.name.value, "api-docs")
  }

  /** The default route resolver: the route runs the `api` middleware group. */
  predicate InApiGroup(r: Route) {
    "api" in r.middleware
  }

  /** A route is documented when it is not a docs route and the custom
      resolver accepts it, or, when none is set, it is in the `api` group. */
  predicate Admitted(r: Route, resolver: Option<Route -> bool>) {
    !IsDocsRoute(r) && (if resolver.Some? then resolver.value(r) else InApiGroup(r))
  }

  /** `getRoutes`: the admitted routes, in registration order. */
  function FilterRoutes(routes: seq<Route>, resolver: Option<Route -> bool>): (r: seq<Route>)
    ensures |r| <= |routes|
    ensures forall x :: x in r <==> x in routes && Admitted(x, resolver)
  {
    if |routes| == 0 then []
    else
      var rest := FilterRoutes(routes[1..], resolver);
      assert forall x :: x in routes <==> x == routes[0] || x in routes[1..];
      if Admitted(routes[0], resolver) then [routes[0]] + rest else rest
  }

  /** The filter keeps relative order: filtering a concatenation concatenates
      the filtered parts. */
  lemma {:induction false} FilterConcat(a: seq<Route>, b: seq<Route>, resolver: Option<Route -> bool>)
    ensures FilterRoutes(a + b, resolver) == FilterRoutes(a, resolver) + FilterRoutes(b, resolver)
  {
    if |a| > 0 {
      assert (a + b)[0] == a[0];
      assert (a + b)[1..] == a[1..] + b;
      FilterConcat(a[1..], b, resolver);
    } else {
      assert a + b == b;
    }
  }

  /** Filtering twice is filtering once. */
  lemma {:induction false} FilterIdempotent(routes: seq<Route>, resolver: Option<Route -> bool>)
    ensures FilterRoutes(FilterRoutes(routes, resolver), resolver) == FilterRoutes(routes, resolver)
  {
    if |routes| > 0 {
      FilterIdempotent(routes[1..], resolver);
      var rest := FilterRoutes(routes[1..], resolver);
      if Admitted(routes[0], resolver) {
        assert ([routes[0]] + rest)[1..] == rest;
      }
    }
  }

  /** A custom resolver replaces the middleware test: a route outside the
      `api` group is kept when the resolver accepts it, and a route inside it
      is dropped when the resolver rejects it. */
  lemma ResolverReplacesMiddleware(r: Route, p: Route -> bool)
    requires !IsDocsRoute(r)
    ensures Admitted(r, Some(p)) <==> p(r)
    ensures Admitted(r, None) <==> "api" in r.middleware
  {
  }

  /** A route named `api-docs...` is never documented, whatever the resolver. */
  lemma DocsRoutesDropped(r: Route, rest: string, resolver: Option<Route -> bool>)
    requires r.name == Some("api-docs" + rest)
    ensures !Admitted(r, resolver)
  {
    assert ("api-docs" + rest)[..8] == "api-docs";
  }
}
