/** `Generator::__invoke` (src/Generator.php:38-67): a fresh OpenAPI 3.1.0
    document, to which every admitted class-based route adds one path entry
    holding its operation, in route order. */
module Generator {
  import opened Wrappers
  import opened RoutePaths
  import opened Routes
  import opened Operations

  /** The OpenAPI document under construction. `paths` keeps each
      `addPath(Path::make(path)->addOperation(op))` call as one entry. */
  class Document {
    const openapi: string
    const title: string
    const version: string
    const servers: seq<string>
    var paths: seq<(string, Operation)>

    /** `makeOpenApi`: version 3.1.0, the application name as title, info
        version 0.0.1 and one server. */
    constructor (title: string, serverUrl: string)
      ensures openapi == "3.1.0" && this.title == title && version == "0.0.1" && servers == [serverUrl]
      ensures paths == []
    {
      openapi := "3.1.0";
      this.title := title;
      version := "0.0.1";
      servers := [serverUrl];
      paths := [];
    }

    method AddPath(path: string, op: Operation)
      modifies this
      ensures paths == old(paths) + [(path, op)]
    {
      paths := paths + [(path, op)];
    }
  }

  /** Routes as the router reports them always have at least one method. */
  predicate HaveMethods(routes: seq<Route>) {
    forall k :: 0 <= k < |routes| ==> |routes[k].methods| > 0
  }

  /** The entry a class-based route adds: its path without `api/` and its
      operation. */
  function Entry(route: Route): (string, OperationValue)
    requires route.handler.Some? && |route.methods| > 0
  {
    (StripApi(OperationPath(route)), OperationSpec(route))
  }

  /** The entries the routes contribute, in order: closure routes contribute
      none, every other route its path without `api/` and its operation. */
  function DocumentPaths(routes: seq<Route>): (r: seq<(string, OperationValue)>)
    requires HaveMethods(routes)
    ensures |r| <= |routes|
  {
    if |routes| == 0 then []
    else
      var n := |routes| - 1;
      var last := routes[n];
      DocumentPaths(routes[..n]) +
        (if last.handler.Some? then [Entry(last)] else [])
  }

  /** The entries of a concatenation are the entries of its parts. */
  lemma {:induction false} DocumentPathsConcat(a: seq<Route>, b: seq<Route>)
    requires HaveMethods(a) && HaveMethods(b)
    ensures HaveMethods(a + b)
    ensures DocumentPaths(a + b) == DocumentPaths(a) + DocumentPaths(b)
    decreases |b|
  {
    assert HaveMethods(a + b) by {
      forall k | 0 <= k < |a + b| ensures |(a + b)[k].methods| > 0 {
        if k >= |a| {
          assert (a + b)[k] == b[k - |a|];
        }
      }
    }
    if |b| > 0 {
      var n := |b| - 1;
      assert (a + b)[..|a + b| - 1] == a + b[..n];
      assert (a + b)[|a + b| - 1] == b[n];
      DocumentPathsConcat(a, b[..n]);
    } else {
      assert a + b == a;
    }
  }

  /** A closure route leaves no trace in the document. */
  lemma ClosureRouteSkipped(a: seq<Route>, x: Route, b: seq<Route>)
    requires HaveMethods(a) && HaveMethods(b) && |x.methods| > 0 && x.handler.None?
    ensures HaveMethods(a + [x] + b) && HaveMethods(a + b)
    ensures DocumentPaths(a + [x] + b) == DocumentPaths(a + b)
  {
    DocumentPathsConcat(a, [x]);
    DocumentPathsConcat(a + [x], b);
    DocumentPathsConcat(a, b);
    assert DocumentPaths([x]) == [] by {
      assert [x][..0] == [];
    }
  }

  /** A prefix of routes that all have methods has them too. */
  lemma PrefixHasMethods(routes: seq<Route>, n: nat)
    requires HaveMethods(routes) && n <= |routes|
    ensures HaveMethods(routes[..n])
  {
    forall k | 0 <= k < n ensures |routes[..n][k].methods| > 0 {
      assert routes[..n][k] == routes[k];
    }
  }

  /** Every class-based route contributes exactly one entry. */
  lemma {:induction false} OneEntryPerClassRoute(routes: seq<Route>)
    requires HaveMethods(routes)
    requires forall k :: 0 <= k < |routes| ==> routes[k].handler.Some?
    ensures |DocumentPaths(routes)| == |routes|
  {
    if |routes| > 0 {
      LastEntry(routes);
      OneEntryPerClassRoute(routes[..|routes| - 1]);
    }
  }

  /** A route placed between others contributes its own entry between
      theirs. */
  lemma EntryInPlace(a: seq<Route>, x: Route, b: seq<Route>)
    requires HaveMethods(a) && HaveMethods(b) && |x.methods| > 0 && x.handler.Some?
    ensures HaveMethods(a + [x] + b)
    ensures DocumentPaths(a + [x] + b) == DocumentPaths(a) + [Entry(x)] + DocumentPaths(b)
  {
    DocumentPathsConcat(a, [x]);
    DocumentPathsConcat(a + [x], b);
    assert [x][..0] == [];
  }

  /** The entries of a list of routes ending in a class-based route. */
  lemma LastEntry(routes: seq<Route>)
    requires HaveMethods(routes) && |routes| > 0 && routes[|routes| - 1].handler.Some?
    ensures HaveMethods(routes[..|routes| - 1])
    ensures DocumentPaths(routes) == DocumentPaths(routes[..|routes| - 1]) + [Entry(routes[|routes| - 1])]
  {
    PrefixHasMethods(routes, |routes| - 1);
  }

  /** One more route: its entry, if it has one, follows the earlier ones. */
  lemma NextRoute(routes: seq<Route>, i: nat)
    requires HaveMethods(routes) && i < |routes|
    ensures HaveMethods(routes[..i]) && HaveMethods(routes[..i + 1])
    ensures DocumentPaths(routes[..i + 1]) ==
            DocumentPaths(routes[..i]) + (if routes[i].handler.Some? then [Entry(routes[i])] else [])
  {
    PrefixHasMethods(routes, i);
    PrefixHasMethods(routes, i + 1);
    assert routes[..i + 1][..i] == routes[..i];
    assert routes[..i + 1][i] == routes[i];
  }

  /** The document's entries hold the expected paths and operations. */
  ghost predicate Holds(paths: seq<(string, Operation)>, expected: seq<(string, OperationValue)>)
    reads set k | 0 <= k < |paths| :: paths[k].1
  {
    |paths| == |expected| &&
    forall k :: 0 <= k < |paths| ==> paths[k].0 == expected[k].0 && paths[k].1.Value() == expected[k].1
  }

  /** `addPath` of an operation holding `value` extends the entries by one. */
  method AddEntry(doc: Document, path: string, op: Operation,
                  ghost expected: seq<(string, OperationValue)>, ghost value: OperationValue)
    requires Holds(doc.paths, expected) && op.Value() == value
    modifies doc
    ensures Holds(doc.paths, expected + [(path, value)])
  {
    ghost var before := doc.paths;
    doc.AddPath(path, op);
    assert forall k :: 0 <= k < |before| ==> doc.paths[k] == before[k];
  }

  /** The body of the `eachSpread`: a class-based route adds its entry to the
      document, a closure route adds nothing. */
  method AddRoute(doc: Document, route: Route, ghost expected: seq<(string, OperationValue)>)
    requires |route.methods| > 0
    requires Holds(doc.paths, expected)
    modifies doc
    ensures Holds(doc.paths, expected + if route.handler.Some? then [Entry(route)] else [])
  {
    var entry := RouteToOperation(route);
    if entry.Some? {
      AddEntry(doc, StripApi(entry.value.0), entry.value.1, expected, Entry(route).1);
    } else {
      assert expected + [] == expected;
    }
  }

  /** `__invoke`: the document with one entry per admitted class-based route.
      `title` and `serverUrl` stand for `config('app.name')` and
      `url('/api')`; `resolver` is the custom route resolver, if set. */
  method Generate(routes: seq<Route>, resolver: Option<Route -> bool>, title: string, serverUrl: string)
    returns (doc: Document)
    requires HaveMethods(routes)
    ensures fresh(doc) && doc.openapi == "3.1.0" && doc.title == title && doc.version == "0.0.1" && doc.servers == [serverUrl]
    ensures HaveMethods(FilterRoutes(routes, resolver))
    ensures |doc.paths| == |DocumentPaths(FilterRoutes(routes, resolver))|
    ensures forall k :: 0 <= k < |doc.paths| ==>
              doc.paths[k].0 == DocumentPaths(FilterRoutes(routes, resolver))[k].0 &&
              doc.paths[k].1.Value() == DocumentPaths(FilterRoutes(routes, resolver))[k].1
  {
    doc := new Document(title, serverUrl);
    var admitted := FilterRoutes(routes, resolver);
    assert HaveMethods(admitted) by {
      forall k | 0 <= k < |admitted| ensures |admitted[k].methods| > 0 {
        assert admitted[k] in routes;
      }
    }
    PrefixHasMethods(admitted, 0);
    ghost var expected: seq<(string, OperationValue)> := [];
    var i := 0;
    while i < |admitted|
      invariant 0 <= i <= |admitted|
      invariant HaveMethods(admitted[..i]) && expected == DocumentPaths(admitted[..i])
      invariant fresh(doc) && doc.openapi == "3.1.0" && doc.title == title && doc.version == "0.0.1" && doc.servers == [serverUrl]
      invariant Holds(doc.paths, expected)
    {
      NextRoute(admitted, i);
      AddRoute(doc, admitted[i], expected);
      expected := expected + if admitted[i].handler.Some? then [Entry(admitted[i])] else [];
      i := i + 1;
    }
    assert admitted[..i] == admitted;
  }
}
