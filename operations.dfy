/** `Generator::routeToOperation` (src/Generator.php:83-148) and
    `extractTagsForMethod` (src/Generator.php:150-157): a class-based route
    becomes an Operation, built up by successive calls on a fresh object,
    together with the path it is filed under. */
module Operations {
  import opened Wrappers
  import opened Text
  import opened Schema
  import opened Rules
  import opened PathParameters
  import opened RoutePaths
  import opened Routes

  /** An object schema with the given properties; `Schema::fromType(new
      ObjectType)` is the one without properties. */
  datatype BodySchema = ObjectSchema(properties: seq<Parameter>)

  /** A Request Body object with a single media type (section 4.8.13 of the
      OpenAPI Specification 3.1.0). */
  datatype RequestBody = RequestBody(mediaType: string, schema: BodySchema)

  /** The state of an Operation object. */
  datatype OperationValue = OperationValue(
    httpMethod: string,
    tags: seq<string>,
    parameters: seq<Parameter>,
    requestBody: Option<RequestBody>,
    responses: seq<Response>,
    summary: string,
    description: string)

  /** The text put in front of the message of a failed rule extraction. */
  const Warning: string := "\U{26A0}\U{FE0F}Cannot generate request documentation: "

  function JsonBody(properties: seq<Parameter>): RequestBody {
    RequestBody("application/json", ObjectSchema(properties))
  }

  /** An OpenAPI Operation under construction. */
  class Operation {
    var httpMethod: string
    var tags: seq<string>
    var parameters: seq<Parameter>
    var requestBody: Option<RequestBody>
    var responses: seq<Response>
    var summary: string
    var description: string

    function Value(): OperationValue
      reads this
    {
      OperationValue(httpMethod, tags, parameters, requestBody, responses, summary, description)
    }

    /** `Operation::make($method)` */
    constructor (httpMethod: string)
      ensures Value() == OperationValue(httpMethod, [], [], None, [], "", "")
    {
      this.httpMethod := httpMethod;
      tags := [];
      parameters := [];
      requestBody := None;
      responses := [];
      summary := "";
      description := "";
    }

    method SetTags(tags: seq<string>)
      modifies this
      ensures Value() == old(Value()).(tags := tags)
    {
      this.tags := tags;
    }

    /** Appends, keeping the parameters already there. */
    method AddParameters(ps: seq<Parameter>)
      modifies this
      ensures Value() == old(Value()).(parameters := old(parameters) + ps)
    {
      parameters := parameters + ps;
    }

    method AddRequestBodyObject(body: RequestBody)
      modifies this
      ensures Value() == old(Value()).(requestBody := Some(body))
    {
      requestBody := Some(body);
    }

    method AddResponse(r: Response)
      modifies this
      ensures Value() == old(Value()).(responses := old(responses) + [r])
    {
      responses := responses + [r];
    }

    method SetSummary(s: string)
      modifies this
      ensures Value() == old(Value()).(summary := s)
    {
      summary := s;
    }

    method SetDescription(s: string)
      modifies this
      ensures Value() == old(Value()).(description := s)
    {
      description := s;
    }
  }

  // ---------------------------------------------------------------------
  // The specification of the assembled operation

  /** `class_basename`: the part after the last namespace separator. */
  function ClassBasename(className: string): string {
    var parts := Split(className, '\\');
    parts[|parts| - 1]
  }

  /** The tag every operation of a controller gets: its class basename with
      every `Controller` removed. */
  function ControllerTag(className: string): string {
    ReplaceAll(ClassBasename(className), "Controller", "")
  }

  /** `extractTagsForMethod`: the first `@tags` value split on commas, or none. */
  function MethodTags(classTags: seq<string>): seq<string> {
    if |classTags| == 0 then [] else Split(classTags[0], ',')
  }

  function OperationTags(h: Handler): seq<string> {
    MethodTags(h.classTags) + [ControllerTag(h.className)]
  }

  /** The query parameters the rules add: only a GET request takes its rule
      parameters as query parameters. */
  function RuleQueryParameters(httpMethod: string, rules: Result<Option<seq<RuleField>>>): seq<Parameter> {
    if rules.Success? && httpMethod == "get" then ParamsFromRules(rules.value) else []
  }

  /** The body the rules give: every method but GET gets a JSON object body,
      with the rule parameters as properties (none when there are no rules). */
  function RuleBody(httpMethod: string, rules: Result<Option<seq<RuleField>>>): Option<RequestBody> {
    if rules.Success? && httpMethod != "get" then Some(JsonBody(ParamsFromRules(rules.value))) else None
  }

  /** The doc description, with the warning and the message appended when
      rule extraction failed. */
  function OperationDescription(h: Handler): string {
    if h.rules.Failure? then h.doc.description + Warning + h.rules.message else h.doc.description
  }

  function HttpMethod(route: Route): string
    requires |route.methods| > 0
  {
    Lower(route.methods[0])
  }

  function PathParams(route: Route): seq<Parameter>
    requires route.handler.Some?
  {
    var h := route.handler.value;
    RoutePathParameters(route.parameterNames, h.params, Some(h.doc.params)).0
  }

  /** The operation a class-based route yields. */
  function OperationSpec(route: Route): OperationValue
    requires route.handler.Some? && |route.methods| > 0
  {
    var h := route.handler.value;
    var m := HttpMethod(route);
    OperationValue(
      m,
      OperationTags(h),
      PathParams(route) + RuleQueryParameters(m, h.rules),
      RuleBody(m, h.rules),
      h.responses,
      TrimRight(h.doc.summary, '.'),
      OperationDescription(h))
  }

  /** The path the operation is filed under, before `api/` is removed: the
      URI with every alias key replaced by its value, as `Str::replace` with
      the two arrays does, literal text included. */
  function OperationPath(route: Route): string
    requires route.handler.Some?
  {
    ReplaceEach(route.uri, AliasMap(route.parameterNames, route.handler.value.params))
  }

  // ---------------------------------------------------------------------
  // routeToOperation

  /** The `try` block and its `catch`: the rule parameters go to the query
      on GET and into a JSON body otherwise, an empty object body is the
      default for every method but GET, and a failure only extends the
      description. */
  method ComposeRequest(op: Operation, m: string, rules: Result<Option<seq<RuleField>>>, description: string)
    returns (newDescription: string)
    requires op.requestBody.None?
    modifies op
    ensures op.Value() == old(op.Value()).(parameters := old(op.parameters) + RuleQueryParameters(m, rules),
                                           requestBody := RuleBody(m, rules))
    ensures newDescription == if rules.Failure? then description + Warning + rules.message else description
  {
    newDescription := description;
    match rules {
      case Failure(message) =>
        newDescription := description + Warning + message;
        assert old(op.parameters) + [] == old(op.parameters);
      case Success(fields) =>
        var bodyParams := ParamsFromRules(fields);
        if |bodyParams| > 0 {
          if m != "get" {
            op.AddRequestBodyObject(JsonBody(bodyParams));
            assert old(op.parameters) + [] == old(op.parameters);
          } else {
            op.AddParameters(bodyParams);
          }
        } else {
          if m != "get" {
            op.AddRequestBodyObject(JsonBody([]));
          }
          assert old(op.parameters) + bodyParams == old(op.parameters);
        }
    }
  }

  /** The `foreach` over the extracted responses, appending each in order. */
  method AddResponses(op: Operation, rs: seq<Response>)
    modifies op
    ensures op.Value() == old(op.Value()).(responses := old(op.responses) + rs)
  {
    var i := 0;
    while i < |rs|
      invariant 0 <= i <= |rs|
      invariant op.Value() == old(op.Value()).(responses := old(op.responses) + rs[..i])
    {
      op.AddResponse(rs[i]);
      i := i + 1;
      assert rs[..i] == rs[..i - 1] + [rs[i - 1]];
    }
    assert rs[..i] == rs;
  }

  /** The calls on the fresh Operation, in the order the source makes them. */
  method Assemble(m: string, tags: seq<string>, pathParams: seq<Parameter>, h: Handler) returns (op: Operation)
    ensures fresh(op)
    ensures op.Value() == OperationValue(m, tags, pathParams + RuleQueryParameters(m, h.rules), RuleBody(m, h.rules),
                                         h.responses, TrimRight(h.doc.summary, '.'), OperationDescription(h))
  {
    op := new Operation(m);
    op.SetTags(tags);
    op.AddParameters(pathParams);
    assert op.parameters == pathParams;
    var description := ComposeRequest(op, m, h.rules, h.doc.description);
    AddResponses(op, h.responses);
    op.SetSummary(TrimRight(h.doc.summary, '.'));
    op.SetDescription(description);
  }

  /** Closure routes yield nothing; a class-based route yields its path and a
      fresh Operation built step by step as the specification says. */
  method RouteToOperation(route: Route) returns (r: Option<(string, Operation)>)
    requires |route.methods| > 0
    ensures r.None? <==> route.handler.None?
    ensures r.Some? ==> fresh(r.value.1) && r.value.0 == OperationPath(route) &&
                        r.value.1.Value() == OperationSpec(route)
  {
    if route.handler.None? {
      return None;
    }
    var h := route.handler.value;
    var resolved := RoutePathParameters(route.parameterNames, h.params, Some(h.doc.params));
    var op := Assemble(Lower(route.methods[0]), MethodTags(h.classTags) + [ControllerTag(h.className)], resolved.0, h);
    r := Some((ReplaceEach(route.uri, resolved.1), op));
  }

  // ---------------------------------------------------------------------
  // Properties of the assembled operation

  /** On GET the rule parameters follow the path parameters as query
      parameters and there is no body. */
  lemma GetRulesBecomeQuery(route: Route, rules: Option<seq<RuleField>>)
    requires route.handler.Some? && |route.methods| > 0 && HttpMethod(route) == "get"
    requires route.handler.value.rules == Success(rules)
    ensures OperationSpec(route).parameters == PathParams(route) + ParamsFromRules(rules)
    ensures OperationSpec(route).requestBody.None?
    ensures forall i :: |PathParams(route)| <= i < |OperationSpec(route).parameters| ==>
              OperationSpec(route).parameters[i].location == Query
  {
  }

  /** On any other method the rule parameters become the properties of a JSON
      object body and the parameters are only the path parameters; with no
      rules the body is the empty object. */
  lemma OtherRulesBecomeBody(route: Route, rules: Option<seq<RuleField>>)
    requires route.handler.Some? && |route.methods| > 0 && HttpMethod(route) != "get"
    requires route.handler.value.rules == Success(rules)
    ensures OperationSpec(route).parameters == PathParams(route)
    ensures OperationSpec(route).requestBody == Some(RequestBody("application/json", ObjectSchema(ParamsFromRules(rules))))
    ensures rules.None? ==> OperationSpec(route).requestBody == Some(RequestBody("application/json", ObjectSchema([])))
  {
  }

  /** A failed extraction adds neither parameters nor a body and appends the
      warning to the description; otherwise the description is the doc's. */
  lemma FailureBecomesWarning(route: Route)
    requires route.handler.Some? && |route.methods| > 0
    ensures var h := route.handler.value;
            h.rules.Failure? ==>
              OperationSpec(route).parameters == PathParams(route) &&
              OperationSpec(route).requestBody.None? &&
              OperationSpec(route).description == h.doc.description + Warning + h.rules.message
    ensures var h := route.handler.value;
            h.rules.Success? ==> OperationSpec(route).description == h.doc.description
  {
  }

  /** The path parameters come first, one per placeholder, in order. */
  lemma PathParametersFirst(route: Route)
    requires route.handler.Some? && |route.methods| > 0
    ensures |PathParams(route)| == |route.parameterNames|
    ensures OperationSpec(route).parameters[..|route.parameterNames|] == PathParams(route)
    ensures forall i :: 0 <= i < |route.parameterNames| ==> OperationSpec(route).parameters[i].location == Path
  {
    var h := route.handler.value;
    var ps := PathParams(route);
    assert (ps + RuleQueryParameters(HttpMethod(route), h.rules))[..|ps|] == ps;
  }

  /** Comma-free tag names written as one `@tags` value come back as they
      were written, followed by the controller tag. */
  lemma {:induction false} TagsFromClassDoc(h: Handler, names: seq<string>, more: seq<string>)
    requires |names| >= 1 && forall k :: 0 <= k < |names| ==> ',' !in names[k]
    requires h.classTags == [Join(names, ',')] + more
    ensures OperationTags(h) == names + [ControllerTag(h.className)]
  {
    JoinThenSplit(names, ',');
  }

  /** The controller tag is the basename of the class with `Controller`
      removed, whatever namespace the class is in. */
  lemma {:induction false} ControllerTagOfNamespacedClass(ns: string, base: string)
    requires '\\' !in base
    ensures ControllerTag(ns + "\\" + base) == ReplaceAll(base, "Controller", "")
    ensures ClassBasename(base) == base
  {
    SplitLast(ns, '\\', base);
    SplitWithoutSeparator(base, '\\');
  }

  /** The summary loses its trailing periods and nothing else; trimming it
      again changes nothing. */
  lemma {:induction false} SummaryTrimmed(route: Route)
    requires route.handler.Some? && |route.methods| > 0
    ensures var s := route.handler.value.doc.summary;
            var t := OperationSpec(route).summary;
            t == s[..|t|] && (forall i :: |t| <= i < |s| ==> s[i] == '.') &&
            (|t| == 0 || t[|t| - 1] != '.') && TrimRight(t, '.') == t
  {
    var t := OperationSpec(route).summary;
    assert |t| == 0 || t[|t| - 1] != '.';
  }
}
