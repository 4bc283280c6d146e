/** The contract verifier's comparison of one recorded exchange with a contract
    (validation-server/verifications/contract-mismatcher.js): find the endpoint
    the request addresses and the response the contract expects for its status,
    then report, section by section, what in the headers, bodies, path and query
    does not conform.

    The libraries the comparison delegates to are parameters (`Oracles`): the
    string-content validator, the JSON-schema body validator, JSON rendering and
    the query-string parser. */
module ContractMismatcher {
  import opened Util
  import opened Text
  import opened Dicts
  import opened Types
  import opened Contracts
  import opened PathTemplates

  /** A JSON value: a body, or a value the query parser produced. */
  datatype Json =
    | JNull
    | JBool(b: bool)
    | JNumber(literal: string)
    | JString(s: string)
    | JArray(items: seq<Json>)
    | JObject(members: seq<(string, Json)>)

  /** A header as recorded. */
  datatype InputHeader = InputHeader(name: string, value: string)

  /** `UserInputRequest`: the method as sent (any case) and the path with its query string. */
  datatype UserInputRequest = UserInputRequest(httpMethod: string, path: string, headers: seq<InputHeader>,
                                               body: Option<Json>)

  /** `UserInputResponse` */
  datatype UserInputResponse = UserInputResponse(statusCode: int, headers: seq<InputHeader>, body: Option<Json>)

  /** The collaborators of the comparison:
      - `validate(name, value, type)`: the string validator's messages, empty when the value conforms;
      - `validateBody(type, lenient, body)`: the JSON-schema validator's errors, each formatted as
        `#<dataPath> <message>`, empty when the body is valid; `lenient` admits extra properties;
      - `render(body)`: `JSON.stringify(body, undefined, 2)`;
      - `parseQuery(path, comma)`: the query string of `path` as the query parser reads it. */
  datatype Oracles = Oracles(validate: (string, Json, Type) -> seq<string>,
                             validateBody: (Type, bool, Option<Json>) -> seq<string>,
                             render: Option<Json> -> string,
                             parseQuery: (string, bool) -> Dict<string, Json>)

  /** `ViolationType` */
  datatype ViolationKind =
    | UndefinedEndpoint
    | UndefinedEndpointResponse
    | RequiredRequestHeaderMissing
    | UndefinedRequestHeader
    | RequestHeaderTypeDisparity
    | PathParamTypeDisparity
    | RequiredQueryParamMissing
    | UndefinedQueryParam
    | QueryParamTypeDisparity
    | UndefinedRequestBody
    | RequestBodyTypeDisparity
    | RequiredResponseHeaderMissing
    | UndefinedResponseHeader
    | ResponseHeaderTypeDisparity
    | UndefinedResponseBody
    | ResponseBodyTypeDisparity
  {
    /** The `type` tag of the violation. */
    function Name(): string {
      match this
      case UndefinedEndpoint => "undefined_endpoint"
      case UndefinedEndpointResponse => "undefined_endpoint_response"
      case RequiredRequestHeaderMissing => "required_request_header_missing"
      case UndefinedRequestHeader => "undefined_request_header"
      case RequestHeaderTypeDisparity => "request_header_type_disparity"
      case PathParamTypeDisparity => "path_param_type_disparity"
      case RequiredQueryParamMissing => "required_query_param_missing"
      case UndefinedQueryParam => "undefined_query_param"
      case QueryParamTypeDisparity => "query_param_type_disparity"
      case UndefinedRequestBody => "undefined_request_body"
      case RequestBodyTypeDisparity => "request_body_type_disparity"
      case RequiredResponseHeaderMissing => "required_response_header_missing"
      case UndefinedResponseHeader => "undefined_response_header"
      case ResponseHeaderTypeDisparity => "response_header_type_disparity"
      case UndefinedResponseBody => "undefined_response_body"
      case ResponseBodyTypeDisparity => "response_body_type_disparity"
    }

    /** The kinds that carry the validator's messages. */
    predicate IsDisparity() {
      this in {RequestHeaderTypeDisparity, PathParamTypeDisparity, QueryParamTypeDisparity,
               RequestBodyTypeDisparity, ResponseHeaderTypeDisparity, ResponseBodyTypeDisparity}
    }

    /** The section of the report that produces the kind, in report order. */
    function Stage(): nat {
      match this
      case UndefinedEndpoint | UndefinedEndpointResponse => 0
      case RequiredRequestHeaderMissing | UndefinedRequestHeader | RequestHeaderTypeDisparity => 1
      case RequiredResponseHeaderMissing | UndefinedResponseHeader | ResponseHeaderTypeDisparity => 2
      case UndefinedRequestBody | RequestBodyTypeDisparity => 3
      case UndefinedResponseBody | ResponseBodyTypeDisparity => 4
      case PathParamTypeDisparity => 5
      case RequiredQueryParamMissing | UndefinedQueryParam | QueryParamTypeDisparity => 6
    }
  }

  /** `Violation`: `typeDisparities` is present on the disparity kinds only. */
  datatype Violation = Violation(kind: ViolationKind, message: string, typeDisparities: Option<seq<string>>)

  /** `{ violations, context: { endpoint } }` */
  datatype Outcome = Outcome(violations: seq<Violation>, endpoint: string)

  /** `HeaderMismatch` */
  datatype HeaderMismatch =
    | RequiredHeaderMissing(header: string)
    | UndefinedHeader(header: string)
    | HeaderTypeDisparity(header: string, typeDisparities: seq<string>)

  /** `BodyMismatch` */
  datatype BodyMismatch = UndefinedBody | BodyTypeDisparity(data: string, typeDisparities: seq<string>)

  /** `PathParamMismatch` */
  datatype PathParamMismatch = PathParamMismatch(pathParam: string, typeDisparities: seq<string>)

  /** `QueryParamMismatch` */
  datatype QueryParamMismatch =
    | QueryParamMissing(queryParam: string)
    | QueryParamUndefined(queryParam: string)
    | QueryParamDisparity(queryParam: string, typeDisparities: seq<string>)

  const MissingPathParamMessage := "Unexpected error: could not find path param on contract."

  function PathLengthMessage(contractPath: string, inputPath: string): string {
    "Unexpected error: endpoint path (" + contractPath + ") does not match input path (" + inputPath + ")"
  }

  /* ----- endpoint and response ----- */

  /** `pathMatchesVariablePath(variablePath, path)`, with the pattern style as a parameter. */
  predicate PathMatchesVariablePath(variablePath: string, path: string, style: Style) {
    Matches(Compile(variablePath, style), path, style)
  }

  /** The predicate `getEndpointByRequest` searches with. */
  predicate RequestMatches(e: Endpoint, req: UserInputRequest, style: Style) {
    e.httpMethod.Name() == ToUpper(req.httpMethod) && PathMatchesVariablePath(e.path, StripQuery(req.path), style)
  }

  /** `getEndpointByRequest(request)`: the first endpoint the request addresses. */
  function EndpointByRequest(endpoints: seq<Endpoint>, req: UserInputRequest, style: Style): (r: Option<Endpoint>)
    ensures r.None? <==> forall i :: 0 <= i < |endpoints| ==> !RequestMatches(endpoints[i], req, style)
    ensures r.Some? ==> exists i :: (0 <= i < |endpoints| && endpoints[i] == r.value && RequestMatches(endpoints[i], req, style)
      && forall j :: 0 <= j < i ==> !RequestMatches(endpoints[j], req, style))
  {
    Find(endpoints, (e: Endpoint) => RequestMatches(e, req, style))
  }

  /** The headers and body the contract expects of a response. */
  datatype ExpectedResponse = ExpectedResponse(headers: seq<Header>, body: Option<Body>)

  /** `getRelevantResponse(endpoint, status)`: the first response declared for the
      status, else the default response, else none. */
  function RelevantResponse(e: Endpoint, status: int): (r: Option<ExpectedResponse>)
    ensures (exists i :: 0 <= i < |e.responses| && e.responses[i].status == status) ==>
      exists i :: 0 <= i < |e.responses| && e.responses[i].status == status
        && (forall j :: 0 <= j < i ==> e.responses[j].status != status)
        && r == Some(ExpectedResponse(e.responses[i].headers, e.responses[i].body))
    ensures (forall i :: 0 <= i < |e.responses| ==> e.responses[i].status != status) ==>
      (r.Some? <==> e.defaultResponse.Some?)
      && (r.Some? ==> r.value == ExpectedResponse(e.defaultResponse.value.headers, e.defaultResponse.value.body))
  {
    match Find(e.responses, (res: Response) => res.status == status)
    case Some(res) => Some(ExpectedResponse(res.headers, res.body))
    case None =>
      if e.defaultResponse.Some? then
        Some(ExpectedResponse(e.defaultResponse.value.headers, e.defaultResponse.value.body))
      else None
  }

  /* ----- headers ----- */

  /** Header names compare case-insensitively. */
  predicate SameHeaderName(a: string, b: string) {
    ToLower(a) == ToLower(b)
  }

  /** No recorded header carries the name. */
  predicate Absent(input: seq<InputHeader>, name: string) {
    forall k :: 0 <= k < |input| ==> !SameHeaderName(input[k].name, name)
  }

  /** `k` is the first recorded header carrying the name. */
  predicate FirstNamed(input: seq<InputHeader>, name: string, k: int) {
    0 <= k < |input| && SameHeaderName(input[k].name, name) && forall j :: 0 <= j < k ==> !SameHeaderName(input[j].name, name)
  }

  /** Some contract header carries the name. */
  predicate Declared(headers: seq<Header>, name: string) {
    exists i :: 0 <= i < |headers| && SameHeaderName(headers[i].name, name)
  }

  /** The check of one contract header against the recorded headers. */
  function HeaderMismatchOf(h: Header, input: seq<InputHeader>, o: Oracles): (r: Option<HeaderMismatch>)
    ensures Absent(input, h.name) ==> (r.Some? <==> !h.optional) && (r.Some? ==> r.value == RequiredHeaderMissing(h.name))
    ensures !Absent(input, h.name) ==> exists k :: (FirstNamed(input, h.name, k)
      && var d := o.validate(input[k].name, JString(input[k].value), h.headerType);
         (r.Some? <==> |d| > 0) && (r.Some? ==> r.value == HeaderTypeDisparity(h.name, d)))
  {
    var found := FirstWhere(input, (iH: InputHeader) => SameHeaderName(iH.name, h.name));
    if found.None? then
      if h.optional then None else Some(RequiredHeaderMissing(h.name))
    else
      var iH := input[found.value];
      var d := o.validate(iH.name, JString(iH.value), h.headerType);
      if |d| > 0 then Some(HeaderTypeDisparity(h.name, d)) else None
  }

  /** The check of one recorded header in strict mode. */
  function UndefinedHeaderOf(headers: seq<Header>, iH: InputHeader): (r: Option<HeaderMismatch>)
    ensures r.Some? <==> !Declared(headers, iH.name)
    ensures r.Some? ==> r.value == UndefinedHeader(iH.name)
  {
    if Declared(headers, iH.name) then None else Some(UndefinedHeader(iH.name))
  }

  /** `findHeaderMismatches(contractHeaders, inputHeaders, strict)`: one check per
      contract header, in order; in strict mode then every recorded header the
      contract does not declare. */
  function HeaderMismatches(headers: seq<Header>, input: seq<InputHeader>, strict: bool, o: Oracles): (ms: seq<HeaderMismatch>)
    ensures |ms| <= |headers| + (if strict then |input| else 0)
    ensures forall m :: m in ms && m.HeaderTypeDisparity? ==> |m.typeDisparities| > 0
  {
    Collect(headers, (h: Header) => HeaderMismatchOf(h, input, o))
    + (if strict then Collect(input, (iH: InputHeader) => UndefinedHeaderOf(headers, iH)) else [])
  }

  /** A required header is reported missing exactly when no recorded header
      carries its name in any letter case. */
  lemma HeaderMissingIff(headers: seq<Header>, input: seq<InputHeader>, strict: bool, o: Oracles, n: string)
    ensures RequiredHeaderMissing(n) in HeaderMismatches(headers, input, strict, o) <==>
      exists i :: 0 <= i < |headers| && headers[i].name == n && !headers[i].optional && Absent(input, n)
  {
    var f := (h: Header) => HeaderMismatchOf(h, input, o);
    var g := (iH: InputHeader) => UndefinedHeaderOf(headers, iH);
    assert HeaderMismatches(headers, input, strict, o) == Collect(headers, f) + (if strict then Collect(input, g) else []);
    assert forall k :: 0 <= k < |input| ==> g(input[k]) != Some(RequiredHeaderMissing(n));
    assert forall i :: 0 <= i < |headers| ==>
      (f(headers[i]) == Some(RequiredHeaderMissing(n)) <==> headers[i].name == n && !headers[i].optional && Absent(input, n));
  }

  /** One contract header yields a type disparity exactly when the value of the
      first recorded header of its name fails validation. */
  lemma HeaderMismatchOfDisparity(h: Header, input: seq<InputHeader>, o: Oracles, d: seq<string>)
    ensures HeaderMismatchOf(h, input, o) == Some(HeaderTypeDisparity(h.name, d)) <==>
      exists k :: FirstNamed(input, h.name, k) && |d| > 0 && d == o.validate(input[k].name, JString(input[k].value), h.headerType)
  {
    var found := FirstWhere(input, (iH: InputHeader) => SameHeaderName(iH.name, h.name));
    if found.Some? {
      var k := found.value;
      assert FirstNamed(input, h.name, k);
      forall k' | FirstNamed(input, h.name, k') ensures k' == k {
        FirstNamedUnique(input, h.name, k, k');
      }
    }
  }

  /** A header type disparity is reported exactly when a contract header's value,
      taken from the first recorded header of that name, fails validation. */
  lemma HeaderDisparityIff(headers: seq<Header>, input: seq<InputHeader>, strict: bool, o: Oracles, n: string, d: seq<string>)
    ensures HeaderTypeDisparity(n, d) in HeaderMismatches(headers, input, strict, o) <==>
      exists i, k :: 0 <= i < |headers| && headers[i].name == n && FirstNamed(input, n, k) && |d| > 0
        && d == o.validate(input[k].name, JString(input[k].value), headers[i].headerType)
  {
    var f := (h: Header) => HeaderMismatchOf(h, input, o);
    var g := (iH: InputHeader) => UndefinedHeaderOf(headers, iH);
    assert HeaderMismatches(headers, input, strict, o) == Collect(headers, f) + (if strict then Collect(input, g) else []);
    assert forall k :: 0 <= k < |input| ==> g(input[k]) != Some(HeaderTypeDisparity(n, d));
    forall i | 0 <= i < |headers|
      ensures f(headers[i]) == Some(HeaderTypeDisparity(n, d)) <==> (headers[i].name == n
        && exists k :: FirstNamed(input, n, k) && |d| > 0 && d == o.validate(input[k].name, JString(input[k].value), headers[i].headerType))
    {
      HeaderMismatchOfDisparity(headers[i], input, o, d);
    }
  }

  lemma FirstNamedUnique(input: seq<InputHeader>, name: string, k: int, k': int)
    requires FirstNamed(input, name, k) && FirstNamed(input, name, k')
    ensures k == k'
  {
  }

  /** Undeclared recorded headers are reported in strict mode only, and there
      exactly those whose name no contract header carries in any letter case. */
  lemma UndefinedHeaderIff(headers: seq<Header>, input: seq<InputHeader>, strict: bool, o: Oracles, n: string)
    ensures UndefinedHeader(n) in HeaderMismatches(headers, input, strict, o) <==>
      strict && exists k :: 0 <= k < |input| && input[k].name == n && !Declared(headers, n)
  {
    var f := (h: Header) => HeaderMismatchOf(h, input, o);
    var g := (iH: InputHeader) => UndefinedHeaderOf(headers, iH);
    assert HeaderMismatches(headers, input, strict, o) == Collect(headers, f) + (if strict then Collect(input, g) else []);
    assert forall i :: 0 <= i < |headers| ==> f(headers[i]) != Some(UndefinedHeader(n));
    assert forall k :: 0 <= k < |input| ==> (g(input[k]) == Some(UndefinedHeader(n)) <==> input[k].name == n && !Declared(headers, n));
  }

  /* ----- bodies ----- */

  /** `findBodyMismatches(contractBody, inputBody, strict)`: without a contract body
      only a strict check objects, and only to a body that is present; with one,
      the schema validator decides, leniently when not strict. */
  function BodyMismatches(contractBody: Option<Body>, inputBody: Option<Json>, strict: bool, o: Oracles): (ms: seq<BodyMismatch>)
    ensures |ms| <= 1
    ensures UndefinedBody in ms <==> contractBody.None? && inputBody.Some? && strict
    ensures forall m :: m in ms && m.BodyTypeDisparity? ==> |m.typeDisparities| > 0
    ensures contractBody.Some? ==> (ms == [] <==> o.validateBody(contractBody.value.bodyType, !strict, inputBody) == [])
    ensures forall m :: m in ms && m.BodyTypeDisparity? ==> (contractBody.Some?
      && m == BodyTypeDisparity(o.render(inputBody), o.validateBody(contractBody.value.bodyType, !strict, inputBody)))
  {
    if contractBody.None? then
      if inputBody.None? then []
      else if strict then [UndefinedBody]
      else []
    else
      var errors := o.validateBody(contractBody.value.bodyType, !strict, inputBody);
      if |errors| > 0 then [BodyTypeDisparity(o.render(inputBody), errors)] else []
  }

  /* ----- path parameters ----- */

  /** `k` is the first path parameter with the name. */
  predicate FirstParam(params: seq<PathParam>, name: string, k: int) {
    0 <= k < |params| && params[k].name == name && forall j :: 0 <= j < k ==> params[j].name != name
  }

  /** The check of one component of the contract path against the component of
      the input path at the same position. */
  function ComponentMismatch(c: string, v: string, params: seq<PathParam>, o: Oracles): (r: Result<Option<PathParamMismatch>, string>)
    ensures r.Err? <==> IsDynamic(c) && forall j :: 0 <= j < |params| ==> params[j].name != c[1..]
    ensures r.Err? ==> r.error == MissingPathParamMessage
    ensures r.Ok? && r.value.Some? ==> IsDynamic(c) && |r.value.value.typeDisparities| > 0
    ensures IsDynamic(c) && r.Ok? ==> exists k :: (FirstParam(params, c[1..], k)
      && var d := o.validate(c[1..], JString(v), params[k].paramType);
         (r.value.Some? <==> |d| > 0) && (r.value.Some? ==> r.value.value == PathParamMismatch(c[1..], d)))
  {
    if !IsDynamic(c) then Ok(None)
    else
      var k := FirstWhere(params, (p: PathParam) => p.name == c[1..]);
      if k.None? then Err(MissingPathParamMessage)
      else
        var p := params[k.value];
        var d := o.validate(p.name, JString(v), p.paramType);
        Ok(if |d| > 0 then Some(PathParamMismatch(p.name, d)) else None)
  }

  /** The component pairs of the contract path and the input path. */
  function Aligned(cs: seq<string>, vs: seq<string>): (ps: seq<(string, string)>)
    requires |cs| == |vs|
    ensures |ps| == |cs| && forall i :: 0 <= i < |cs| ==> ps[i] == (cs[i], vs[i])
  {
    seq(|cs|, i requires 0 <= i < |cs| => (cs[i], vs[i]))
  }

  /** `findPathParamMismatches(endpoint, inputPath)`: the contract path and the input
      path without its query string, compared component by component. */
  function PathParamMismatches(e: Endpoint, inputPath: string, o: Oracles): (r: Result<seq<PathParamMismatch>, string>)
    ensures var cs := Split(e.path, '/'); var vs := Split(StripQuery(inputPath), '/');
      |cs| != |vs| ==> r == Err(PathLengthMessage(e.path, inputPath))
    ensures var cs := Split(e.path, '/'); var vs := Split(StripQuery(inputPath), '/');
      |cs| == |vs| ==>
        (r.Err? <==> exists i :: 0 <= i < |cs| && IsDynamic(cs[i]) && forall j :: 0 <= j < |PathParamsOf(e)| ==> PathParamsOf(e)[j].name != cs[i][1..])
        && (r.Err? ==> r.error == MissingPathParamMessage)
        && (r.Ok? ==> forall m :: m in r.value <==> exists i :: 0 <= i < |cs| && ComponentMismatch(cs[i], vs[i], PathParamsOf(e), o) == Ok(Some(m)))
    ensures r.Ok? ==> forall m :: m in r.value ==> |m.typeDisparities| > 0
  {
    var cs := Split(e.path, '/');
    var vs := Split(StripQuery(inputPath), '/');
    if |cs| != |vs| then Err(PathLengthMessage(e.path, inputPath))
    else
      var params := PathParamsOf(e);
      var f := (p: (string, string)) => ComponentMismatch(p.0, p.1, params, o);
      var ps := Aligned(cs, vs);
      var each :- MapResult(ps, f);
      var ms := Collect(each, (m: Option<PathParamMismatch>) => m);
      assert forall m :: m in ms <==> exists i :: 0 <= i < |cs| && ComponentMismatch(cs[i], vs[i], params, o) == Ok(Some(m)) by {
        forall m ensures m in ms <==> exists i :: 0 <= i < |cs| && ComponentMismatch(cs[i], vs[i], params, o) == Ok(Some(m)) {
          if m in ms {
            var i :| 0 <= i < |each| && each[i] == Some(m);
            assert f(ps[i]) == Ok(each[i]);
          }
          if exists i :: 0 <= i < |cs| && ComponentMismatch(cs[i], vs[i], params, o) == Ok(Some(m)) {
            var i :| 0 <= i < |cs| && ComponentMismatch(cs[i], vs[i], params, o) == Ok(Some(m));
            assert f(ps[i]) == Ok(each[i]);
            assert each[i] == Some(m);
          }
        }
      }
      Ok(ms)
  }

  /* ----- query parameters ----- */

  /** The query string of the input path as the query parser reads it, with the
      contract's array serialisation, as an object. */
  function ParsedQuery(inputPath: string, config: Config, o: Oracles): (q: Dict<string, Json>)
    ensures DistinctKeys(q)
  {
    FromPairs(o.parseQuery(inputPath, config.queryArray == Comma))
  }

  /** The check of one contract query parameter. */
  function QueryMismatchOf(q: QueryParam, input: Dict<string, Json>, o: Oracles): (r: Option<QueryParamMismatch>)
    ensures !Has(input, q.name) ==> (r.Some? <==> !q.optional) && (r.Some? ==> r.value == QueryParamMissing(q.name))
    ensures Has(input, q.name) ==> var d := o.validate(q.name, Get(input, q.name).value, q.paramType);
      (r.Some? <==> |d| > 0) && (r.Some? ==> r.value == QueryParamDisparity(q.name, d))
  {
    match Get(input, q.name)
    case None => if q.optional then None else Some(QueryParamMissing(q.name))
    case Some(v) =>
      var d := o.validate(q.name, v, q.paramType);
      if |d| > 0 then Some(QueryParamDisparity(q.name, d)) else None
  }

  /** Some contract query parameter has the name. */
  predicate QueryDeclared(params: seq<QueryParam>, key: string) {
    exists i :: 0 <= i < |params| && params[i].name == key
  }

  /** A parsed key no contract query parameter checked. */
  function UndefinedQueryOf(params: seq<QueryParam>, key: string): (r: Option<QueryParamMismatch>)
    ensures r.Some? <==> !QueryDeclared(params, key)
    ensures r.Some? ==> r.value == QueryParamUndefined(key)
  {
    if QueryDeclared(params, key) then None else Some(QueryParamUndefined(key))
  }

  /** `findQueryParamMismatches(endpoint, inputPath)`: one check per contract query
      parameter, in order, then every parsed key no parameter checked, in key order. */
  function QueryParamMismatches(e: Endpoint, inputPath: string, config: Config, o: Oracles): (ms: seq<QueryParamMismatch>)
    ensures |ms| <= |QueryParamsOf(e)| + |ParsedQuery(inputPath, config, o)|
    ensures forall m :: m in ms && m.QueryParamDisparity? ==> |m.typeDisparities| > 0
  {
    var input := ParsedQuery(inputPath, config, o);
    var params := QueryParamsOf(e);
    DeclaredQueryMismatches(params, input, o) + UndeclaredQueryKeys(params, input)
  }

  /** The checks of the contract's query parameters, in order. */
  function DeclaredQueryMismatches(params: seq<QueryParam>, input: Dict<string, Json>, o: Oracles): (ms: seq<QueryParamMismatch>)
    ensures |ms| <= |params|
    ensures forall m :: m in ms <==> exists i :: 0 <= i < |params| && QueryMismatchOf(params[i], input, o) == Some(m)
  {
    Collect(params, (q: QueryParam) => QueryMismatchOf(q, input, o))
  }

  /** The parsed keys no contract query parameter has, in key order. */
  function UndeclaredQueryKeys(params: seq<QueryParam>, input: Dict<string, Json>): (ms: seq<QueryParamMismatch>)
    ensures |ms| <= |input|
    ensures forall m :: m in ms <==> exists k :: 0 <= k < |input| && UndefinedQueryOf(params, input[k].0) == Some(m)
  {
    var g := (k: string) => UndefinedQueryOf(params, k);
    var ms := Collect(Keys(input), g);
    assert forall k :: 0 <= k < |input| ==> Keys(input)[k] == input[k].0;
    ms
  }

  /** A required query parameter is reported missing exactly when the query
      string does not carry it. */
  lemma QueryMissingIff(e: Endpoint, inputPath: string, config: Config, o: Oracles, n: string)
    ensures QueryParamMissing(n) in QueryParamMismatches(e, inputPath, config, o) <==>
      exists i :: 0 <= i < |QueryParamsOf(e)| && QueryParamsOf(e)[i].name == n && !QueryParamsOf(e)[i].optional
        && !Has(ParsedQuery(inputPath, config, o), n)
  {
    var input := ParsedQuery(inputPath, config, o);
    var params := QueryParamsOf(e);
    assert QueryParamMismatches(e, inputPath, config, o) == DeclaredQueryMismatches(params, input, o) + UndeclaredQueryKeys(params, input);
    assert QueryParamMissing(n) !in UndeclaredQueryKeys(params, input);
    assert forall i :: 0 <= i < |params| ==>
      (QueryMismatchOf(params[i], input, o) == Some(QueryParamMissing(n)) <==> params[i].name == n && !params[i].optional && !Has(input, n));
  }

  /** A parsed key is reported undefined exactly when no contract query parameter has its name. */
  lemma QueryUndefinedIff(e: Endpoint, inputPath: string, config: Config, o: Oracles, n: string)
    ensures QueryParamUndefined(n) in QueryParamMismatches(e, inputPath, config, o) <==>
      Has(ParsedQuery(inputPath, config, o), n) && !QueryDeclared(QueryParamsOf(e), n)
  {
    var input := ParsedQuery(inputPath, config, o);
    var params := QueryParamsOf(e);
    assert QueryParamMismatches(e, inputPath, config, o) == DeclaredQueryMismatches(params, input, o) + UndeclaredQueryKeys(params, input);
    DeclaredNeverUndefined(params, input, o, n);
    UndeclaredKeysIff(params, input, n);
  }

  lemma DeclaredNeverUndefined(params: seq<QueryParam>, input: Dict<string, Json>, o: Oracles, n: string)
    ensures QueryParamUndefined(n) !in DeclaredQueryMismatches(params, input, o)
  {
  }

  lemma UndeclaredKeysIff(params: seq<QueryParam>, input: Dict<string, Json>, n: string)
    ensures QueryParamUndefined(n) in UndeclaredQueryKeys(params, input) <==> Has(input, n) && !QueryDeclared(params, n)
  {
    if QueryParamUndefined(n) in UndeclaredQueryKeys(params, input) {
      var k :| 0 <= k < |input| && UndefinedQueryOf(params, input[k].0) == Some(QueryParamUndefined(n));
      assert input[k].0 == n;
    }
    if Has(input, n) && !QueryDeclared(params, n) {
      var k :| 0 <= k < |input| && input[k].0 == n;
      assert UndefinedQueryOf(params, input[k].0) == Some(QueryParamUndefined(n));
    }
  }

  /** A query type disparity is reported exactly when a parameter's parsed value fails validation. */
  lemma QueryDisparityIff(e: Endpoint, inputPath: string, config: Config, o: Oracles, n: string, d: seq<string>)
    ensures QueryParamDisparity(n, d) in QueryParamMismatches(e, inputPath, config, o) <==>
      exists i :: 0 <= i < |QueryParamsOf(e)| && QueryParamsOf(e)[i].name == n
        && Has(ParsedQuery(inputPath, config, o), n) && |d| > 0
        && d == o.validate(n, Get(ParsedQuery(inputPath, config, o), n).value, QueryParamsOf(e)[i].paramType)
  {
    var input := ParsedQuery(inputPath, config, o);
    var params := QueryParamsOf(e);
    assert QueryParamMismatches(e, inputPath, config, o) == DeclaredQueryMismatches(params, input, o) + UndeclaredQueryKeys(params, input);
    assert QueryParamDisparity(n, d) !in UndeclaredQueryKeys(params, input);
    if QueryParamDisparity(n, d) in DeclaredQueryMismatches(params, input, o) {
      var i :| 0 <= i < |params| && QueryMismatchOf(params[i], input, o) == Some(QueryParamDisparity(n, d));
    }
    if exists i :: 0 <= i < |params| && params[i].name == n && Has(input, n) && |d| > 0
        && d == o.validate(n, Get(input, n).value, params[i].paramType) {
      var i :| 0 <= i < |params| && params[i].name == n && Has(input, n) && |d| > 0
        && d == o.validate(n, Get(input, n).value, params[i].paramType);
      assert QueryMismatchOf(params[i], input, o) == Some(QueryParamDisparity(n, d));
    }
  }

  /* ----- violations ----- */

  /** Which half of the exchange a header or body check concerns. */
  datatype Side = RequestSide | ResponseSide

  function Lower(side: Side): string {
    if side == RequestSide then "request" else "response"
  }

  function Capitalised(side: Side): string {
    if side == RequestSide then "Request" else "Response"
  }

  /** Every violation belongs to the section `k`. */
  predicate AllAt(vs: seq<Violation>, k: nat) {
    forall v :: v in vs ==> v.kind.Stage() == k
  }

  /** A disparity carries the validator's (non-empty) messages; no other violation does. */
  predicate WellFormed(v: Violation) {
    (v.typeDisparities.Some? <==> v.kind.IsDisparity()) && (v.typeDisparities.Some? ==> |v.typeDisparities.value| > 0)
  }

  function HeaderViolation(side: Side, m: HeaderMismatch): (v: Violation)
    requires m.HeaderTypeDisparity? ==> |m.typeDisparities| > 0
    ensures WellFormed(v) && v.kind.Stage() == (if side == RequestSide then 1 else 2)
  {
    match m
    case RequiredHeaderMissing(h) =>
      Violation(if side == RequestSide then RequiredRequestHeaderMissing else RequiredResponseHeaderMissing,
                "Required " + Lower(side) + " header \"" + h + "\" missing", None)
    case UndefinedHeader(h) =>
      Violation(if side == RequestSide then UndefinedRequestHeader else UndefinedResponseHeader,
                Capitalised(side) + " header \"" + h + "\" not defined in contract " + Lower(side) + " headers", None)
    case HeaderTypeDisparity(h, d) =>
      Violation(if side == RequestSide then RequestHeaderTypeDisparity else ResponseHeaderTypeDisparity,
                Capitalised(side) + " header \"" + h + "\" type disparity: " + JoinWith(d, ", "), Some(d))
  }

  /** `- <message>` lines. */
  function Bulleted(d: seq<string>): (r: seq<string>)
    ensures |r| == |d| && forall i :: 0 <= i < |d| ==> r[i] == "- " + d[i]
  {
    seq(|d|, i requires 0 <= i < |d| => "- " + d[i])
  }

  function BodyViolation(side: Side, m: BodyMismatch): (v: Violation)
    requires m.BodyTypeDisparity? ==> |m.typeDisparities| > 0
    ensures WellFormed(v) && v.kind.Stage() == (if side == RequestSide then 3 else 4)
  {
    match m
    case UndefinedBody =>
      Violation(if side == RequestSide then UndefinedRequestBody else UndefinedResponseBody,
                Capitalised(side) + " body not defined in contract", None)
    case BodyTypeDisparity(data, d) =>
      Violation(if side == RequestSide then RequestBodyTypeDisparity else ResponseBodyTypeDisparity,
                Capitalised(side) + " body type disparity:\n" + data + "\n" + JoinWith(Bulleted(d), "\n"), Some(d))
  }

  function PathViolation(m: PathParamMismatch): (v: Violation)
    requires |m.typeDisparities| > 0
    ensures WellFormed(v) && v.kind.Stage() == 5
  {
    Violation(PathParamTypeDisparity,
              "Path param \"" + m.pathParam + "\" type disparity: " + JoinWith(m.typeDisparities, ", "), Some(m.typeDisparities))
  }

  function QueryViolation(m: QueryParamMismatch): (v: Violation)
    requires m.QueryParamDisparity? ==> |m.typeDisparities| > 0
    ensures WellFormed(v) && v.kind.Stage() == 6
  {
    match m
    case QueryParamMissing(q) =>
      Violation(RequiredQueryParamMissing, "Required query param \"" + q + "\" missing", None)
    case QueryParamUndefined(q) =>
      Violation(UndefinedQueryParam, "Query param \"" + q + "\" not defined in contract request query params", None)
    case QueryParamDisparity(q, d) =>
      Violation(QueryParamTypeDisparity, "Query param \"" + q + "\" type disparity: " + JoinWith(d, ", "), Some(d))
  }

  function HeaderViolations(side: Side, ms: seq<HeaderMismatch>): (vs: seq<Violation>)
    requires forall m :: m in ms && m.HeaderTypeDisparity? ==> |m.typeDisparities| > 0
    ensures |vs| == |ms| && AllAt(vs, if side == RequestSide then 1 else 2) && forall v :: v in vs ==> WellFormed(v)
    ensures (forall m :: m in ms ==> !m.UndefinedHeader?) ==> forall v :: v in vs ==> v.kind != UndefinedResponseHeader
  {
    seq(|ms|, i requires 0 <= i < |ms| => HeaderViolation(side, ms[i]))
  }

  function BodyViolations(side: Side, ms: seq<BodyMismatch>): (vs: seq<Violation>)
    requires forall m :: m in ms && m.BodyTypeDisparity? ==> |m.typeDisparities| > 0
    ensures |vs| == |ms| && AllAt(vs, if side == RequestSide then 3 else 4) && forall v :: v in vs ==> WellFormed(v)
    ensures UndefinedBody !in ms ==> forall v :: v in vs ==> v.kind != UndefinedResponseBody
  {
    seq(|ms|, i requires 0 <= i < |ms| => BodyViolation(side, ms[i]))
  }

  function PathViolations(ms: seq<PathParamMismatch>): (vs: seq<Violation>)
    requires forall m :: m in ms ==> |m.typeDisparities| > 0
    ensures |vs| == |ms| && AllAt(vs, 5) && forall v :: v in vs ==> WellFormed(v)
  {
    seq(|ms|, i requires 0 <= i < |ms| => PathViolation(ms[i]))
  }

  function QueryViolations(ms: seq<QueryParamMismatch>): (vs: seq<Violation>)
    requires forall m :: m in ms && m.QueryParamDisparity? ==> |m.typeDisparities| > 0
    ensures |vs| == |ms| && AllAt(vs, 6) && forall v :: v in vs ==> WellFormed(v)
  {
    seq(|ms|, i requires 0 <= i < |ms| => QueryViolation(ms[i]))
  }

  /** The violations are grouped by section, in report order. */
  predicate Staged(vs: seq<Violation>) {
    forall i, j :: 0 <= i < j < |vs| ==> vs[i].kind.Stage() <= vs[j].kind.Stage()
  }

  /** The violations of section `k`, in order. */
  function AtStage(vs: seq<Violation>, k: nat): (r: seq<Violation>)
    ensures AllAt(r, k)
  {
    if |vs| == 0 then []
    else (if vs[0].kind.Stage() == k then [vs[0]] else []) + AtStage(vs[1..], k)
  }

  lemma {:induction false} AtStageAppend(a: seq<Violation>, b: seq<Violation>, k: nat)
    ensures AtStage(a + b, k) == AtStage(a, k) + AtStage(b, k)
  {
    if |a| == 0 {
      assert a + b == b;
    } else {
      assert (a + b)[0] == a[0] && (a + b)[1..] == a[1..] + b;
      AtStageAppend(a[1..], b, k);
    }
  }

  lemma {:induction false} AtStageOf(vs: seq<Violation>, j: nat, k: nat)
    requires AllAt(vs, j)
    ensures AtStage(vs, k) == if j == k then vs else []
  {
    if |vs| > 0 {
      assert AllAt(vs[1..], j);
      AtStageOf(vs[1..], j, k);
      assert vs == [vs[0]] + vs[1..];
    }
  }

  /** Appending a section that comes no earlier than everything before it keeps the grouping. */
  lemma StagedAppend(a: seq<Violation>, b: seq<Violation>, k: nat)
    requires Staged(a) && (forall i :: 0 <= i < |a| ==> a[i].kind.Stage() <= k) && AllAt(b, k)
    ensures Staged(a + b) && forall i :: 0 <= i < |a + b| ==> (a + b)[i].kind.Stage() <= k
  {
  }

  /** No violation says a response header or body is undeclared. */
  predicate NoUndefinedResponse(vs: seq<Violation>) {
    forall v :: v in vs ==> v.kind != UndefinedResponseHeader && v.kind != UndefinedResponseBody
  }

  /** What holds of every violation of a full report: well formed, not stand-alone,
      and not an undeclared response header or body. */
  predicate Sound(vs: seq<Violation>) {
    forall v :: v in vs ==>
      (WellFormed(v) && v.kind.Stage() > 0 && v.kind != UndefinedResponseHeader && v.kind != UndefinedResponseBody)
  }

  /** A section of stage `k` is sound when its violations are well formed and, on
      the response side, none says something is undeclared. */
  lemma SectionSound(vs: seq<Violation>, k: nat)
    requires AllAt(vs, k) && k > 0 && (forall v :: v in vs ==> WellFormed(v))
    requires k == 2 || k == 4 ==> NoUndefinedResponse(vs)
    ensures Sound(vs)
  {
  }

  lemma SoundAppend(a: seq<Violation>, b: seq<Violation>)
    requires Sound(a) && Sound(b)
    ensures Sound(a + b)
  {
  }

  /** The six sections of a report: request headers, response headers, request
      body, response body, path parameters, query parameters. */
  datatype Sections = Sections(requestHeaders: seq<Violation>, responseHeaders: seq<Violation>,
                               requestBody: seq<Violation>, responseBody: seq<Violation>,
                               pathParams: seq<Violation>, queryParams: seq<Violation>)
  {
    predicate Valid() {
      AllAt(requestHeaders, 1) && AllAt(responseHeaders, 2) && AllAt(requestBody, 3)
      && AllAt(responseBody, 4) && AllAt(pathParams, 5) && AllAt(queryParams, 6)
    }

    function All(): seq<Violation> {
      requestHeaders + responseHeaders + requestBody + responseBody + pathParams + queryParams
    }

    /** The section of stage `k`. */
    function Section(k: nat): seq<Violation>
      requires 1 <= k <= 6
    {
      if k == 1 then requestHeaders else if k == 2 then responseHeaders else if k == 3 then requestBody
      else if k == 4 then responseBody else if k == 5 then pathParams else queryParams
    }
  }

  /** The section of each stage by name. */
  lemma SectionFields(s: Sections)
    ensures s.Section(1) == s.requestHeaders && s.Section(2) == s.responseHeaders
      && s.Section(3) == s.requestBody && s.Section(4) == s.responseBody
      && s.Section(5) == s.pathParams && s.Section(6) == s.queryParams
  {
  }

  lemma AtStageAppendOf(a: seq<Violation>, b: seq<Violation>, j: nat, k: nat)
    requires AllAt(b, j)
    ensures AtStage(a + b, k) == AtStage(a, k) + (if j == k then b else [])
  {
    AtStageAppend(a, b, k);
    AtStageOf(b, j, k);
  }

  /** Concatenated sections are grouped in report order. */
  lemma SectionsStaged(s: Sections)
    requires s.Valid()
    ensures Staged(s.All())
  {
    StagedAppend(s.requestHeaders, s.responseHeaders, 2);
    var a2 := s.requestHeaders + s.responseHeaders;
    StagedAppend(a2, s.requestBody, 3);
    var a3 := a2 + s.requestBody;
    StagedAppend(a3, s.responseBody, 4);
    var a4 := a3 + s.responseBody;
    StagedAppend(a4, s.pathParams, 5);
    var a5 := a4 + s.pathParams;
    StagedAppend(a5, s.queryParams, 6);
  }

  /** Each section is what of its stage the concatenated sections hold. */
  lemma {:induction false} SectionAt(s: Sections, k: nat)
    requires s.Valid() && 1 <= k <= 6
    ensures AtStage(s.All(), k) == s.Section(k)
  {
    var a2 := s.requestHeaders + s.responseHeaders;
    var a3 := a2 + s.requestBody;
    var a4 := a3 + s.responseBody;
    var a5 := a4 + s.pathParams;
    AtStageOf(s.requestHeaders, 1, k);
    AtStageAppendOf(s.requestHeaders, s.responseHeaders, 2, k);
    AtStageAppendOf(a2, s.requestBody, 3, k);
    AtStageAppendOf(a3, s.responseBody, 4, k);
    AtStageAppendOf(a4, s.pathParams, 5, k);
    AtStageAppendOf(a5, s.queryParams, 6, k);
    SectionFields(s);
    if k == 1 {
      assert AtStage(a5, k) == s.requestHeaders;
    } else if k == 2 {
      assert AtStage(a2, k) == s.responseHeaders;
    } else if k == 3 {
      assert AtStage(a2, k) == [];
    } else if k == 4 {
      assert AtStage(a3, k) == [];
    } else if k == 5 {
      assert AtStage(a4, k) == [];
    } else {
      assert AtStage(a5, k) == [];
    }
  }

  function NotFoundMessage(req: UserInputRequest): string {
    "Endpoint " + req.httpMethod + " " + req.path + " not found."
  }

  function NoResponseMessage(e: Endpoint): string {
    "There is no response or default response defined on " + e.path + ":" + e.httpMethod.Name()
  }

  /** The sections of the report on an exchange addressed to `e` whose response
      the contract describes by `expected`. */
  function SectionsOf(c: Contract, e: Endpoint, expected: ExpectedResponse, req: UserInputRequest,
                      resp: UserInputResponse, pathMismatches: seq<PathParamMismatch>, o: Oracles): Sections
    requires forall m :: m in pathMismatches ==> |m.typeDisparities| > 0
  {
    Sections(
      HeaderViolations(RequestSide, HeaderMismatches(RequestHeadersOf(e), req.headers, true, o)),
      HeaderViolations(ResponseSide, HeaderMismatches(expected.headers, resp.headers, false, o)),
      BodyViolations(RequestSide, BodyMismatches(RequestBodyOf(e), req.body, true, o)),
      BodyViolations(ResponseSide, BodyMismatches(expected.body, resp.body, false, o)),
      PathViolations(pathMismatches),
      QueryViolations(QueryParamMismatches(e, req.path, c.config, o)))
  }

  /** Every section holds violations of its own stage, and all are sound. */
  lemma SectionsOfSound(c: Contract, e: Endpoint, expected: ExpectedResponse, req: UserInputRequest,
                        resp: UserInputResponse, pathMismatches: seq<PathParamMismatch>, o: Oracles)
    requires forall m :: m in pathMismatches ==> |m.typeDisparities| > 0
    ensures var s := SectionsOf(c, e, expected, req, resp, pathMismatches, o);
      s.Valid() && Sound(s.All())
  {
    var s := SectionsOf(c, e, expected, req, resp, pathMismatches, o);
    ResponseSectionsSound(expected, resp, o);
    assert SoundAt(s.requestHeaders, 1);
    assert SoundAt(s.requestBody, 3);
    assert SoundAt(s.pathParams, 5);
    assert SoundAt(s.queryParams, 6);
    SectionsSound(s);
  }

  lemma ResponseSectionsSound(expected: ExpectedResponse, resp: UserInputResponse, o: Oracles)
    ensures SoundAt(HeaderViolations(ResponseSide, HeaderMismatches(expected.headers, resp.headers, false, o)), 2)
    ensures SoundAt(BodyViolations(ResponseSide, BodyMismatches(expected.body, resp.body, false, o)), 4)
  {
    ResponseNeverUndefined(expected, resp, o);
  }

  /** A section of stage `k` whose violations are well formed and, on the
      response side, never say something is undeclared. */
  predicate SoundAt(vs: seq<Violation>, k: nat) {
    AllAt(vs, k) && (forall v :: v in vs ==> WellFormed(v)) && (k == 2 || k == 4 ==> NoUndefinedResponse(vs))
  }

  lemma SectionsSound(s: Sections)
    requires SoundAt(s.requestHeaders, 1) && SoundAt(s.responseHeaders, 2) && SoundAt(s.requestBody, 3)
    requires SoundAt(s.responseBody, 4) && SoundAt(s.pathParams, 5) && SoundAt(s.queryParams, 6)
    ensures s.Valid() && Sound(s.All())
  {
    SectionSound(s.requestHeaders, 1);
    SectionSound(s.responseHeaders, 2);
    SectionSound(s.requestBody, 3);
    SectionSound(s.responseBody, 4);
    SectionSound(s.pathParams, 5);
    SectionSound(s.queryParams, 6);
    SoundAppend(s.requestHeaders, s.responseHeaders);
    var a2 := s.requestHeaders + s.responseHeaders;
    SoundAppend(a2, s.requestBody);
    var a3 := a2 + s.requestBody;
    SoundAppend(a3, s.responseBody);
    var a4 := a3 + s.responseBody;
    SoundAppend(a4, s.pathParams);
    SoundAppend(a4 + s.pathParams, s.queryParams);
  }

  /** The response side is checked leniently: it never reports an undeclared
      header or an undeclared body. */
  lemma ResponseNeverUndefined(expected: ExpectedResponse, resp: UserInputResponse, o: Oracles)
    ensures forall m :: m in HeaderMismatches(expected.headers, resp.headers, false, o) ==> !m.UndefinedHeader?
    ensures UndefinedBody !in BodyMismatches(expected.body, resp.body, false, o)
  {
    var ms := HeaderMismatches(expected.headers, resp.headers, false, o);
    forall m | m in ms ensures !m.UndefinedHeader? {
      UndefinedHeaderIff(expected.headers, resp.headers, false, o, m.header);
    }
  }

  /** The six checks of an exchange addressed to `e` whose response the contract
      describes by `expected`; only the path comparison can throw. */
  function Checked(c: Contract, e: Endpoint, expected: ExpectedResponse, req: UserInputRequest,
                   resp: UserInputResponse, o: Oracles): (r: Result<seq<Violation>, string>)
    ensures r.Err? <==> PathParamMismatches(e, req.path, o).Err?
    ensures r.Err? ==> r.error == PathParamMismatches(e, req.path, o).error
    ensures r.Ok? ==> Staged(r.value) && Sound(r.value)
  {
    var pathMismatches :- PathParamMismatches(e, req.path, o);
    var s := SectionsOf(c, e, expected, req, resp, pathMismatches, o);
    SectionsOfSound(c, e, expected, req, resp, pathMismatches, o);
    SectionsStaged(s);
    Ok(s.All())
  }

  /** What a successful report holds of stage `k` is the section of that stage. */
  lemma CheckedSection(c: Contract, e: Endpoint, expected: ExpectedResponse, req: UserInputRequest,
                       resp: UserInputResponse, o: Oracles, k: nat)
    requires PathParamMismatches(e, req.path, o).Ok? && 1 <= k <= 6
    ensures Checked(c, e, expected, req, resp, o).Ok?
    ensures AtStage(Checked(c, e, expected, req, resp, o).value, k)
      == SectionsOf(c, e, expected, req, resp, PathParamMismatches(e, req.path, o).value, o).Section(k)
  {
    var pm := PathParamMismatches(e, req.path, o).value;
    var s := SectionsOf(c, e, expected, req, resp, pm, o);
    SectionsOfSound(c, e, expected, req, resp, pm, o);
    assert Checked(c, e, expected, req, resp, o).value == s.All();
    SectionAt(s, k);
    SectionFields(s);
  }

  /** The header sections of a successful report are the mapped results of the
      strict request check and the lenient response check. */
  lemma CheckedHeaderSections(c: Contract, e: Endpoint, expected: ExpectedResponse, req: UserInputRequest,
                              resp: UserInputResponse, o: Oracles)
    requires PathParamMismatches(e, req.path, o).Ok?
    ensures Checked(c, e, expected, req, resp, o).Ok?
    ensures AtStage(Checked(c, e, expected, req, resp, o).value, 1) == HeaderViolations(RequestSide, HeaderMismatches(RequestHeadersOf(e), req.headers, true, o))
    ensures AtStage(Checked(c, e, expected, req, resp, o).value, 2) == HeaderViolations(ResponseSide, HeaderMismatches(expected.headers, resp.headers, false, o))
  {
    CheckedSection(c, e, expected, req, resp, o, 1);
    CheckedSection(c, e, expected, req, resp, o, 2);
  }

  /** The body sections of a successful report are the mapped results of the
      strict request check and the lenient response check. */
  lemma CheckedBodySections(c: Contract, e: Endpoint, expected: ExpectedResponse, req: UserInputRequest,
                            resp: UserInputResponse, o: Oracles)
    requires PathParamMismatches(e, req.path, o).Ok?
    ensures Checked(c, e, expected, req, resp, o).Ok?
    ensures AtStage(Checked(c, e, expected, req, resp, o).value, 3) == BodyViolations(RequestSide, BodyMismatches(RequestBodyOf(e), req.body, true, o))
    ensures AtStage(Checked(c, e, expected, req, resp, o).value, 4) == BodyViolations(ResponseSide, BodyMismatches(expected.body, resp.body, false, o))
  {
    CheckedSection(c, e, expected, req, resp, o, 3);
    CheckedSection(c, e, expected, req, resp, o, 4);
  }

  /** The path section of a successful report is the mapped result of the path
      parameter check. */
  lemma CheckedPathSection(c: Contract, e: Endpoint, expected: ExpectedResponse, req: UserInputRequest,
                           resp: UserInputResponse, o: Oracles)
    requires PathParamMismatches(e, req.path, o).Ok?
    ensures Checked(c, e, expected, req, resp, o).Ok?
    ensures AtStage(Checked(c, e, expected, req, resp, o).value, 5) == PathViolations(PathParamMismatches(e, req.path, o).value)
  {
    var pm := PathParamMismatches(e, req.path, o).value;
    CheckedSection(c, e, expected, req, resp, o, 5);
    SectionFields(SectionsOf(c, e, expected, req, resp, pm, o));
  }

  /** The query section of a successful report is the mapped result of the
      query parameter check. */
  lemma CheckedQuerySection(c: Contract, e: Endpoint, expected: ExpectedResponse, req: UserInputRequest,
                            resp: UserInputResponse, o: Oracles)
    requires PathParamMismatches(e, req.path, o).Ok?
    ensures Checked(c, e, expected, req, resp, o).Ok?
    ensures AtStage(Checked(c, e, expected, req, resp, o).value, 6) == QueryViolations(QueryParamMismatches(e, req.path, c.config, o))
  {
    var pm := PathParamMismatches(e, req.path, o).value;
    CheckedSection(c, e, expected, req, resp, o, 6);
    QuerySectionOf(c, e, expected, req, resp, pm, o);
  }

  lemma QuerySectionOf(c: Contract, e: Endpoint, expected: ExpectedResponse, req: UserInputRequest,
                       resp: UserInputResponse, pm: seq<PathParamMismatch>, o: Oracles)
    requires forall m :: m in pm ==> |m.typeDisparities| > 0
    ensures SectionsOf(c, e, expected, req, resp, pm, o).Section(6) == QueryViolations(QueryParamMismatches(e, req.path, c.config, o))
  {
    SectionFields(SectionsOf(c, e, expected, req, resp, pm, o));
  }

  /** `findViolations(request, response)`, with the pattern style as a parameter.
      Without an endpoint, and without a response for the status, the report is a
      single violation; otherwise it is the six checks, in the endpoint's name. */
  function Report(c: Contract, req: UserInputRequest, resp: UserInputResponse, o: Oracles, style: Style): (r: Result<Outcome, string>)
    ensures (forall i :: 0 <= i < |c.endpoints| ==> !RequestMatches(c.endpoints[i], req, style)) ==>
      r == Ok(Outcome([Violation(UndefinedEndpoint, NotFoundMessage(req), None)], ""))
    ensures var found := EndpointByRequest(c.endpoints, req, style);
      found.Some? ==> var e := found.value;
        (RelevantResponse(e, resp.statusCode).None? ==>
          r == Ok(Outcome([Violation(UndefinedEndpointResponse, NoResponseMessage(e), None)], e.name)))
        && (RelevantResponse(e, resp.statusCode).Some? ==>
          var checked := Checked(c, e, RelevantResponse(e, resp.statusCode).value, req, resp, o);
          (r.Err? <==> checked.Err?) && (r.Err? ==> r.error == checked.error)
          && (r.Ok? ==> r.value == Outcome(checked.value, e.name)))
  {
    var found := EndpointByRequest(c.endpoints, req, style);
    if found.None? then Ok(Outcome([Violation(UndefinedEndpoint, NotFoundMessage(req), None)], ""))
    else
      var e := found.value;
      var expected := RelevantResponse(e, resp.statusCode);
      if expected.None? then Ok(Outcome([Violation(UndefinedEndpointResponse, NoResponseMessage(e), None)], e.name))
      else
        var vs :- Checked(c, e, expected.value, req, resp, o);
        Ok(Outcome(vs, e.name))
  }

  /** Every report is grouped by section in report order, every violation in it
      is well formed, and none says a response header or body is undeclared. */
  lemma ReportSound(c: Contract, req: UserInputRequest, resp: UserInputResponse, o: Oracles, style: Style)
    ensures var r := Report(c, req, resp, o, style);
      r.Ok? ==>
        (Staged(r.value.violations) && NoUndefinedResponse(r.value.violations)
         && forall v :: v in r.value.violations ==> WellFormed(v))
  {
    var found := EndpointByRequest(c.endpoints, req, style);
    if found.Some? && RelevantResponse(found.value, resp.statusCode).Some? {
      var e := found.value;
      var checked := Checked(c, e, RelevantResponse(e, resp.statusCode).value, req, resp, o);
      if checked.Ok? {
        assert Report(c, req, resp, o, style).value.violations == checked.value;
      }
    }
  }

  /** `findViolations(request, response)` as written: the endpoint is found with
      the `.+` pattern, which can span several path components, so the path
      comparison can meet a contract path with a different number of components
      and throw. */
  function FindViolations(c: Contract, req: UserInputRequest, resp: UserInputResponse, o: Oracles): (r: Result<Outcome, string>)
    ensures r.Err? ==> (r.error == MissingPathParamMessage
      || exists i :: 0 <= i < |c.endpoints| && r.error == PathLengthMessage(c.endpoints[i].path, req.path))
  {
    ReportErrors(c, req, resp, o, VerifierStyle);
    Report(c, req, resp, o, VerifierStyle)
  }

  /** What a report can throw: a missing path parameter, or a component count
      that differs from an endpoint's, the latter only when wildcards may span
      components. */
  lemma ReportErrors(c: Contract, req: UserInputRequest, resp: UserInputResponse, o: Oracles, style: Style)
    ensures var r := Report(c, req, resp, o, style);
      r.Err? ==> (r.error == MissingPathParamMessage
        || (style == VerifierStyle && exists i :: 0 <= i < |c.endpoints| && r.error == PathLengthMessage(c.endpoints[i].path, req.path)))
  {
    var r := Report(c, req, resp, o, style);
    if r.Err? {
      var found := EndpointByRequest(c.endpoints, req, style);
      var i :| 0 <= i < |c.endpoints| && c.endpoints[i] == found.value && RequestMatches(c.endpoints[i], req, style)
        && forall j :: 0 <= j < i ==> !RequestMatches(c.endpoints[j], req, style);
      assert r.error == Checked(c, c.endpoints[i], RelevantResponse(c.endpoints[i], resp.statusCode).value, req, resp, o).error;
      assert r.error == PathParamMismatches(c.endpoints[i], req.path, o).error;
      if style != VerifierStyle {
        ConfinedMatchComponents(c.endpoints[i].path, StripQuery(req.path), style);
      }
    }
  }

  /** `findViolations` with the endpoint found by a pattern whose wildcards stay
      inside one path component: every endpoint it finds has as many components
      as the request path, so the component count never throws. */
  function FindViolationsSegmentwise(c: Contract, req: UserInputRequest, resp: UserInputResponse, o: Oracles): (r: Result<Outcome, string>)
    ensures r.Err? ==> r.error == MissingPathParamMessage
  {
    ReportErrors(c, req, resp, o, SegmentStyle);
    Report(c, req, resp, o, SegmentStyle)
  }

  /** Every dynamic component of every endpoint path names one of its path parameters
      (what the endpoint parser establishes). */
  predicate PathParamsCovered(c: Contract) {
    forall i, n :: 0 <= i < |c.endpoints| && n in DynamicPathComponents(c.endpoints[i].path) ==>
      exists j :: 0 <= j < |PathParamsOf(c.endpoints[i])| && PathParamsOf(c.endpoints[i])[j].name == n
  }

  /** For a contract whose path parameters cover its paths, the segment-wise
      comparison never throws. */
  lemma SegmentwiseTotal(c: Contract, req: UserInputRequest, resp: UserInputResponse, o: Oracles)
    requires PathParamsCovered(c)
    ensures FindViolationsSegmentwise(c, req, resp, o).Ok?
  {
    var found := EndpointByRequest(c.endpoints, req, SegmentStyle);
    if found.Some? && RelevantResponse(found.value, resp.statusCode).Some? {
      var i :| 0 <= i < |c.endpoints| && c.endpoints[i] == found.value && RequestMatches(c.endpoints[i], req, SegmentStyle)
        && forall j :: 0 <= j < i ==> !RequestMatches(c.endpoints[j], req, SegmentStyle);
      var e := c.endpoints[i];
      assert forall n :: n in DynamicPathComponents(e.path) ==>
        exists j :: 0 <= j < |PathParamsOf(e)| && PathParamsOf(e)[j].name == n;
      CoveredPathTotal(e, req, o);
    }
  }

  /** An endpoint the segment-wise pattern finds, whose dynamic components all
      name path parameters, compares its path parameters without throwing. */
  lemma CoveredPathTotal(e: Endpoint, req: UserInputRequest, o: Oracles)
    requires RequestMatches(e, req, SegmentStyle)
    requires forall n :: n in DynamicPathComponents(e.path) ==>
      exists j :: 0 <= j < |PathParamsOf(e)| && PathParamsOf(e)[j].name == n
    ensures PathParamMismatches(e, req.path, o).Ok?
  {
    ConfinedMatchComponents(e.path, StripQuery(req.path), SegmentStyle);
    var cs := Split(e.path, '/');
    forall k | 0 <= k < |cs| && IsDynamic(cs[k])
      ensures exists j :: 0 <= j < |PathParamsOf(e)| && PathParamsOf(e)[j].name == cs[k][1..]
    {
      assert cs[k][1..] in DynamicPathComponents(e.path);
    }
  }

  /** `/a/:b` with path parameter `b`, answering 200. */
  function OverlongExample(): Contract {
    Contract("example", None, None, Config(Ampersand), [], None,
      [Endpoint("getB", None, [], GET, "/a/:b", Some(Request([], [PathParam("b", None, String, None)], [], None)),
                [Response(200, None, [], None)], None, false)])
  }

  /** A request to `/a/x/y` reaches the endpoint `/a/:b` as written and makes the
      report throw. */
  lemma OverlongPathThrows(o: Oracles)
    ensures FindViolations(OverlongExample(), UserInputRequest("GET", "/a/x/y", [], None), UserInputResponse(200, [], None), o)
      == Err(PathLengthMessage("/a/:b", "/a/x/y"))
  {
    var c := OverlongExample();
    var e := c.endpoints[0];
    var req := UserInputRequest("GET", "/a/x/y", [], None);
    OverlongRequestMatches();
    assert EndpointByRequest(c.endpoints, req, VerifierStyle) == Some(e);
    assert RelevantResponse(e, 200).Some?;
    SplitSlashes("/a/:b");
    SplitSlashes("/a/x/y");
    assert PathParamMismatches(e, "/a/x/y", o) == Err(PathLengthMessage("/a/:b", "/a/x/y"));
  }

  /** The segment-wise search finds no endpoint for `/a/x/y` and reports that. */
  lemma OverlongPathRejected(o: Oracles)
    ensures FindViolationsSegmentwise(OverlongExample(), UserInputRequest("GET", "/a/x/y", [], None), UserInputResponse(200, [], None), o)
      == Ok(Outcome([Violation(UndefinedEndpoint, NotFoundMessage(UserInputRequest("GET", "/a/x/y", [], None)), None)], ""))
  {
    var c := OverlongExample();
    var req := UserInputRequest("GET", "/a/x/y", [], None);
    OverlongRequestMatches();
    if Matches(Compile("/a/:b", SegmentStyle), "/a/x/y", SegmentStyle) {
      ConfinedMatchComponents("/a/:b", "/a/x/y", SegmentStyle);
    }
    assert forall i :: 0 <= i < |c.endpoints| ==> !RequestMatches(c.endpoints[i], req, SegmentStyle);
  }

  /** The example request addresses the example endpoint as written. */
  lemma OverlongRequestMatches()
    ensures RequestMatches(OverlongExample().endpoints[0], UserInputRequest("GET", "/a/x/y", [], None), VerifierStyle)
    ensures StripQuery("/a/x/y") == "/a/x/y"
    ensures Slashes("/a/:b") == 2 && Slashes("/a/x/y") == 3
  {
    assert ToUpper("GET") == "GET" by {
      assert ToUpper("GET")[0] == 'G' && ToUpper("GET")[1] == 'E' && ToUpper("GET")[2] == 'T';
    }
    SplitNoSep("/a/x/y", '?');
    VerifierWildcardSpansSlash();
    assert Slashes("/a/:b") == 2;
    assert Slashes("/a/x/y") == 3;
  }
}
