/** The OpenAPI 3 document generator (lib/src/generators/openapi3/openapi3.js):
    `generateOpenAPI3(contract)`. Every schema comes from the OpenAPI 3 schema
    emitter over the contract's type table; whatever the emitter throws, the
    generator throws. */
module OpenApi3Documents {
  import opened Util
  import opened Dicts
  import opened Types
  import opened Resolution
  import opened Discriminators
  import opened Contracts
  import opened OpenApi3Schemas
  import opened OpenApiCommon

  const OpenApiVersion := "3.0.2"
  const NoQueryTypes := "Unexpected error: query param resolved to no types"

  /** `style` of a query parameter. */
  datatype QueryStyle = DeepObject | Form

  /** `{ style, explode }` */
  datatype Serialization = Serialization(style: QueryStyle, explode: bool)

  /** A parameter object; `serialization` is absent when the spread object is empty. */
  datatype Parameter3 = Parameter3(name: string, location: Location, description: Option<string>,
                                   serialization: Option<Serialization>, required: bool, schema: Schema3,
                                   examples: Option<Dict<string, string>>)

  /** A request body object: its content keyed by media type. */
  datatype RequestBody3 = RequestBody3(content: Dict<string, Schema3>, required: bool)

  /** A header object of a response. */
  datatype Header3 = Header3(description: Option<string>, required: bool, schema: Schema3)

  /** A response object. */
  datatype Response3 = Response3(description: string, headers: Option<Dict<string, Header3>>,
                                 content: Option<Dict<string, Schema3>>)

  /** An operation object. */
  datatype Operation3 = Operation3(tags: Option<seq<string>>, description: Option<string>, operationId: string,
                                   parameters: Option<seq<Parameter3>>, requestBody: Option<RequestBody3>,
                                   responses: Dict<string, Response3>)

  /** The components object. */
  datatype Components3 = Components3(schemas: Option<Dict<string, Schema3>>,
                                     securitySchemes: Option<Dict<string, ApiKeyScheme>>)

  /** The OpenAPI 3 document. */
  datatype Document3 = Document3(openapi: string, info: Info, paths: Dict<string, Dict<string, Operation3>>,
                                 components: Option<Components3>, security: Option<seq<Dict<string, seq<string>>>>)

  /** `possibleTypes.some(isObjectType)` */
  function HasObject(ts: seq<Type>): (b: bool)
    ensures b <==> exists i :: 0 <= i < |ts| && ts[i].Object?
  {
    if |ts| == 0 then false
    else
      assert forall i :: 1 <= i < |ts| ==> ts[i] == ts[1..][i - 1];
      ts[0].Object? || HasObject(ts[1..])
  }

  /** `possibleTypes.some(isArrayType)` */
  function HasArray(ts: seq<Type>): (b: bool)
    ensures b <==> exists i :: 0 <= i < |ts| && ts[i].Array?
  {
    if |ts| == 0 then false
    else
      assert forall i :: 1 <= i < |ts| ==> ts[i] == ts[1..][i - 1];
      ts[0].Array? || HasArray(ts[1..])
  }

  /** The serialisation chosen for non-null root types: `deepObject` when only
      objects are possible, `form` when only arrays are (exploded for the
      ampersand strategy), nothing when the choice is ambiguous or moot. */
  function StyleFor(ts: seq<Type>, config: Config): (r: Option<Serialization>)
    ensures r == Some(Serialization(DeepObject, true)) <==>
      (exists i :: 0 <= i < |ts| && ts[i].Object?) && !(exists i :: 0 <= i < |ts| && ts[i].Array?)
    ensures r.Some? && r.value.style == Form <==>
      (exists i :: 0 <= i < |ts| && ts[i].Array?) && !(exists i :: 0 <= i < |ts| && ts[i].Object?)
    ensures r.Some? && r.value.style == Form ==> r.value.explode == (config.queryArray == Ampersand)
    ensures r.None? <==> ((exists i :: 0 <= i < |ts| && ts[i].Object?) <==> (exists i :: 0 <= i < |ts| && ts[i].Array?))
  {
    var obj := HasObject(ts);
    var arr := HasArray(ts);
    if obj && !arr then Some(Serialization(DeepObject, true))
    else if arr && !obj then
      match config.queryArray
      case Ampersand => Some(Serialization(Form, true))
      case Comma => Some(Serialization(Form, false))
    else None
  }

  /** `typeToQueryParameterSerializationStrategy(type, typeTable, config)` */
  function QuerySerialization(t: Type, tt: TypeTable, config: Config): (r: Result<Option<Serialization>, string>)
    ensures PossibleRootTypes(t, tt).Err? ==> r == Err(PossibleRootTypes(t, tt).error)
    ensures PossibleRootTypes(t, tt).Ok? && |NonNull(PossibleRootTypes(t, tt).value)| == 0 ==> r == Err(NoQueryTypes)
    ensures r.Ok? ==> PossibleRootTypes(t, tt).Ok? && r.value == StyleFor(NonNull(PossibleRootTypes(t, tt).value), config)
  {
    var roots :- PossibleRootTypes(t, tt);
    var ts := NonNull(roots);
    if |ts| == 0 then Err(NoQueryTypes) else Ok(StyleFor(ts, config))
  }

  /** An object-typed query parameter is a `deepObject`; an array-typed one is a
      `form`, exploded exactly for the ampersand strategy; a `null` query
      parameter is rejected. */
  lemma QueryStyleOfShapes(props: seq<Property>, elem: Type, tt: TypeTable, config: Config)
    ensures QuerySerialization(Object(props), tt, config) == Ok(Some(Serialization(DeepObject, true)))
    ensures QuerySerialization(Array(elem), tt, config) == Ok(Some(Serialization(Form, config.queryArray == Ampersand)))
    ensures QuerySerialization(Null, tt, config) == Err(NoQueryTypes)
  {
    var o := Object(props);
    var a := Array(elem);
    assert NonNull([o]) == [o];
    assert NonNull([a]) == [a];
    assert NonNull([Null]) == [];
    assert HasObject([o]) && !HasArray([o]);
    assert HasArray([a]) && !HasObject([a]);
  }

  /** `pathParams.map(...)`: a path parameter is always required and has no serialisation. */
  function PathParameter(p: PathParam, tt: TypeTable): (r: Result<Parameter3, string>)
    ensures r.Ok? <==> ToSchema(p.paramType, tt, false).Ok?
    ensures r.Ok? ==> r.value.name == p.name && r.value.location == InPath && r.value.description == p.description
    ensures r.Ok? ==> r.value.required && r.value.serialization.None? && r.value.examples == ExampleSet(p.examples)
    ensures r.Ok? ==> r.value.schema == ToSchema(p.paramType, tt, false).value
  {
    var schema :- ToSchema(p.paramType, tt, false);
    Ok(Parameter3(p.name, InPath, p.description, None, true, schema, ExampleSet(p.examples)))
  }

  /** `queryParams.map(...)`: the serialisation is decided before the schema is
      emitted, so its failure comes first. */
  function QueryParameter(q: QueryParam, tt: TypeTable, config: Config): (r: Result<Parameter3, string>)
    ensures r.Ok? <==> QuerySerialization(q.paramType, tt, config).Ok? && ToSchema(q.paramType, tt, false).Ok?
    ensures QuerySerialization(q.paramType, tt, config).Err? ==> r == Err(QuerySerialization(q.paramType, tt, config).error)
    ensures r.Ok? ==> r.value.name == q.name && r.value.location == InQuery && r.value.description == q.description
    ensures r.Ok? ==> r.value.required == !q.optional && r.value.examples == ExampleSet(q.examples)
    ensures r.Ok? ==> r.value.serialization == QuerySerialization(q.paramType, tt, config).value
    ensures r.Ok? ==> r.value.schema == ToSchema(q.paramType, tt, false).value
  {
    var serialization :- QuerySerialization(q.paramType, tt, config);
    var schema :- ToSchema(q.paramType, tt, false);
    Ok(Parameter3(q.name, InQuery, q.description, serialization, !q.optional, schema, ExampleSet(q.examples)))
  }

  /** `headers.map(...)`: a header parameter is required unless optional. */
  function HeaderParameter(h: Header, tt: TypeTable): (r: Result<Parameter3, string>)
    ensures r.Ok? <==> ToSchema(h.headerType, tt, false).Ok?
    ensures r.Ok? ==> r.value.name == h.name && r.value.location == InHeader && r.value.description == h.description
    ensures r.Ok? ==> r.value.required == !h.optional && r.value.serialization.None? && r.value.examples == ExampleSet(h.examples)
    ensures r.Ok? ==> r.value.schema == ToSchema(h.headerType, tt, false).value
  {
    var schema :- ToSchema(h.headerType, tt, false);
    Ok(Parameter3(h.name, InHeader, h.description, None, !h.optional, schema, ExampleSet(h.examples)))
  }

  /** `endpointRequestToParameterObjects`: path parameters, then query
      parameters, then headers, each group in contract order. */
  function ParameterObjects(req: Request, tt: TypeTable, config: Config): (r: Result<seq<Parameter3>, string>)
    ensures r.Ok? ==> |r.value| == |req.pathParams| + |req.queryParams| + |req.headers|
    ensures r.Ok? ==> forall i :: 0 <= i < |req.pathParams| ==>
      PathParameter(req.pathParams[i], tt) == Ok(r.value[i])
    ensures r.Ok? ==> forall i :: 0 <= i < |req.queryParams| ==>
      QueryParameter(req.queryParams[i], tt, config) == Ok(r.value[|req.pathParams| + i])
    ensures r.Ok? ==> forall i :: 0 <= i < |req.headers| ==>
      HeaderParameter(req.headers[i], tt) == Ok(r.value[|req.pathParams| + |req.queryParams| + i])
    ensures r.Ok? <==> (forall i :: 0 <= i < |req.pathParams| ==> PathParameter(req.pathParams[i], tt).Ok?)
                       && (forall i :: 0 <= i < |req.queryParams| ==> QueryParameter(req.queryParams[i], tt, config).Ok?)
                       && (forall i :: 0 <= i < |req.headers| ==> HeaderParameter(req.headers[i], tt).Ok?)
  {
    var path :- MapResult(req.pathParams, (p: PathParam) => PathParameter(p, tt));
    var rest :- QueryAndHeaderParameters(req, tt, config);
    ConcatIndices(path, rest);
    Ok(path + rest)
  }

  /** The query parameters, then the headers. */
  function QueryAndHeaderParameters(req: Request, tt: TypeTable, config: Config): (r: Result<seq<Parameter3>, string>)
    ensures r.Ok? ==> |r.value| == |req.queryParams| + |req.headers|
    ensures r.Ok? ==> forall i :: 0 <= i < |req.queryParams| ==>
      QueryParameter(req.queryParams[i], tt, config) == Ok(r.value[i])
    ensures r.Ok? ==> forall i :: 0 <= i < |req.headers| ==>
      HeaderParameter(req.headers[i], tt) == Ok(r.value[|req.queryParams| + i])
    ensures r.Ok? <==> (forall i :: 0 <= i < |req.queryParams| ==> QueryParameter(req.queryParams[i], tt, config).Ok?)
                       && (forall i :: 0 <= i < |req.headers| ==> HeaderParameter(req.headers[i], tt).Ok?)
  {
    var query :- MapResult(req.queryParams, (q: QueryParam) => QueryParameter(q, tt, config));
    var header :- MapResult(req.headers, (h: Header) => HeaderParameter(h, tt));
    ConcatIndices(query, header);
    Ok(query + header)
  }

  /** The parameters are grouped by location: path, query, header. */
  lemma ParametersGrouped(req: Request, tt: TypeTable, config: Config)
    requires forall i :: 0 <= i < |req.pathParams| ==> PathParameter(req.pathParams[i], tt).Ok?
    requires forall i :: 0 <= i < |req.queryParams| ==> QueryParameter(req.queryParams[i], tt, config).Ok?
    requires forall i :: 0 <= i < |req.headers| ==> HeaderParameter(req.headers[i], tt).Ok?
    ensures ParameterObjects(req, tt, config).Ok?
    ensures var ps := ParameterObjects(req, tt, config).value;
      forall i :: 0 <= i < |ps| ==>
        ps[i].location == (if i < |req.pathParams| then InPath
                           else if i < |req.pathParams| + |req.queryParams| then InQuery
                           else InHeader)
  {
    var ps := ParameterObjects(req, tt, config).value;
    var np, nq := |req.pathParams|, |req.queryParams|;
    forall i | 0 <= i < |ps|
      ensures ps[i].location == (if i < np then InPath else if i < np + nq then InQuery else InHeader)
    {
      if i < np {
        assert PathParameter(req.pathParams[i], tt) == Ok(ps[i]);
      } else if i < np + nq {
        var j := i - np;
        assert np + j == i;
        assert QueryParameter(req.queryParams[j], tt, config) == Ok(ps[np + j]);
      } else {
        var j := i - np - nq;
        assert np + nq + j == i;
        assert HeaderParameter(req.headers[j], tt) == Ok(ps[np + nq + j]);
      }
    }
  }

  /** `endpointRequestBodyToRequestBodyObject`: always required, always JSON. */
  function RequestBodyObject(body: Body, tt: TypeTable): (r: Result<RequestBody3, string>)
    ensures r.Ok? <==> ToSchema(body.bodyType, tt, false).Ok?
    ensures r.Ok? ==> r.value.required && Keys(r.value.content) == [JsonMediaType]
    ensures r.Ok? ==> Get(r.value.content, JsonMediaType) == Some(ToSchema(body.bodyType, tt, false).value)
  {
    var schema :- ToSchema(body.bodyType, tt, false);
    Ok(RequestBody3([(JsonMediaType, schema)], true))
  }

  /** `headerToHeaderObject`: required unless optional. */
  function HeaderObject(h: Header, tt: TypeTable): (r: Result<Header3, string>)
    ensures r.Ok? <==> ToSchema(h.headerType, tt, false).Ok?
    ensures r.Ok? ==> r.value.description == h.description && r.value.required == !h.optional
    ensures r.Ok? ==> r.value.schema == ToSchema(h.headerType, tt, false).value
  {
    var schema :- ToSchema(h.headerType, tt, false);
    Ok(Header3(h.description, !h.optional, schema))
  }

  /** A response header under its name. */
  function HeaderEntry(h: Header, tt: TypeTable): (r: Result<(string, Header3), string>)
    ensures r.Ok? <==> HeaderObject(h, tt).Ok?
    ensures r.Ok? ==> r.value == (h.name, HeaderObject(h, tt).value)
  {
    var o :- HeaderObject(h, tt);
    Ok((h.name, o))
  }

  /** The `content` of a response: the body's schema under `application/json`. */
  function ContentOf(body: Option<Body>, tt: TypeTable): (r: Result<Option<Dict<string, Schema3>>, string>)
    ensures body.None? ==> r == Ok(None)
    ensures body.Some? ==> (r.Ok? <==> ToSchema(body.value.bodyType, tt, false).Ok?)
    ensures body.Some? && r.Ok? ==> r.value == Some([(JsonMediaType, ToSchema(body.value.bodyType, tt, false).value)])
  {
    match body
    case None => Ok(None)
    case Some(b) =>
      var schema :- ToSchema(b.bodyType, tt, false);
      Ok(Some([(JsonMediaType, schema)]))
  }

  /** `endpointResponseToResponseObject`; `status` is absent for the default response. */
  function ResponseObject(status: Option<int>, description: Option<string>, headers: seq<Header>, body: Option<Body>,
                          tt: TypeTable): (r: Result<Response3, string>)
    ensures r.Ok? ==> r.value.description == ResponseDescription(status, description)
    ensures r.Ok? ==> (r.value.headers.None? <==> |headers| == 0)
    ensures r.Ok? ==> (r.value.content.None? <==> body.None?)
    ensures r.Ok? <==> (forall i :: 0 <= i < |headers| ==> HeaderObject(headers[i], tt).Ok?) && ContentOf(body, tt).Ok?
  {
    var hs :- if |headers| > 0 then
                var entries :- MapResult(headers, (h: Header) => HeaderEntry(h, tt));
                Ok(Some(FromPairs(entries)))
              else Ok(None);
    var content :- ContentOf(body, tt);
    Ok(Response3(ResponseDescription(status, description), hs, content))
  }

  /** Response header objects are keyed by header name; a repeated name keeps
      the last header's object. */
  lemma ResponseHeaders(status: Option<int>, description: Option<string>, headers: seq<Header>, body: Option<Body>,
                        tt: TypeTable, name: string)
    requires ResponseObject(status, description, headers, body, tt).Ok? && |headers| > 0
    ensures var hs := ResponseObject(status, description, headers, body, tt).value.headers.value;
      Has(hs, name) <==> exists i :: 0 <= i < |headers| && headers[i].name == name
    ensures var hs := ResponseObject(status, description, headers, body, tt).value.headers.value;
      forall i :: 0 <= i < |headers| && headers[i].name == name && (forall j :: i < j < |headers| ==> headers[j].name != name)
        ==> Get(hs, name) == Some(HeaderObject(headers[i], tt).value)
  {
    var entries := HeaderEntries(status, description, headers, body, tt);
    HeadersByName(headers, entries, name);
  }

  /** Entries keyed by header name, looked up by name. */
  lemma HeadersByName<V>(headers: seq<Header>, entries: Dict<string, V>, name: string)
    requires |entries| == |headers|
    requires forall i :: 0 <= i < |headers| ==> entries[i].0 == headers[i].name
    ensures Has(FromPairs(entries), name) <==> exists i :: 0 <= i < |headers| && headers[i].name == name
    ensures forall i :: 0 <= i < |headers| && headers[i].name == name && (forall j :: i < j < |headers| ==> headers[j].name != name) ==>
      Get(FromPairs(entries), name) == Some(entries[i].1)
  {
    FromPairsLast(entries, name);
    if exists i :: 0 <= i < |headers| && headers[i].name == name {
      var i :| 0 <= i < |headers| && headers[i].name == name;
      assert entries[i].0 == name;
    }
  }

  /** The pairs the response's header object is built from. */
  lemma HeaderEntries(status: Option<int>, description: Option<string>, headers: seq<Header>, body: Option<Body>,
                      tt: TypeTable) returns (entries: Dict<string, Header3>)
    requires ResponseObject(status, description, headers, body, tt).Ok? && |headers| > 0
    ensures ResponseObject(status, description, headers, body, tt).value.headers == Some(FromPairs(entries))
    ensures |entries| == |headers|
    ensures forall i :: 0 <= i < |headers| ==> entries[i] == (headers[i].name, HeaderObject(headers[i], tt).value)
  {
    entries := MapResult(headers, (h: Header) => HeaderEntry(h, tt)).value;
    forall i | 0 <= i < |headers|
      ensures entries[i] == (headers[i].name, HeaderObject(headers[i], tt).value)
    {
      assert HeaderEntry(headers[i], tt) == Ok(entries[i]);
    }
  }

  /** A specific response under its status. */
  function SpecificEntry(resp: Response, tt: TypeTable): (r: Result<(int, Response3), string>)
    ensures r.Ok? <==> ResponseObject(Some(resp.status), resp.description, resp.headers, resp.body, tt).Ok?
    ensures r.Ok? ==> r.value == (resp.status, ResponseObject(Some(resp.status), resp.description, resp.headers, resp.body, tt).value)
  {
    var o :- ResponseObject(Some(resp.status), resp.description, resp.headers, resp.body, tt);
    Ok((resp.status, o))
  }

  /** The default response object, when there is a default response. */
  function DefaultObject(d: Option<DefaultResponse>, tt: TypeTable): (r: Result<Option<Response3>, string>)
    ensures d.None? ==> r == Ok(None)
    ensures d.Some? ==> (r.Ok? <==> ResponseObject(None, d.value.description, d.value.headers, d.value.body, tt).Ok?)
    ensures d.Some? && r.Ok? ==> r.value == Some(ResponseObject(None, d.value.description, d.value.headers, d.value.body, tt).value)
  {
    match d
    case None => Ok(None)
    case Some(dr) =>
      var o :- ResponseObject(None, dr.description, dr.headers, dr.body, tt);
      Ok(Some(o))
  }

  /** `endpointResponsesToResponsesObject`: the specific responses first, then the default one. */
  function ResponsesOf(e: Endpoint, tt: TypeTable): (r: Result<Dict<string, Response3>, string>)
    ensures r.Ok? <==> (forall i :: 0 <= i < |e.responses| ==> SpecificEntry(e.responses[i], tt).Ok?)
                       && DefaultObject(e.defaultResponse, tt).Ok?
  {
    var specific :- MapResult(e.responses, (resp: Response) => SpecificEntry(resp, tt));
    var dflt :- DefaultObject(e.defaultResponse, tt);
    Ok(ResponsesObject(specific, dflt))
  }

  /** Each status finds the response object of the last response with that
      status, and `default` finds the default response's object. */
  lemma ResponsesOfLookup(e: Endpoint, tt: TypeTable, i: nat)
    requires forall k :: 0 <= k < |e.responses| ==> SpecificEntry(e.responses[k], tt).Ok?
    requires DefaultObject(e.defaultResponse, tt).Ok?
    requires i < |e.responses|
    requires forall j :: i < j < |e.responses| ==> e.responses[j].status != e.responses[i].status
    ensures ResponsesOf(e, tt).Ok?
    ensures var resp := e.responses[i];
      Get(ResponsesOf(e, tt).value, Decimal.DecimalString(resp.status))
        == Some(ResponseObject(Some(resp.status), resp.description, resp.headers, resp.body, tt).value)
    ensures Get(ResponsesOf(e, tt).value, DefaultResponseKey) == DefaultObject(e.defaultResponse, tt).value
  {
    var specific := MapResult(e.responses, (resp: Response) => SpecificEntry(resp, tt)).value;
    var dflt := DefaultObject(e.defaultResponse, tt).value;
    var resp := e.responses[i];
    assert forall j :: 0 <= j < |specific| ==> specific[j].0 == e.responses[j].status;
    ResponsesLookup(specific, dflt, resp.status);
    LastValueAt(specific, resp.status, i);
  }

  /** `endpointToOperationObject` */
  function OperationOf(e: Endpoint, tt: TypeTable, config: Config): (r: Result<Operation3, string>)
    ensures r.Ok? ==> r.value.operationId == e.name && r.value.description == e.description
    ensures r.Ok? ==> r.value.tags == TagsField(e.tags)
    ensures r.Ok? ==> (r.value.parameters.Some? <==> e.request.Some?)
    ensures r.Ok? && e.request.Some? ==>
      ParameterObjects(e.request.value, tt, config).Ok? && r.value.parameters == Some(ParameterObjects(e.request.value, tt, config).value)
    ensures r.Ok? ==> (r.value.requestBody.Some? <==> RequestBodyOf(e).Some?)
    ensures r.Ok? ==> ResponsesOf(e, tt).Ok? && r.value.responses == ResponsesOf(e, tt).value
    ensures r.Ok? <==> (e.request.Some? ==> ParameterObjects(e.request.value, tt, config).Ok?)
                       && (RequestBodyOf(e).Some? ==> RequestBodyObject(RequestBodyOf(e).value, tt).Ok?)
                       && ResponsesOf(e, tt).Ok?
  {
    var parameters :- if e.request.Some? then
                        var ps :- ParameterObjects(e.request.value, tt, config);
                        Ok(Some(ps))
                      else Ok(None);
    var requestBody :- if RequestBodyOf(e).Some? then
                         var b :- RequestBodyObject(RequestBodyOf(e).value, tt);
                         Ok(Some(b))
                       else Ok(None);
    var responses :- ResponsesOf(e, tt);
    Ok(Operation3(TagsField(e.tags), e.description, e.name, parameters, requestBody, responses))
  }

  /** `endpointsToPathsObject` */
  function PathsOf(endpoints: seq<Endpoint>, tt: TypeTable, config: Config): (r: Result<Dict<string, Dict<string, Operation3>>, string>)
    ensures r.Ok? <==> forall i :: 0 <= i < |endpoints| ==> OperationOf(endpoints[i], tt, config).Ok?
  {
    var ops :- MapResult(endpoints, (e: Endpoint) => OperationOf(e, tt, config));
    Ok(PathsObject(endpoints, ops))
  }

  /** Each endpoint's operation is found under its rendered path and its
      method, unless a later endpoint claims the same pair. */
  lemma PathsOfLookup(endpoints: seq<Endpoint>, tt: TypeTable, config: Config, path: string, m: HttpMethod, i: nat)
    requires forall k :: 0 <= k < |endpoints| ==> OperationOf(endpoints[k], tt, config).Ok?
    requires LastServing(endpoints, path, m, i)
    ensures PathsOf(endpoints, tt, config).Ok?
    ensures OperationAt(PathsOf(endpoints, tt, config).value, path, m) == Some(OperationOf(endpoints[i], tt, config).value)
    ensures OperationAt(PathsOf(endpoints, tt, config).value, path, m).value.operationId == endpoints[i].name
  {
    var ops := MapResult(endpoints, (e: Endpoint) => OperationOf(e, tt, config)).value;
    PathsLookup(endpoints, ops, path, m);
  }

  /** A named type's schema, described by the type's description unless it is a reference. */
  function SchemaEntry(t: NamedTypeDef, tt: TypeTable): (r: Result<(string, Schema3), string>)
    ensures r.Ok? <==> ToSchema(t.typeDef.definition, tt, false).Ok?
    ensures r.Ok? ==> r.value.0 == t.name
    ensures r.Ok? ==> r.value.1 == WithDescription(ToSchema(t.typeDef.definition, tt, false).value, t.typeDef.description)
  {
    var schema :- ToSchema(t.typeDef.definition, tt, false);
    Ok((t.name, WithDescription(schema, t.typeDef.description)))
  }

  /** `contractTypesToComponentsObjectSchemas` */
  function ComponentSchemas(types: seq<NamedTypeDef>, tt: TypeTable): (r: Result<Dict<string, Schema3>, string>)
    ensures r.Ok? <==> forall i :: 0 <= i < |types| ==> SchemaEntry(types[i], tt).Ok?
    ensures r.Ok? ==> DistinctKeys(r.value)
  {
    var entries :- MapResult(types, (t: NamedTypeDef) => SchemaEntry(t, tt));
    Ok(FromPairs(entries))
  }

  /** With distinct type names every type has its schema under its own name, in declaration order. */
  lemma ComponentSchemasInOrder(types: seq<NamedTypeDef>, tt: TypeTable)
    requires DistinctNames(types) && forall i :: 0 <= i < |types| ==> SchemaEntry(types[i], tt).Ok?
    ensures ComponentSchemas(types, tt).Ok?
    ensures Keys(ComponentSchemas(types, tt).value) == seq(|types|, i requires 0 <= i < |types| => types[i].name)
    ensures forall i :: 0 <= i < |types| ==> ComponentSchemas(types, tt).value[i].1 == SchemaEntry(types[i], tt).value.1
  {
    var m := MapResult(types, (t: NamedTypeDef) => SchemaEntry(t, tt));
    var entries := m.value;
    assert ComponentSchemas(types, tt).value == FromPairs(entries);
    forall i | 0 <= i < |types|
      ensures entries[i] == SchemaEntry(types[i], tt).value
    {
      assert SchemaEntry(types[i], tt) == Ok(entries[i]);
    }
    EntriesNamed(types, entries);
    FromPairsDistinct(entries);
  }

  /** `contractToComponentsObject`: absent for a contract without types and
      without security; otherwise schemas only when there are types. */
  function ComponentsOf(c: Contract, tt: TypeTable): (r: Result<Option<Components3>, string>)
    ensures |c.types| == 0 && c.security.None? ==> r == Ok(None)
    ensures r.Ok? && (|c.types| > 0 || c.security.Some?) ==> r.value.Some?
    ensures r.Ok? && r.value.Some? ==> (r.value.value.schemas.None? <==> |c.types| == 0)
    ensures r.Ok? && r.value.Some? && |c.types| > 0 ==>
      ComponentSchemas(c.types, tt).Ok? && r.value.value.schemas == Some(ComponentSchemas(c.types, tt).value)
    ensures r.Ok? && r.value.Some? ==> r.value.value.securitySchemes == SecuritySchemes(c.security)
    ensures r.Err? ==> |c.types| > 0 && ComponentSchemas(c.types, tt).Err?
  {
    if |c.types| == 0 && c.security.None? then Ok(None)
    else
      var schemas :- if |c.types| > 0 then
                       var s :- ComponentSchemas(c.types, tt);
                       Ok(Some(s))
                     else Ok(None);
      Ok(Some(Components3(schemas, SecuritySchemes(c.security))))
  }

  /** `generateOpenAPI3(contract)`: the paths are built before the components,
      so a failing endpoint is reported before a failing type. */
  function Generate(c: Contract): (r: Result<Document3, string>)
    ensures r.Ok? <==> PathsOf(c.endpoints, FromArray(c.types), c.config).Ok? && ComponentsOf(c, FromArray(c.types)).Ok?
    ensures PathsOf(c.endpoints, FromArray(c.types), c.config).Err? ==> r == Err(PathsOf(c.endpoints, FromArray(c.types), c.config).error)
    ensures r.Ok? ==> r.value.openapi == OpenApiVersion && r.value.info == InfoOf(c)
    ensures r.Ok? ==> r.value.paths == PathsOf(c.endpoints, FromArray(c.types), c.config).value
    ensures r.Ok? ==> r.value.components == ComponentsOf(c, FromArray(c.types)).value
    ensures r.Ok? ==> r.value.security == SecurityRequirement(c.security)
  {
    var tt := FromArray(c.types);
    var paths :- PathsOf(c.endpoints, tt, c.config);
    var components :- ComponentsOf(c, tt);
    Ok(Document3(OpenApiVersion, InfoOf(c), paths, components, SecurityRequirement(c.security)))
  }

  /** A contract with a security header declares the `SecurityHeader` scheme
      and requires it; one without declares and requires nothing. */
  lemma GeneratedSecurity(c: Contract)
    ensures Generate(c).Ok? && c.security.Some? ==>
      var doc := Generate(c).value;
      doc.components.Some? && doc.components.value.securitySchemes.Some?
      && Keys(doc.components.value.securitySchemes.value) == [SecuritySchemeName]
      && doc.security == Some([[(SecuritySchemeName, [])]])
    ensures Generate(c).Ok? && c.security.None? ==>
      var doc := Generate(c).value;
      doc.security.None? && (doc.components.None? || doc.components.value.securitySchemes.None?)
  {
  }
}
