/** The OpenAPI 2 document generator (lib/src/generators/openapi2/openapi2.js):
    `generateOpenAPI2(contract)`. Schemas come from the OpenAPI 2 schema
    emitter, non-body parameters and response headers from the parameter
    emitter; whatever they throw, the generator throws. */
module OpenApi2Documents {
  import opened Util
  import opened Dicts
  import opened Types
  import opened Contracts
  import opened OpenApi2Schemas
  import opened OpenApi2Parameters
  import opened OpenApiCommon

  const SwaggerVersion := "2.0"
  const BodyParameterName := "Body"

  /** A parameter object: a path, query or header parameter, or the body. */
  datatype Parameter2 =
    | NonBody(param: ParameterObject)
    | BodyParameter(name: string, required: bool, schema: Schema2)

  /** A response object. */
  datatype Response2 = Response2(description: string, headers: Option<Dict<string, HeaderObject>>, schema: Option<Schema2>)

  /** An operation object. */
  datatype Operation2 = Operation2(tags: Option<seq<string>>, description: Option<string>, operationId: string,
                                   parameters: Option<seq<Parameter2>>, responses: Dict<string, Response2>)

  /** The OpenAPI 2 document. */
  datatype Document2 = Document2(swagger: string, info: Info, consumes: seq<string>, produces: seq<string>,
                                 paths: Dict<string, Dict<string, Operation2>>,
                                 definitions: Option<Dict<string, Schema2>>,
                                 securityDefinitions: Option<Dict<string, ApiKeyScheme>>,
                                 security: Option<seq<Dict<string, seq<string>>>>)

  /** The body parameter: named `Body`, always required. */
  function BodyParameterOf(body: Body): (r: Result<Parameter2, string>)
    ensures r.Ok? <==> ToSchema(body.bodyType, false).Ok?
    ensures r.Ok? ==> r.value == BodyParameter(BodyParameterName, true, ToSchema(body.bodyType, false).value)
  {
    var schema :- ToSchema(body.bodyType, false);
    Ok(BodyParameter(BodyParameterName, true, schema))
  }

  /** The path, query and header parameters, in that order. */
  function NonBodyParameters(req: Request, tt: TypeTable, config: Config): (r: Result<seq<ParameterObject>, string>)
    ensures r.Ok? ==> |r.value| == |req.pathParams| + |req.queryParams| + |req.headers|
    ensures r.Ok? ==> forall i :: 0 <= i < |req.pathParams| ==>
      PathParameterObject(req.pathParams[i], tt) == Ok(r.value[i])
    ensures r.Ok? ==> forall i :: 0 <= i < |req.queryParams| ==>
      QueryParameterObject(req.queryParams[i], tt, config) == Ok(r.value[|req.pathParams| + i])
    ensures r.Ok? ==> forall i :: 0 <= i < |req.headers| ==>
      HeaderParameterObject(req.headers[i], tt) == Ok(r.value[|req.pathParams| + |req.queryParams| + i])
    ensures r.Ok? <==> (forall i :: 0 <= i < |req.pathParams| ==> PathParameterObject(req.pathParams[i], tt).Ok?)
                       && (forall i :: 0 <= i < |req.queryParams| ==> QueryParameterObject(req.queryParams[i], tt, config).Ok?)
                       && (forall i :: 0 <= i < |req.headers| ==> HeaderParameterObject(req.headers[i], tt).Ok?)
  {
    var path :- MapResult(req.pathParams, (p: PathParam) => PathParameterObject(p, tt));
    var rest :- QueryAndHeaderParameters(req, tt, config);
    ConcatIndices(path, rest);
    Ok(path + rest)
  }

  /** The query parameters, then the headers. */
  function QueryAndHeaderParameters(req: Request, tt: TypeTable, config: Config): (r: Result<seq<ParameterObject>, string>)
    ensures r.Ok? ==> |r.value| == |req.queryParams| + |req.headers|
    ensures r.Ok? ==> forall i :: 0 <= i < |req.queryParams| ==>
      QueryParameterObject(req.queryParams[i], tt, config) == Ok(r.value[i])
    ensures r.Ok? ==> forall i :: 0 <= i < |req.headers| ==>
      HeaderParameterObject(req.headers[i], tt) == Ok(r.value[|req.queryParams| + i])
    ensures r.Ok? <==> (forall i :: 0 <= i < |req.queryParams| ==> QueryParameterObject(req.queryParams[i], tt, config).Ok?)
                       && (forall i :: 0 <= i < |req.headers| ==> HeaderParameterObject(req.headers[i], tt).Ok?)
  {
    var query :- MapResult(req.queryParams, (q: QueryParam) => QueryParameterObject(q, tt, config));
    var header :- MapResult(req.headers, (h: Header) => HeaderParameterObject(h, tt));
    ConcatIndices(query, header);
    Ok(query + header)
  }

  /** `endpointRequestToParameterObjects`: path parameters, query parameters
      and headers, then the body parameter when there is a body. */
  function ParameterObjects(req: Request, tt: TypeTable, config: Config): (r: Result<seq<Parameter2>, string>)
    ensures r.Ok? <==> NonBodyParameters(req, tt, config).Ok? && (req.body.Some? ==> BodyParameterOf(req.body.value).Ok?)
    ensures r.Ok? ==> var nb := NonBodyParameters(req, tt, config).value;
      |r.value| == |nb| + (if req.body.Some? then 1 else 0)
      && (forall i :: 0 <= i < |nb| ==> r.value[i] == NonBody(nb[i]))
      && (req.body.Some? ==> BodyParameterOf(req.body.value) == Ok(r.value[|r.value| - 1]))
  {
    var nonBody :- NonBodyParameters(req, tt, config);
    var body :- if req.body.Some? then
                  var b :- BodyParameterOf(req.body.value);
                  Ok([b])
                else Ok([]);
    Ok(seq(|nonBody|, i requires 0 <= i < |nonBody| => NonBody(nonBody[i])) + body)
  }

  /** At most one parameter is the body, and it comes last; the others are
      grouped by location: path, query, header. */
  lemma ParametersGrouped(req: Request, tt: TypeTable, config: Config)
    requires ParameterObjects(req, tt, config).Ok?
    ensures var ps := ParameterObjects(req, tt, config).value;
      forall i :: 0 <= i < |ps| ==> (ps[i].BodyParameter? <==> req.body.Some? && i == |ps| - 1)
    ensures var ps := ParameterObjects(req, tt, config).value;
      forall i :: 0 <= i < |ps| && ps[i].NonBody? ==>
        ps[i].param.location == (if i < |req.pathParams| then InPath
                                 else if i < |req.pathParams| + |req.queryParams| then InQuery
                                 else InHeader)
  {
    var ps := ParameterObjects(req, tt, config).value;
    var nb := NonBodyParameters(req, tt, config).value;
    var np, nq := |req.pathParams|, |req.queryParams|;
    forall i | 0 <= i < |ps|
      ensures ps[i].BodyParameter? <==> req.body.Some? && i == |ps| - 1
      ensures ps[i].NonBody? ==> i < |nb| && ps[i].param == nb[i]
    {
      if i < |nb| {
        assert ps[i] == NonBody(nb[i]);
      } else {
        assert BodyParameterOf(req.body.value) == Ok(ps[i]);
      }
    }
    forall i | 0 <= i < |nb|
      ensures nb[i].location == (if i < np then InPath else if i < np + nq then InQuery else InHeader)
    {
      if i < np {
        assert PathParameterObject(req.pathParams[i], tt) == Ok(nb[i]);
      } else if i < np + nq {
        var j := i - np;
        assert np + j == i;
        assert QueryParameterObject(req.queryParams[j], tt, config) == Ok(nb[np + j]);
      } else {
        var j := i - np - nq;
        assert np + nq + j == i;
        assert HeaderParameterObject(req.headers[j], tt) == Ok(nb[np + nq + j]);
      }
    }
  }

  /** A response header under its name. */
  function HeaderEntry(h: Header, tt: TypeTable): (r: Result<(string, HeaderObject), string>)
    ensures r.Ok? <==> ResponseHeaderObject(h, tt).Ok?
    ensures r.Ok? ==> r.value == (h.name, ResponseHeaderObject(h, tt).value)
  {
    var o :- ResponseHeaderObject(h, tt);
    Ok((h.name, o))
  }

  /** The response's `schema`: present exactly when the response has a body. */
  function SchemaOf(body: Option<Body>): (r: Result<Option<Schema2>, string>)
    ensures body.None? ==> r == Ok(None)
    ensures body.Some? ==> (r.Ok? <==> ToSchema(body.value.bodyType, false).Ok?)
    ensures body.Some? && r.Ok? ==> r.value == Some(ToSchema(body.value.bodyType, false).value)
  {
    match body
    case None => Ok(None)
    case Some(b) =>
      var schema :- ToSchema(b.bodyType, false);
      Ok(Some(schema))
  }

  /** `endpointResponseToResponseObject`; `status` is absent for the default response. */
  function ResponseObject(status: Option<int>, description: Option<string>, headers: seq<Header>, body: Option<Body>,
                          tt: TypeTable): (r: Result<Response2, string>)
    ensures r.Ok? ==> r.value.description == ResponseDescription(status, description)
    ensures r.Ok? ==> (r.value.headers.None? <==> |headers| == 0)
    ensures r.Ok? ==> (r.value.schema.None? <==> body.None?)
    ensures r.Ok? <==> (forall i :: 0 <= i < |headers| ==> ResponseHeaderObject(headers[i], tt).Ok?) && SchemaOf(body).Ok?
  {
    var hs :- if |headers| > 0 then
                var entries :- MapResult(headers, (h: Header) => HeaderEntry(h, tt));
                Ok(Some(FromPairs(entries)))
              else Ok(None);
    var schema :- SchemaOf(body);
    Ok(Response2(ResponseDescription(status, description), hs, schema))
  }

  /** A specific response under its status. */
  function SpecificEntry(resp: Response, tt: TypeTable): (r: Result<(int, Response2), string>)
    ensures r.Ok? <==> ResponseObject(Some(resp.status), resp.description, resp.headers, resp.body, tt).Ok?
    ensures r.Ok? ==> r.value == (resp.status, ResponseObject(Some(resp.status), resp.description, resp.headers, resp.body, tt).value)
  {
    var o :- ResponseObject(Some(resp.status), resp.description, resp.headers, resp.body, tt);
    Ok((resp.status, o))
  }

  /** The default response object, when there is a default response. */
  function DefaultObject(d: Option<DefaultResponse>, tt: TypeTable): (r: Result<Option<Response2>, string>)
    ensures d.None? ==> r == Ok(None)
    ensures d.Some? ==> (r.Ok? <==> ResponseObject(None, d.value.description, d.value.headers, d.value.body, tt).Ok?)
    ensures d.Some? && r.Ok? ==> r.value == Some(ResponseObject(None, d.value.description, d.value.headers, d.value.body, tt).value)
  {
    match d
    case None => Ok(None)
    case Some(dr) =>
      var o :- ResponseObject(None, dr.description, dr.headers, dr.body, tt);
      Ok(Some(o))
  }

  /** `endpointResponsesToResponsesObject`: the specific responses first, then the default one. */
  function ResponsesOf(e: Endpoint, tt: TypeTable): (r: Result<Dict<string, Response2>, string>)
    ensures r.Ok? <==> (forall i :: 0 <= i < |e.responses| ==> SpecificEntry(e.responses[i], tt).Ok?)
                       && DefaultObject(e.defaultResponse, tt).Ok?
  {
    var specific :- MapResult(e.responses, (resp: Response) => SpecificEntry(resp, tt));
    var dflt :- DefaultObject(e.defaultResponse, tt);
    Ok(ResponsesObject(specific, dflt))
  }

  /** Each status finds the response object of the last response with that
      status, and `default` finds the default response's object. */
  lemma ResponsesOfLookup(e: Endpoint, tt: TypeTable, i: nat)
    requires forall k :: 0 <= k < |e.responses| ==> SpecificEntry(e.responses[k], tt).Ok?
    requires DefaultObject(e.defaultResponse, tt).Ok?
    requires i < |e.responses|
    requires forall j :: i < j < |e.responses| ==> e.responses[j].status != e.responses[i].status
    ensures ResponsesOf(e, tt).Ok?
    ensures var resp := e.responses[i];
      Get(ResponsesOf(e, tt).value, Decimal.DecimalString(resp.status))
        == Some(ResponseObject(Some(resp.status), resp.description, resp.headers, resp.body, tt).value)
    ensures Get(ResponsesOf(e, tt).value, DefaultResponseKey) == DefaultObject(e.defaultResponse, tt).value
  {
    var specific := MapResult(e.responses, (resp: Response) => SpecificEntry(resp, tt)).value;
    var dflt := DefaultObject(e.defaultResponse, tt).value;
    var resp := e.responses[i];
    assert forall j :: 0 <= j < |specific| ==> specific[j].0 == e.responses[j].status;
    ResponsesLookup(specific, dflt, resp.status);
    LastValueAt(specific, resp.status, i);
  }

  /** `endpointToOperationObject` */
  function OperationOf(e: Endpoint, tt: TypeTable, config: Config): (r: Result<Operation2, string>)
    ensures r.Ok? ==> r.value.operationId == e.name && r.value.description == e.description
    ensures r.Ok? ==> r.value.tags == TagsField(e.tags)
    ensures r.Ok? ==> (r.value.parameters.Some? <==> e.request.Some?)
    ensures r.Ok? && e.request.Some? ==>
      ParameterObjects(e.request.value, tt, config).Ok? && r.value.parameters == Some(ParameterObjects(e.request.value, tt, config).value)
    ensures r.Ok? ==> ResponsesOf(e, tt).Ok? && r.value.responses == ResponsesOf(e, tt).value
    ensures r.Ok? <==> (e.request.Some? ==> ParameterObjects(e.request.value, tt, config).Ok?) && ResponsesOf(e, tt).Ok?
  {
    var parameters :- if e.request.Some? then
                        var ps :- ParameterObjects(e.request.value, tt, config);
                        Ok(Some(ps))
                      else Ok(None);
    var responses :- ResponsesOf(e, tt);
    Ok(Operation2(TagsField(e.tags), e.description, e.name, parameters, responses))
  }

  /** `endpointsToPathsObject` */
  function PathsOf(endpoints: seq<Endpoint>, tt: TypeTable, config: Config): (r: Result<Dict<string, Dict<string, Operation2>>, string>)
    ensures r.Ok? <==> forall i :: 0 <= i < |endpoints| ==> OperationOf(endpoints[i], tt, config).Ok?
  {
    var ops :- MapResult(endpoints, (e: Endpoint) => OperationOf(e, tt, config));
    Ok(PathsObject(endpoints, ops))
  }

  /** Each endpoint's operation is found under its rendered path and its
      method, unless a later endpoint claims the same pair. */
  lemma PathsOfLookup(endpoints: seq<Endpoint>, tt: TypeTable, config: Config, path: string, m: HttpMethod, i: nat)
    requires forall k :: 0 <= k < |endpoints| ==> OperationOf(endpoints[k], tt, config).Ok?
    requires LastServing(endpoints, path, m, i)
    ensures PathsOf(endpoints, tt, config).Ok?
    ensures OperationAt(PathsOf(endpoints, tt, config).value, path, m) == Some(OperationOf(endpoints[i], tt, config).value)
    ensures OperationAt(PathsOf(endpoints, tt, config).value, path, m).value.operationId == endpoints[i].name
  {
    var ops := MapResult(endpoints, (e: Endpoint) => OperationOf(e, tt, config)).value;
    PathsLookup(endpoints, ops, path, m);
  }

  /** A named type's definition, described by the type's description unless it is a reference. */
  function DefinitionEntry(t: NamedTypeDef): (r: Result<(string, Schema2), string>)
    ensures r.Ok? <==> ToSchema(t.typeDef.definition, false).Ok?
    ensures r.Ok? ==> r.value.0 == t.name
    ensures r.Ok? ==> r.value.1 == WithDescription(ToSchema(t.typeDef.definition, false).value, t.typeDef.description)
  {
    var schema :- ToSchema(t.typeDef.definition, false);
    Ok((t.name, WithDescription(schema, t.typeDef.description)))
  }

  /** `contractTypesToDefinitionsObject`: absent for a contract without types. */
  function DefinitionsOf(types: seq<NamedTypeDef>): (r: Result<Option<Dict<string, Schema2>>, string>)
    ensures |types| == 0 ==> r == Ok(None)
    ensures r.Ok? && |types| > 0 ==> r.value.Some? && DistinctKeys(r.value.value)
    ensures r.Ok? <==> forall i :: 0 <= i < |types| ==> DefinitionEntry(types[i]).Ok?
  {
    if |types| == 0 then Ok(None)
    else
      var entries :- MapResult(types, (t: NamedTypeDef) => DefinitionEntry(t));
      Ok(Some(FromPairs(entries)))
  }

  /** With distinct type names every type has its definition under its own
      name, in declaration order. */
  lemma DefinitionsInOrder(types: seq<NamedTypeDef>)
    requires DistinctNames(types) && |types| > 0 && DefinitionsOf(types).Ok?
    ensures Keys(DefinitionsOf(types).value.value) == seq(|types|, i requires 0 <= i < |types| => types[i].name)
    ensures forall i :: 0 <= i < |types| ==> DefinitionsOf(types).value.value[i].1 == DefinitionEntry(types[i]).value.1
  {
    var m := MapResult(types, (t: NamedTypeDef) => DefinitionEntry(t));
    var entries := m.value;
    assert DefinitionsOf(types).value.value == FromPairs(entries);
    forall i | 0 <= i < |types|
      ensures entries[i] == DefinitionEntry(types[i]).value
    {
      assert DefinitionEntry(types[i]) == Ok(entries[i]);
    }
    EntriesNamed(types, entries);
    FromPairsDistinct(entries);
  }

  /** `generateOpenAPI2(contract)`: the paths are built before the
      definitions, so a failing endpoint is reported before a failing type. */
  function Generate(c: Contract): (r: Result<Document2, string>)
    ensures r.Ok? <==> PathsOf(c.endpoints, FromArray(c.types), c.config).Ok? && DefinitionsOf(c.types).Ok?
    ensures PathsOf(c.endpoints, FromArray(c.types), c.config).Err? ==> r == Err(PathsOf(c.endpoints, FromArray(c.types), c.config).error)
    ensures r.Ok? ==> r.value.swagger == SwaggerVersion && r.value.info == InfoOf(c)
    ensures r.Ok? ==> r.value.consumes == [JsonMediaType] && r.value.produces == [JsonMediaType]
    ensures r.Ok? ==> r.value.paths == PathsOf(c.endpoints, FromArray(c.types), c.config).value
    ensures r.Ok? ==> r.value.definitions == DefinitionsOf(c.types).value
    ensures r.Ok? ==> r.value.securityDefinitions == SecuritySchemes(c.security)
    ensures r.Ok? ==> r.value.security == SecurityRequirement(c.security)
  {
    var tt := FromArray(c.types);
    var paths :- PathsOf(c.endpoints, tt, c.config);
    var definitions :- DefinitionsOf(c.types);
    Ok(Document2(SwaggerVersion, InfoOf(c), [JsonMediaType], [JsonMediaType], paths, definitions,
                 SecuritySchemes(c.security), SecurityRequirement(c.security)))
  }
}
