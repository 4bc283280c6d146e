/** The contract a Spot file describes (lib/src/definitions.d.ts): endpoints
    with their requests and responses, the query serialisation configuration,
    the declared types and the optional security header. The parsers produce
    it; the generators, the verifier, the mock matcher and the lint rules
    consume it. */
module Contracts {
  import opened Util
  import opened Text
  import opened Types

  /** `HttpMethod` */
  datatype HttpMethod = GET | POST | PUT | PATCH | DELETE {
    /** The method as written in a contract (and as `toUpperCase` yields it). */
    function Name(): string {
      match this
      case GET => "GET"
      case POST => "POST"
      case PUT => "PUT"
      case PATCH => "PATCH"
      case DELETE => "DELETE"
    }

    /** `httpMethodToPathItemMethod`: the key of the operation in a path item. */
    function PathItemKey(): (k: string)
      ensures k == ToLower(Name())
    {
      match this
      case GET => "get"
      case POST => "post"
      case PUT => "put"
      case PATCH => "patch"
      case DELETE => "delete"
    }
  }

  /** `isHttpMethod` together with the narrowing it licenses. */
  function ParseHttpMethod(s: string): (r: Option<HttpMethod>)
    ensures r.Some? ==> r.value.Name() == s
  {
    if s == "GET" then Some(GET)
    else if s == "POST" then Some(POST)
    else if s == "PUT" then Some(PUT)
    else if s == "PATCH" then Some(PATCH)
    else if s == "DELETE" then Some(DELETE)
    else None
  }

  /** Every method name is recognised, and nothing else is. */
  lemma ParseHttpMethodName(m: HttpMethod, s: string)
    ensures ParseHttpMethod(m.Name()) == Some(m)
    ensures ParseHttpMethod(s).Some? <==> s in {"GET", "POST", "PUT", "PATCH", "DELETE"}
  {
  }

  /** Path item keys of distinct methods are distinct. */
  lemma PathItemKeyInjective(a: HttpMethod, b: HttpMethod)
    requires a.PathItemKey() == b.PathItemKey()
    ensures a == b
  {
  }

  /** `QueryParamArrayStrategy`: `?id=3&id=4` or `?id=3,4`. */
  datatype ArrayStrategy = Ampersand | Comma

  /** `Config` */
  datatype Config = Config(queryArray: ArrayStrategy)

  /** `Example`; the value is kept as its JSON text. */
  datatype Example = Example(name: string, value: string)

  /** `Header` */
  datatype Header = Header(name: string, description: Option<string>, headerType: Type, optional: bool,
                           examples: Option<seq<Example>>)

  /** `PathParam` */
  datatype PathParam = PathParam(name: string, description: Option<string>, paramType: Type,
                                 examples: Option<seq<Example>>)

  /** `QueryParam` */
  datatype QueryParam = QueryParam(name: string, description: Option<string>, paramType: Type, optional: bool,
                                   examples: Option<seq<Example>>)

  /** `Body` */
  datatype Body = Body(bodyType: Type)

  /** `Request` */
  datatype Request = Request(headers: seq<Header>, pathParams: seq<PathParam>, queryParams: seq<QueryParam>,
                             body: Option<Body>)

  /** `Response`: the response for one status code. */
  datatype Response = Response(status: int, description: Option<string>, headers: seq<Header>, body: Option<Body>)

  /** `DefaultResponse`: the response for every status without a response of its own. */
  datatype DefaultResponse = DefaultResponse(description: Option<string>, headers: seq<Header>, body: Option<Body>)

  /** `Endpoint` */
  datatype Endpoint = Endpoint(name: string, description: Option<string>, tags: seq<string>,
                               httpMethod: HttpMethod, path: string, request: Option<Request>,
                               responses: seq<Response>, defaultResponse: Option<DefaultResponse>, draft: bool)

  /** `SecurityHeader` */
  datatype SecurityHeader = SecurityHeader(name: string, description: Option<string>, headerType: Type)

  /** `Contract` */
  datatype Contract = Contract(name: string, description: Option<string>, version: Option<string>,
                               config: Config, types: seq<NamedTypeDef>, security: Option<SecurityHeader>,
                               endpoints: seq<Endpoint>)

  /** `request?.pathParams ?? []` and friends. */
  function PathParamsOf(e: Endpoint): seq<PathParam> {
    if e.request.Some? then e.request.value.pathParams else []
  }

  function QueryParamsOf(e: Endpoint): seq<QueryParam> {
    if e.request.Some? then e.request.value.queryParams else []
  }

  function RequestHeadersOf(e: Endpoint): seq<Header> {
    if e.request.Some? then e.request.value.headers else []
  }

  function RequestBodyOf(e: Endpoint): Option<Body> {
    if e.request.Some? then e.request.value.body else None
  }
}
