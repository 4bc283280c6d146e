/** The mock server's routing predicate (mock-server/matcher.js): does a request
    belong to an endpoint once the API's path prefix is removed? */
module MockMatcher {
  import opened Util
  import opened Text
  import opened Contracts
  import opened PathTemplates

  /** The parts of an incoming request the matcher reads. */
  datatype MockRequest = MockRequest(httpMethod: string, path: string)

  /** `isRequestForEndpoint(req, pathPrefix, endpoint)` */
  function IsRequestForEndpoint(req: MockRequest, pathPrefix: string, e: Endpoint): (r: bool)
    ensures r ==> StartsWith(req.path, pathPrefix)
    ensures r ==> ToUpper(req.httpMethod) == e.httpMethod.Name()
    ensures !StartsWith(req.path, pathPrefix) || ToUpper(req.httpMethod) != e.httpMethod.Name() ==> !r
  {
    if Prefix(req.path, |pathPrefix|) != pathPrefix then false
    else if ToUpper(req.httpMethod) != e.httpMethod.Name() then false
    else Matches(Compile(e.path, MockStyle), Substr(req.path, |pathPrefix|), MockStyle)
  }

  /** For an endpoint without dynamic components the request path must be the
      prefix followed by exactly the endpoint's path. */
  lemma StaticEndpointMatch(req: MockRequest, pathPrefix: string, e: Endpoint)
    requires IsStatic(e.path)
    ensures IsRequestForEndpoint(req, pathPrefix, e) <==>
      ToUpper(req.httpMethod) == e.httpMethod.Name() && req.path == pathPrefix + e.path
  {
    if StartsWith(req.path, pathPrefix) {
      StaticTemplateMatches(e.path, req.path[|pathPrefix|..], MockStyle);
      assert req.path == pathPrefix + req.path[|pathPrefix|..];
    }
    if req.path == pathPrefix + e.path {
      assert req.path[..|pathPrefix|] == pathPrefix;
      assert req.path[|pathPrefix|..] == e.path;
      StaticTemplateMatches(e.path, e.path, MockStyle);
    }
  }

  /** A dynamic component stands for one path component: a routed path has as
      many `/` after the prefix as the endpoint's template. */
  lemma RoutedPathComponents(req: MockRequest, pathPrefix: string, e: Endpoint)
    requires IsRequestForEndpoint(req, pathPrefix, e)
    ensures Slashes(req.path[|pathPrefix|..]) == Slashes(e.path)
  {
    ConfinedMatchComponents(e.path, req.path[|pathPrefix|..], MockStyle);
  }
}
