/** Two lint rules over a contract (linting/rules/has-request-payload.js,
    linting/rules/has-query-parameters.js): request bodies and query
    parameters must suit the endpoint's HTTP method. Each rule reports at most
    one violation per endpoint, in endpoint order. */
module LintRules {
  import opened Util
  import opened Contracts

  /** A lint finding. */
  datatype LintViolation = LintViolation(message: string)

  const MustNotContainBody := " must not contain a request body"
  const MustContainBody := " must contain a request body"
  const MustNotContainQuery := " must not contain query parameters"

  function Subject(e: Endpoint): string {
    "Endpoint (" + e.name + ") with HTTP method " + e.httpMethod.Name()
  }

  /** The payload rule for one endpoint. */
  function PayloadFinding(e: Endpoint): (r: Option<LintViolation>)
    ensures e.httpMethod == GET ==> (r.Some? <==> RequestBodyOf(e).Some?)
    ensures e.httpMethod in {POST, PATCH, PUT} ==> (r.Some? <==> RequestBodyOf(e).None?)
    ensures e.httpMethod == DELETE ==> r.None?
    ensures r.Some? && e.httpMethod == GET ==> r.value.message == Subject(e) + MustNotContainBody
    ensures r.Some? && e.httpMethod != GET ==> r.value.message == Subject(e) + MustContainBody
  {
    match e.httpMethod
    case GET => if RequestBodyOf(e).Some? then Some(LintViolation(Subject(e) + MustNotContainBody)) else None
    case POST | PATCH | PUT => if RequestBodyOf(e).None? then Some(LintViolation(Subject(e) + MustContainBody)) else None
    case DELETE => None
  }

  /** The query rule for one endpoint. */
  function QueryFinding(e: Endpoint): (r: Option<LintViolation>)
    ensures r.Some? <==> e.httpMethod in {POST, PATCH, PUT} && e.request.Some? && |e.request.value.queryParams| > 0
    ensures r.Some? ==> r.value.message == Subject(e) + MustNotContainQuery
  {
    match e.httpMethod
    case GET | DELETE => None
    case POST | PATCH | PUT =>
      if e.request.Some? && |e.request.value.queryParams| > 0 then Some(LintViolation(Subject(e) + MustNotContainQuery))
      else None
  }

  /** A finding as the zero or one violations it pushes. */
  function AsSeq(f: Option<LintViolation>): (s: seq<LintViolation>)
    ensures |s| <= 1 && (|s| == 0 <==> f.None?)
  {
    if f.Some? then [f.value] else []
  }

  /** `hasRequestPayload(contract)` */
  function HasRequestPayload(endpoints: seq<Endpoint>): (vs: seq<LintViolation>)
    ensures |vs| <= |endpoints|
  {
    if |endpoints| == 0 then []
    else
      var rest := HasRequestPayload(endpoints[1..]);
      AsSeq(PayloadFinding(endpoints[0])) + rest
  }

  /** `hasQueryParameters(contract)` */
  function HasQueryParameters(endpoints: seq<Endpoint>): (vs: seq<LintViolation>)
    ensures |vs| <= |endpoints|
  {
    if |endpoints| == 0 then []
    else
      var rest := HasQueryParameters(endpoints[1..]);
      AsSeq(QueryFinding(endpoints[0])) + rest
  }

  /** The findings of a single endpoint. */
  lemma SingleEndpoint(e: Endpoint)
    ensures HasRequestPayload([e]) == AsSeq(PayloadFinding(e))
    ensures HasQueryParameters([e]) == AsSeq(QueryFinding(e))
  {
    assert [e][1..] == [];
  }

  /** Both rules go endpoint by endpoint: the findings of a concatenation are
      the concatenated findings. */
  lemma {:induction false} PayloadAppend(a: seq<Endpoint>, b: seq<Endpoint>)
    ensures HasRequestPayload(a + b) == HasRequestPayload(a) + HasRequestPayload(b)
  {
    if |a| == 0 {
      assert a + b == b;
    } else {
      assert (a + b)[0] == a[0] && (a + b)[1..] == a[1..] + b;
      PayloadAppend(a[1..], b);
      var head := AsSeq(PayloadFinding(a[0]));
      assert HasRequestPayload(a + b) == head + HasRequestPayload(a[1..] + b);
      assert HasRequestPayload(a) == head + HasRequestPayload(a[1..]);
    }
  }

  lemma {:induction false} QueryAppend(a: seq<Endpoint>, b: seq<Endpoint>)
    ensures HasQueryParameters(a + b) == HasQueryParameters(a) + HasQueryParameters(b)
  {
    if |a| == 0 {
      assert a + b == b;
    } else {
      assert (a + b)[0] == a[0] && (a + b)[1..] == a[1..] + b;
      QueryAppend(a[1..], b);
      var head := AsSeq(QueryFinding(a[0]));
      assert HasQueryParameters(a + b) == head + HasQueryParameters(a[1..] + b);
      assert HasQueryParameters(a) == head + HasQueryParameters(a[1..]);
    }
  }

  /** A contract passes the payload rule exactly when every endpoint does. */
  lemma {:induction false} PayloadClean(endpoints: seq<Endpoint>)
    ensures HasRequestPayload(endpoints) == [] <==> forall i :: 0 <= i < |endpoints| ==> PayloadFinding(endpoints[i]).None?
  {
    if |endpoints| > 0 {
      PayloadClean(endpoints[1..]);
      assert forall i :: 1 <= i < |endpoints| ==> endpoints[i] == endpoints[1..][i - 1];
    }
  }

  /** A contract passes the query rule exactly when every endpoint does. */
  lemma {:induction false} QueryClean(endpoints: seq<Endpoint>)
    ensures HasQueryParameters(endpoints) == [] <==> forall i :: 0 <= i < |endpoints| ==> QueryFinding(endpoints[i]).None?
  {
    if |endpoints| > 0 {
      QueryClean(endpoints[1..]);
      assert forall i :: 1 <= i < |endpoints| ==> endpoints[i] == endpoints[1..][i - 1];
    }
  }

  /** GET and DELETE endpoints never have query findings; DELETE endpoints never have payload findings. */
  lemma {:induction false} ExemptMethods(endpoints: seq<Endpoint>)
    requires forall i :: 0 <= i < |endpoints| ==> endpoints[i].httpMethod in {GET, DELETE}
    ensures HasQueryParameters(endpoints) == []
    ensures (forall i :: 0 <= i < |endpoints| ==> endpoints[i].httpMethod == DELETE) ==> HasRequestPayload(endpoints) == []
  {
    if |endpoints| > 0 {
      ExemptMethods(endpoints[1..]);
    }
  }
}
