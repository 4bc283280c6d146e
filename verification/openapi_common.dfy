/** The parts the OpenAPI 2 and OpenAPI 3 generators build the same way
    (lib/src/generators/openapi2/openapi2.js, lib/src/generators/openapi3/openapi3.js):
    the info object, the security header's scheme, the paths object that
    gathers endpoints under their rendered path, and the responses object keyed
    by status code. Both are generic in the operation and response objects of
    the dialect. */
module OpenApiCommon {
  import opened Util
  import opened Dicts
  import opened Contracts
  import opened Decimal
  import opened PathTemplates

  /** `SECURITY_HEADER_SCHEME_NAME` */
  const SecuritySchemeName := "SecurityHeader"
  const DefaultVersion := "0.0.0"
  const JsonMediaType := "application/json"
  const DefaultResponseKey := "default"

  /** The `in` of a non-body parameter. */
  datatype Location = InPath | InQuery | InHeader

  /** The info object. */
  datatype Info = Info(title: string, description: Option<string>, version: string)

  /** `info`: the contract's name and description, and its version or `0.0.0`. */
  function InfoOf(c: Contract): (i: Info)
    ensures i.title == c.name && i.description == c.description
    ensures c.version.Some? ==> i.version == c.version.value
    ensures c.version.None? ==> i.version == DefaultVersion
  {
    Info(c.name, c.description, c.version.GetOr(DefaultVersion))
  }

  /** A security scheme object of type `apiKey` read from a header. */
  datatype ApiKeyScheme = ApiKeyScheme(schemeType: string, location: string, name: string, description: Option<string>)

  /** The one security scheme, named `SecurityHeader`, present exactly when the
      contract declares a security header. */
  function SecuritySchemes(s: Option<SecurityHeader>): (r: Option<Dict<string, ApiKeyScheme>>)
    ensures r.Some? <==> s.Some?
    ensures r.Some? ==> r.value == [(SecuritySchemeName, ApiKeyScheme("apiKey", "header", s.value.name, s.value.description))]
  {
    match s
    case None => None
    case Some(h) => Some([(SecuritySchemeName, ApiKeyScheme("apiKey", "header", h.name, h.description))])
  }

  /** The document-level `security` requirement: the scheme with no scopes. */
  function SecurityRequirement(s: Option<SecurityHeader>): (r: Option<seq<Dict<string, seq<string>>>>)
    ensures r.Some? <==> s.Some?
    ensures r.Some? ==> |r.value| == 1 && r.value[0] == [(SecuritySchemeName, [])]
  {
    if s.Some? then Some([[(SecuritySchemeName, [])]]) else None
  }

  /** `tags.length > 0 ? tags : undefined` */
  function TagsField(tags: seq<string>): (r: Option<seq<string>>)
    ensures r.None? <==> |tags| == 0
    ensures r.Some? ==> r.value == tags
  {
    if |tags| > 0 then Some(tags) else None
  }

  /** `examples?.reduce(...)`: each example's value under its name; a repeated
      name keeps its first position and its last value. */
  function ExampleSet(examples: Option<seq<Example>>): (r: Option<Dict<string, string>>)
    ensures r.Some? <==> examples.Some?
    ensures r.Some? ==> DistinctKeys(r.value)
  {
    match examples
    case None => None
    case Some(es) => Some(FromPairs(seq(|es|, i requires 0 <= i < |es| => (es[i].name, es[i].value))))
  }

  /** An example set holds exactly the named examples, each with the value of
      the last example of that name. */
  lemma ExampleSetGet(examples: seq<Example>, name: string)
    ensures Has(ExampleSet(Some(examples)).value, name) <==> exists i :: 0 <= i < |examples| && examples[i].name == name
    ensures var r := Get(ExampleSet(Some(examples)).value, name);
      r.Some? ==> (exists i :: 0 <= i < |examples| && examples[i] == Example(name, r.value)
                              && forall j :: i < j < |examples| ==> examples[j].name != name)
  {
    var pairs := seq(|examples|, i requires 0 <= i < |examples| => (examples[i].name, examples[i].value));
    FromPairsGet(pairs, name);
    FromPairsHas(pairs, name);
    if Mentions(pairs, name) {
      LastValueIsLast(pairs, name);
      var v := LastValueOf(pairs, name).value;
      var i :| 0 <= i < |pairs| && pairs[i] == (name, v) && (forall j :: i < j < |pairs| ==> pairs[j].0 != name);
      assert examples[i] == Example(name, v);
      assert forall j :: i < j < |examples| ==> examples[j].name == pairs[j].0;
    }
    if exists i :: 0 <= i < |examples| && examples[i].name == name {
      var i :| 0 <= i < |examples| && examples[i].name == name;
      assert pairs[i].0 == name;
    }
  }

  /** The description of a response: its own, or `<status> response`, or
      `default response` for the default response. */
  function ResponseDescription(status: Option<int>, description: Option<string>): (r: string)
    ensures description.Some? ==> r == description.value
    ensures description.None? && status.Some? ==> r == DecimalString(status.value) + " response"
    ensures description.None? && status.None? ==> r == "default response"
  {
    match description
    case Some(d) => d
    case None => if status.Some? then DecimalString(status.value) + " response" else "default response"
  }

  /** `status.toString(10)` is never the key `default`. */
  lemma StatusKeyNotDefault(status: int)
    ensures DecimalString(status) != DefaultResponseKey
  {
    assert DefaultResponseKey[0] == 'd';
  }

  /** The specific responses keyed by their decimal status. */
  function KeyedByStatus<R>(specific: seq<(int, R)>): (r: seq<(string, R)>)
    ensures |r| == |specific|
    ensures forall i :: 0 <= i < |r| ==> r[i] == (DecimalString(specific[i].0), specific[i].1)
  {
    seq(|specific|, i requires 0 <= i < |specific| => (DecimalString(specific[i].0), specific[i].1))
  }

  /** `endpointResponsesToResponsesObject`: each response object under its
      status, then the default response under `default`. */
  function ResponsesObject<R>(specific: seq<(int, R)>, dflt: Option<R>): (d: Dict<string, R>)
  {
    var base := FromPairs(KeyedByStatus(specific));
    if dflt.Some? then Put(base, DefaultResponseKey, dflt.value) else base
  }

  /** Looking a status up in the responses object finds the last response given
      for that status; `default` finds the default response. */
  lemma ResponsesLookup<R>(specific: seq<(int, R)>, dflt: Option<R>, status: int)
    ensures Get(ResponsesObject(specific, dflt), DecimalString(status)) == LastValueOf(specific, status)
    ensures Get(ResponsesObject(specific, dflt), DefaultResponseKey) == dflt
  {
    var keyed := KeyedByStatus(specific);
    var base := FromPairs(keyed);
    StatusKeyNotDefault(status);
    KeyedLastValue(specific, status);
    FromPairsGet(keyed, DecimalString(status));
    FromPairsHas(keyed, DefaultResponseKey);
    if Mentions(keyed, DefaultResponseKey) {
      var i :| 0 <= i < |keyed| && keyed[i].0 == DefaultResponseKey;
      StatusKeyNotDefault(specific[i].0);
    }
    if dflt.Some? {
      PutGet(base, DefaultResponseKey, dflt.value, DecimalString(status));
      PutGet(base, DefaultResponseKey, dflt.value, DefaultResponseKey);
    }
  }

  /** Keying by the decimal status loses nothing: status strings are distinct. */
  lemma {:induction false} KeyedLastValue<R>(specific: seq<(int, R)>, status: int)
    ensures LastValueOf(KeyedByStatus(specific), DecimalString(status)) == LastValueOf(specific, status)
  {
    if |specific| > 0 {
      var init := specific[..|specific| - 1];
      var last := specific[|specific| - 1];
      KeyedLastValue(init, status);
      assert KeyedByStatus(specific)[..|specific| - 1] == KeyedByStatus(init);
      if DecimalString(last.0) == DecimalString(status) {
        DecimalStringInjective(last.0, status);
      }
    }
  }

  /** With distinct statuses the responses object lists the responses in
      contract order, then the default response. */
  lemma ResponsesInOrder<R>(specific: seq<(int, R)>, dflt: Option<R>)
    requires forall i, j :: 0 <= i < j < |specific| ==> specific[i].0 != specific[j].0
    ensures ResponsesObject(specific, dflt)
      == KeyedByStatus(specific) + (if dflt.Some? then [(DefaultResponseKey, dflt.value)] else [])
  {
    var keyed := KeyedByStatus(specific);
    assert DistinctKeys(keyed) by {
      forall i, j | 0 <= i < j < |keyed| ensures keyed[i].0 != keyed[j].0 {
        if keyed[i].0 == keyed[j].0 {
          DecimalStringInjective(specific[i].0, specific[j].0);
        }
      }
    }
    FromPairsDistinct(keyed);
    if dflt.Some? && Has(keyed, DefaultResponseKey) {
      var i :| 0 <= i < |keyed| && keyed[i].0 == DefaultResponseKey;
      StatusKeyNotDefault(specific[i].0);
    }
  }

  /** `(pathName, (pathItemMethod, operation))` for every endpoint and its operation. */
  function PathEntries<Op>(endpoints: seq<Endpoint>, ops: seq<Op>): (r: seq<(string, (string, Op))>)
    requires |ops| == |endpoints|
    ensures |r| == |endpoints|
    ensures forall i :: 0 <= i < |r| ==> r[i] == (RenderPath(endpoints[i].path), (endpoints[i].httpMethod.PathItemKey(), ops[i]))
  {
    seq(|endpoints|, i requires 0 <= i < |endpoints| => (RenderPath(endpoints[i].path), (endpoints[i].httpMethod.PathItemKey(), ops[i])))
  }

  /** `endpointsToPathsObject`, given the operation object of each endpoint. */
  function PathsObject<Op>(endpoints: seq<Endpoint>, ops: seq<Op>): (d: Dict<string, Dict<string, Op>>)
    requires |ops| == |endpoints|
  {
    Nest(PathEntries(endpoints, ops))
  }

  /** The endpoint is served at `path` under `m` in the paths object. */
  predicate Serves(e: Endpoint, path: string, m: HttpMethod) {
    RenderPath(e.path) == path && e.httpMethod == m
  }

  /** Endpoint `i` is the last one served at `path` under `m`. */
  predicate LastServing(endpoints: seq<Endpoint>, path: string, m: HttpMethod, i: int) {
    0 <= i < |endpoints| && Serves(endpoints[i], path, m) && forall j :: i < j < |endpoints| ==> !Serves(endpoints[j], path, m)
  }

  /** The operation a paths object holds for `path` and `m`. */
  function OperationAt<Op>(paths: Dict<string, Dict<string, Op>>, path: string, m: HttpMethod): Option<Op> {
    Get(Get(paths, path).GetOr([]), m.PathItemKey())
  }

  /** The paths object has one path item per rendered path, in order of first
      appearance; it holds the operation of the last endpoint with that path
      and method, and nothing where no endpoint has them. */
  lemma PathsLookup<Op>(endpoints: seq<Endpoint>, ops: seq<Op>, path: string, m: HttpMethod)
    requires |ops| == |endpoints|
    ensures Keys(PathsObject(endpoints, ops))
      == FirstOccurrences(seq(|endpoints|, i requires 0 <= i < |endpoints| => RenderPath(endpoints[i].path)))
    ensures Has(PathsObject(endpoints, ops), path) <==> exists i :: 0 <= i < |endpoints| && RenderPath(endpoints[i].path) == path
    ensures forall i :: LastServing(endpoints, path, m, i) ==> OperationAt(PathsObject(endpoints, ops), path, m) == Some(ops[i])
    ensures (forall i :: 0 <= i < |endpoints| ==> !Serves(endpoints[i], path, m)) ==> OperationAt(PathsObject(endpoints, ops), path, m).None?
  {
    var entries := PathEntries(endpoints, ops);
    NestSpec(entries, path);
    NestGet(entries, path, m.PathItemKey());
    assert Keys(entries) == seq(|endpoints|, i requires 0 <= i < |endpoints| => RenderPath(endpoints[i].path));
    if exists i :: 0 <= i < |endpoints| && RenderPath(endpoints[i].path) == path {
      var i :| 0 <= i < |endpoints| && RenderPath(endpoints[i].path) == path;
      assert entries[i].0 == path;
    }
    forall i | LastServing(endpoints, path, m, i)
      ensures OperationAt(PathsObject(endpoints, ops), path, m) == Some(ops[i])
    {
      LastServed(endpoints, ops, path, m, i);
    }
    var r := LastNestedValueOf(entries, path, m.PathItemKey());
    if r.Some? {
      var i :| 0 <= i < |entries| && entries[i] == (path, (m.PathItemKey(), r.value));
      PathItemKeyInjective(endpoints[i].httpMethod, m);
      assert Serves(endpoints[i], path, m);
    }
  }

  /** The last endpoint served at `path` under `m` decides the operation. */
  lemma LastServed<Op>(endpoints: seq<Endpoint>, ops: seq<Op>, path: string, m: HttpMethod, i: nat)
    requires |ops| == |endpoints| && LastServing(endpoints, path, m, i)
    ensures LastNestedValueOf(PathEntries(endpoints, ops), path, m.PathItemKey()) == Some(ops[i])
  {
    var entries := PathEntries(endpoints, ops);
    var key := m.PathItemKey();
    forall j | i < j < |entries| ensures !(entries[j].0 == path && entries[j].1.0 == key) {
      if entries[j].0 == path && entries[j].1.0 == key {
        PathItemKeyInjective(endpoints[j].httpMethod, m);
        assert Serves(endpoints[j], path, m);
      }
    }
    LastNestedAt(entries, path, key, i);
  }
}
