/** The consistency checks the endpoint parser applies to the values it has
    extracted from an `@endpoint` class (lib/src/parsers/endpoint-parser.js):
    the HTTP method, the tags, the path's dynamic components, the path
    parameters that must name them, and the response statuses. The values
    themselves (decorator arguments, the parsed request and responses) come
    from the TypeScript syntax tree and are inputs here. */
module EndpointParser {
  import opened Util
  import opened Text
  import opened SeqSets
  import opened Sorting
  import opened Decimal
  import opened PathTemplates
  import opened Contracts
  import ContractMismatcher

  /* ----- method ----- */

  /** The method check of `parseEndpoint`: anything but the five method names throws. */
  function ParseMethod(text: string): (r: Result<HttpMethod, string>)
    ensures r.Ok? <==> text in {"GET", "POST", "PUT", "PATCH", "DELETE"}
    ensures r.Ok? ==> r.value.Name() == text
    ensures r.Err? ==> r.error == "expected a HttpMethod, got " + text
  {
    ParseHttpMethodName(GET, text);
    match ParseHttpMethod(text)
    case Some(m) => Ok(m)
    case None => Err("expected a HttpMethod, got " + text)
  }

  /* ----- tags ----- */

  /** An element of the `tags` array literal. */
  datatype TagElement = StringLiteral(text: string) | NonStringElement

  const TagNotString := "endpoint tag must be a string"
  const TagBlank := "endpoint tag cannot be blank"
  const TagCharacters := "endpoint tag may only contain alphanumeric, space, underscore and hyphen characters"
  const DuplicateTags := "endpoint tags may not contain duplicates: "

  /** `[\w\s-]` */
  predicate TagChar(c: char) {
    IsWordChar(c) || IsSpace(c) || c == '-'
  }

  /** A tag the parser accepts: non-blank and made of tag characters. */
  predicate ValidTag(tag: string) {
    |tag| > 0 && forall i :: 0 <= i < |tag| ==> TagChar(tag[i])
  }

  /** One element of the tags array: a string literal, trimmed, non-blank and
      made of tag characters. */
  function TagOf(element: TagElement): (r: Result<string, string>)
    ensures r.Ok? <==> element.StringLiteral? && ValidTag(Trim(element.text))
    ensures r.Ok? ==> r.value == Trim(element.text)
    ensures element.NonStringElement? ==> r == Err(TagNotString)
    ensures element.StringLiteral? && |Trim(element.text)| == 0 ==> r == Err(TagBlank)
    ensures element.StringLiteral? && |Trim(element.text)| > 0 && !ValidTag(Trim(element.text)) ==> r == Err(TagCharacters)
  {
    match element
    case NonStringElement => Err(TagNotString)
    case StringLiteral(text) =>
      var tag := Trim(text);
      if |tag| == 0 then Err(TagBlank)
      else if !(forall i :: 0 <= i < |tag| ==> TagChar(tag[i])) then Err(TagCharacters)
      else Ok(tag)
  }

  /** JavaScript's `<` on strings as a sort order. */
  function StringLess(): (string, string) -> bool {
    (a: string, b: string) => Less(a, b)
  }

  /** `extractEndpointTags`: no `tags` property gives no tags; otherwise the
      first bad element is reported, then any repeated tag, and the tags are
      returned sorted ascending. */
  function ExtractTags(tagsProp: Option<seq<TagElement>>): (r: Result<seq<string>, string>)
    ensures tagsProp.None? ==> r == Ok([])
    ensures tagsProp.Some? ==> var elements := tagsProp.value;
      (r.Ok? <==> (forall i :: 0 <= i < |elements| ==> TagOf(elements[i]).Ok?)
                  && NoDuplicates(MapResult(elements, TagOf).value))
    ensures tagsProp.Some? && MapResult(tagsProp.value, TagOf).Err? ==> r == Err(MapResult(tagsProp.value, TagOf).error)
    ensures tagsProp.Some? && MapResult(tagsProp.value, TagOf).Ok? && r.Err? ==>
      r.error == DuplicateTags + JoinWith(Repeated(MapResult(tagsProp.value, TagOf).value), ", ")
    ensures tagsProp.Some? && r.Ok? ==>
      Ascending(r.value, StringLess()) && multiset(r.value) == multiset(MapResult(tagsProp.value, TagOf).value)
  {
    match tagsProp
    case None => Ok([])
    case Some(elements) =>
      var tags :- MapResult(elements, TagOf);
      var duplicates := Repeated(tags);
      RepeatedEmpty(tags);
      if |duplicates| > 0 then Err(DuplicateTags + JoinWith(duplicates, ", "))
      else
        DistinctStringsComparable(tags);
        SortAscending(tags, StringLess());
        Ok(SortBy(tags, StringLess()))
  }

  lemma DistinctStringsComparable(tags: seq<string>)
    requires NoDuplicates(tags)
    ensures Comparable(tags, StringLess())
  {
    forall i, j | 0 <= i < j < |tags| ensures Less(tags[i], tags[j]) || Less(tags[j], tags[i]) {
      LessTotal(tags[i], tags[j]);
    }
  }

  /** `<` on strings is a strict order. */
  lemma StringLessStrict()
    ensures StrictOrder(StringLess())
  {
    forall a, b | Less(a, b) ensures !Less(b, a) {
      LessAsymmetric(a, b);
    }
    forall a, b, c | Less(a, b) && Less(b, c) ensures Less(a, c) {
      LessTransitive(a, b, c);
    }
  }

  /** The order of the declaration does not matter: valid, distinct trimmed
      tags come back as their one ascending arrangement. */
  lemma TagsAscendingArrangement(elements: seq<TagElement>, trimmed: seq<string>, ys: seq<string>)
    requires MapResult(elements, TagOf) == Ok(trimmed) && NoDuplicates(trimmed)
    requires Ascending(ys, StringLess()) && multiset(ys) == multiset(trimmed)
    ensures ExtractTags(Some(elements)) == Ok(ys)
  {
    TagsSortedFrom(elements, trimmed);
    SortedStringsUnique(trimmed, ys);
  }

  /** Valid, distinct trimmed tags are accepted, sorted. */
  lemma TagsSortedFrom(elements: seq<TagElement>, trimmed: seq<string>)
    requires MapResult(elements, TagOf) == Ok(trimmed) && NoDuplicates(trimmed)
    ensures ExtractTags(Some(elements)) == Ok(SortBy(trimmed, StringLess()))
  {
    RepeatedEmpty(trimmed);
  }

  /** Distinct strings have one ascending arrangement, the sorted one. */
  lemma SortedStringsUnique(xs: seq<string>, ys: seq<string>)
    requires NoDuplicates(xs)
    requires Ascending(ys, StringLess()) && multiset(ys) == multiset(xs)
    ensures SortBy(xs, StringLess()) == ys
  {
    StringLessStrict();
    DistinctStringsComparable(xs);
    SortIsTheAscendingArrangement(xs, ys, StringLess());
  }

  /** Every declared tag is kept, trimmed; every accepted tag is valid, and no
      tag occurs twice. */
  lemma TagsKept(elements: seq<TagElement>, trimmed: seq<string>)
    requires MapResult(elements, TagOf) == Ok(trimmed) && NoDuplicates(trimmed)
    ensures ExtractTags(Some(elements)).Ok?
    ensures var tags := ExtractTags(Some(elements)).value;
      |tags| == |elements|
      && NoDuplicates(tags)
      && (forall i :: 0 <= i < |elements| ==> elements[i].StringLiteral? && Trim(elements[i].text) in tags)
      && (forall t :: t in tags ==> ValidTag(t))
  {
    TagsSortedFrom(elements, trimmed);
    var tags := ExtractTags(Some(elements)).value;
    SameElements(trimmed, tags);
    forall i | 0 <= i < |elements| ensures elements[i].StringLiteral? && Trim(elements[i].text) in tags {
      assert TagOf(elements[i]) == Ok(trimmed[i]);
    }
    forall t | t in tags ensures ValidTag(t) {
      var i :| 0 <= i < |trimmed| && trimmed[i] == t;
      assert TagOf(elements[i]) == Ok(t);
    }
    AscendingDistinct(tags);
  }

  /** Two sequences with the same multiset hold the same elements. */
  lemma SameElements<T>(xs: seq<T>, ys: seq<T>)
    requires multiset(xs) == multiset(ys)
    ensures |xs| == |ys|
    ensures forall i :: 0 <= i < |xs| ==> xs[i] in ys
    ensures forall y :: y in ys ==> exists i :: 0 <= i < |xs| && xs[i] == y
  {
    SameLength(xs, ys);
    forall i | 0 <= i < |xs| ensures xs[i] in ys {
      assert xs[i] in multiset(ys);
    }
    forall y | y in ys ensures exists i :: 0 <= i < |xs| && xs[i] == y {
      assert y in multiset(xs);
    }
  }

  /** An ascending sequence of strings has no duplicates. */
  lemma AscendingDistinct(s: seq<string>)
    requires Ascending(s, StringLess())
    ensures NoDuplicates(s)
  {
    StringLessStrict();
    forall i, j | 0 <= i < j < |s| ensures s[i] != s[j] {
      AscendingFrom(s, i, j);
      LessIrreflexive(s[i]);
    }
  }

  lemma {:induction false} AscendingFrom(s: seq<string>, i: nat, j: nat)
    requires Ascending(s, StringLess()) && i < j < |s|
    ensures Less(s[i], s[j])
    decreases j - i
  {
    if j > i + 1 {
      AscendingFrom(s, i + 1, j);
      LessTransitive(s[i], s[i + 1], s[j]);
    }
  }

  /* ----- path ----- */

  const DuplicateDynamicComponents := "endpoint path dynamic components must have unique names"

  /** `extractEndpointPath`: a path naming a dynamic component twice is rejected. */
  function ExtractPath(path: string): (r: Result<string, string>)
    ensures r.Ok? <==> NoDuplicates(DynamicPathComponents(path))
    ensures r.Ok? ==> r.value == path
    ensures r.Err? ==> r.error == DuplicateDynamicComponents
  {
    RepeatedEmpty(DynamicPathComponents(path));
    if |Repeated(DynamicPathComponents(path))| > 0 then Err(DuplicateDynamicComponents) else Ok(path)
  }

  /* ----- path parameters ----- */

  const UncoveredComponents :=
    "endpoint path dynamic components must have a corresponding path param defined in @request. Violating path components: "
  const UncoveredParams :=
    "endpoint request path params must have a corresponding dynamic path component defined in @endpoint. Violating path params: "

  /** `xs.filter(x => !ys.includes(x))` */
  function Exclusive(xs: seq<string>, ys: seq<string>): (r: seq<string>)
    ensures |r| <= |xs|
    ensures forall x :: x in r <==> x in xs && x !in ys
  {
    if |xs| == 0 then []
    else
      var rest := Exclusive(xs[1..], ys);
      assert forall x :: x in xs <==> x == xs[0] || x in xs[1..] by {
        assert xs == [xs[0]] + xs[1..];
      }
      (if xs[0] !in ys then [xs[0]] else []) + rest
  }

  /** `request?.pathParams.map(p => p.name) ?? []` */
  function PathParamNames(request: Option<Request>): (names: seq<string>)
    ensures request.None? ==> names == []
    ensures request.Some? ==> (|names| == |request.value.pathParams|
      && forall j :: 0 <= j < |names| ==> names[j] == request.value.pathParams[j].name)
  {
    if request.None? then []
    else seq(|request.value.pathParams|, j requires 0 <= j < |request.value.pathParams| => request.value.pathParams[j].name)
  }

  /** The coverage check of `parseEndpoint`: every dynamic component needs a path
      parameter of its name, then every path parameter needs a component. */
  function PathParamsError(path: string, request: Option<Request>): (r: Option<string>)
    ensures r.None? <==> forall n :: n in DynamicPathComponents(path) <==> n in PathParamNames(request)
    ensures r.Some? && (exists n :: n in DynamicPathComponents(path) && n !in PathParamNames(request)) ==>
      r.value == UncoveredComponents + JoinWith(Exclusive(DynamicPathComponents(path), PathParamNames(request)), ", ")
    ensures r.Some? && (forall n :: n in DynamicPathComponents(path) ==> n in PathParamNames(request)) ==>
      r.value == UncoveredParams + JoinWith(Exclusive(PathParamNames(request), DynamicPathComponents(path)), ", ")
  {
    var inPath := DynamicPathComponents(path);
    var inRequest := PathParamNames(request);
    var exclusiveInPath := Exclusive(inPath, inRequest);
    var exclusiveInRequest := Exclusive(inRequest, inPath);
    if |exclusiveInPath| > 0 then
      assert exclusiveInPath[0] in exclusiveInPath;
      Some(UncoveredComponents + JoinWith(exclusiveInPath, ", "))
    else if |exclusiveInRequest| > 0 then
      assert exclusiveInRequest[0] in exclusiveInRequest;
      Some(UncoveredParams + JoinWith(exclusiveInRequest, ", "))
    else
      assert forall n :: n !in exclusiveInPath && n !in exclusiveInRequest;
      None
  }

  /* ----- responses ----- */

  const DuplicateStatuses := "endpoint responses must have unique statuses. Duplicates found: "

  /** The order `(a, b) => (b.status > a.status ? -1 : 1)` sorts by. */
  function StatusLess(): (Response, Response) -> bool {
    (a: Response, b: Response) => a.status < b.status
  }

  function Statuses(responses: seq<Response>): (ss: seq<int>)
    ensures |ss| == |responses| && forall i :: 0 <= i < |ss| ==> ss[i] == responses[i].status
  {
    seq(|responses|, i requires 0 <= i < |responses| => responses[i].status)
  }

  /** `extractEndpointResponses` over the results of parsing each `@response`
      method: the first failure is returned, then repeated statuses are
      rejected, and the responses come back sorted by status. */
  function ExtractResponses(parsed: seq<Result<Response, string>>): (r: Result<seq<Response>, string>)
    ensures (forall i :: 0 <= i < |parsed| ==> parsed[i].Ok?) ==> var rs := seq(|parsed|, i requires 0 <= i < |parsed| => parsed[i].value);
      (r.Ok? <==> NoDuplicates(Statuses(rs)))
      && (r.Err? ==> r.error == DuplicateStatuses + JoinWith(StatusTexts(Repeated(Statuses(rs))), ", "))
      && (r.Ok? ==> multiset(r.value) == multiset(rs))
    ensures (exists i :: 0 <= i < |parsed| && parsed[i].Err?) ==>
      exists i :: 0 <= i < |parsed| && parsed[i].Err? && r == Err(parsed[i].error) && forall j :: 0 <= j < i ==> parsed[j].Ok?
    ensures r.Ok? ==> Ascending(r.value, StatusLess()) && NoDuplicates(Statuses(r.value))
  {
    var responses :- MapResult(parsed, (p: Result<Response, string>) => p);
    assert responses == seq(|parsed|, i requires 0 <= i < |parsed| => parsed[i].value);
    var statuses := Statuses(responses);
    var duplicates := Repeated(statuses);
    RepeatedEmpty(statuses);
    if |duplicates| > 0 then Err(DuplicateStatuses + JoinWith(StatusTexts(duplicates), ", "))
    else
      DistinctStatusesComparable(responses);
      SortAscending(responses, StatusLess());
      var sorted := SortBy(responses, StatusLess());
      AscendingStatusesDistinct(sorted);
      Ok(sorted)
  }

  /** `statuses.join(", ")` writes each status in decimal. */
  function StatusTexts(statuses: seq<int>): (texts: seq<string>)
    ensures |texts| == |statuses| && forall i :: 0 <= i < |texts| ==> texts[i] == DecimalString(statuses[i])
  {
    seq(|statuses|, i requires 0 <= i < |statuses| => DecimalString(statuses[i]))
  }

  lemma DistinctStatusesComparable(responses: seq<Response>)
    requires NoDuplicates(Statuses(responses))
    ensures Comparable(responses, StatusLess())
  {
    forall i, j | 0 <= i < j < |responses|
      ensures responses[i].status < responses[j].status || responses[j].status < responses[i].status
    {
      assert Statuses(responses)[i] != Statuses(responses)[j];
    }
  }

  lemma AscendingStatusesDistinct(responses: seq<Response>)
    requires Ascending(responses, StatusLess())
    ensures NoDuplicates(Statuses(responses))
  {
    forall i, j | 0 <= i < j < |responses| ensures responses[i].status < responses[j].status {
      AscendingStatus(responses, i, j);
    }
  }

  lemma {:induction false} AscendingStatus(responses: seq<Response>, i: nat, j: nat)
    requires Ascending(responses, StatusLess()) && i < j < |responses|
    ensures responses[i].status < responses[j].status
    decreases j - i
  {
    if j > i + 1 {
      AscendingStatus(responses, i + 1, j);
    }
  }

  /** Sorting by status is a strict order, so the order in which the responses
      are declared does not matter. */
  lemma ResponsesOrderIndependent(a: seq<Result<Response, string>>, b: seq<Result<Response, string>>)
    requires ExtractResponses(a).Ok? && ExtractResponses(b).Ok?
    requires multiset(ExtractResponses(a).value) == multiset(ExtractResponses(b).value)
    ensures ExtractResponses(a) == ExtractResponses(b)
  {
    assert StrictOrder(StatusLess());
    AscendingUnique(ExtractResponses(a).value, ExtractResponses(b).value, StatusLess());
  }

  /* ----- the endpoint ----- */

  /** What `parseEndpoint` extracts from the class and its decorator before
      checking it; the request, the responses and the default response are the
      results of their own parsers. */
  datatype EndpointDeclaration = EndpointDeclaration(
    name: string, methodText: string, tags: Option<seq<TagElement>>, jsDoc: Option<string>, draft: bool,
    request: Result<Option<Request>, string>, responses: seq<Result<Response, string>>,
    defaultResponse: Result<Option<DefaultResponse>, string>, path: string)

  /** `jsDoc?.getDescription().trim()` */
  function DescriptionOf(jsDoc: Option<string>): (d: Option<string>)
    ensures d.Some? <==> jsDoc.Some?
    ensures d.Some? ==> d.value == Trim(jsDoc.value)
  {
    match jsDoc
    case None => None
    case Some(text) => Some(Trim(text))
  }

  /** `parseEndpoint`: method, tags, request, responses, default response and
      path are checked in that order, and the first failure is the result;
      then the path parameters must match the dynamic components both ways. */
  function ParseEndpoint(d: EndpointDeclaration): (r: Result<Endpoint, string>)
    ensures ParseMethod(d.methodText).Err? ==> r == Err(ParseMethod(d.methodText).error)
    ensures ParseMethod(d.methodText).Ok? && ExtractTags(d.tags).Err? ==> r == Err(ExtractTags(d.tags).error)
    ensures ParseMethod(d.methodText).Ok? && ExtractTags(d.tags).Ok? && d.request.Err? ==> r == Err(d.request.error)
    ensures (ParseMethod(d.methodText).Ok? && ExtractTags(d.tags).Ok? && d.request.Ok?
      && ExtractResponses(d.responses).Err?) ==> r == Err(ExtractResponses(d.responses).error)
    ensures (ParseMethod(d.methodText).Ok? && ExtractTags(d.tags).Ok? && d.request.Ok?
      && ExtractResponses(d.responses).Ok? && d.defaultResponse.Err?) ==> r == Err(d.defaultResponse.error)
    ensures (ParseMethod(d.methodText).Ok? && ExtractTags(d.tags).Ok? && d.request.Ok?
      && ExtractResponses(d.responses).Ok? && d.defaultResponse.Ok? && ExtractPath(d.path).Err?)
      ==> r == Err(ExtractPath(d.path).error)
    ensures (ParseMethod(d.methodText).Ok? && ExtractTags(d.tags).Ok? && d.request.Ok?
      && ExtractResponses(d.responses).Ok? && d.defaultResponse.Ok? && ExtractPath(d.path).Ok?
      && PathParamsError(d.path, d.request.value).Some?) ==> r == Err(PathParamsError(d.path, d.request.value).value)
    ensures r.Ok? <==> (ParseMethod(d.methodText).Ok? && ExtractTags(d.tags).Ok? && d.request.Ok?
      && ExtractResponses(d.responses).Ok? && d.defaultResponse.Ok? && ExtractPath(d.path).Ok?
      && PathParamsError(d.path, d.request.value).None?)
    ensures r.Ok? ==> r.value == Endpoint(d.name, DescriptionOf(d.jsDoc), ExtractTags(d.tags).value,
      ParseMethod(d.methodText).value, d.path, d.request.value, ExtractResponses(d.responses).value,
      d.defaultResponse.value, d.draft)
  {
    var httpMethod :- ParseMethod(d.methodText);
    var tags :- ExtractTags(d.tags);
    var request :- d.request;
    var responses :- ExtractResponses(d.responses);
    var defaultResponse :- d.defaultResponse;
    var path :- ExtractPath(d.path);
    match PathParamsError(path, request)
    case Some(message) => Err(message)
    case None => Ok(Endpoint(d.name, DescriptionOf(d.jsDoc), tags, httpMethod, path, request, responses, defaultResponse, d.draft))
  }

  /** A parsed endpoint's path parameters are exactly its dynamic path
      components, which are distinct, and its responses have distinct
      statuses in ascending order. */
  lemma ParsedEndpointConsistent(d: EndpointDeclaration)
    requires ParseEndpoint(d).Ok?
    ensures var e := ParseEndpoint(d).value;
      NoDuplicates(DynamicPathComponents(e.path))
      && (forall n :: n in DynamicPathComponents(e.path) <==> exists j :: 0 <= j < |PathParamsOf(e)| && PathParamsOf(e)[j].name == n)
      && NoDuplicates(Statuses(e.responses)) && Ascending(e.responses, StatusLess())
  {
    var e := ParseEndpoint(d).value;
    var names := PathParamNames(e.request);
    forall n ensures n in names <==> exists j :: 0 <= j < |PathParamsOf(e)| && PathParamsOf(e)[j].name == n {
      if n in names {
        var j :| 0 <= j < |names| && names[j] == n;
        assert PathParamsOf(e)[j].name == n;
      }
      if exists j :: 0 <= j < |PathParamsOf(e)| && PathParamsOf(e)[j].name == n {
        var j :| 0 <= j < |PathParamsOf(e)| && PathParamsOf(e)[j].name == n;
        assert names[j] == n;
      }
    }
  }

  /** A contract whose endpoints all came out of the endpoint parser has every
      dynamic path component covered by a path parameter, which is what the
      verifier's path comparison relies on. */
  lemma ParsedContractCovered(c: Contract, ds: seq<EndpointDeclaration>)
    requires |ds| == |c.endpoints|
    requires forall i :: 0 <= i < |ds| ==> ParseEndpoint(ds[i]) == Ok(c.endpoints[i])
    ensures ContractMismatcher.PathParamsCovered(c)
  {
    forall i, n | 0 <= i < |c.endpoints| && n in DynamicPathComponents(c.endpoints[i].path)
      ensures exists j :: 0 <= j < |PathParamsOf(c.endpoints[i])| && PathParamsOf(c.endpoints[i])[j].name == n
    {
      ParsedEndpointConsistent(ds[i]);
    }
  }
}
