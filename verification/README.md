# Spot contracts in Dafny

Spot describes an HTTP API as a contract. A contract holds endpoints with their requests and
responses, the named types those refer to, a query serialisation configuration and an optional
security header. This project models the pure heart of Spot:

- the type algebra and its insertion-ordered type table;
- reference dereferencing and root-type flattening;
- discriminator inference, intersection narrowing and the "intersection evaluates to never" check;
- the OpenAPI 3 and OpenAPI 2 (Swagger) emitters, for schemas, parameters, responses, paths and
  whole documents;
- the contract verifier, which compares a recorded request/response exchange with the contract;
- the rule sets of the type parser and the endpoint parser;
- the mock server's request matcher, the two lint rules, proxy configuration inference and the
  `Ok`/`Err` result type.

Everything is written as immutable datatypes and total functions. A thrown exception and an `err(...)`
result are both `Err(message)`. The libraries the source delegates to are function-typed
parameters:

- the string validator;
- the JSON-schema body validator;
- `JSON.stringify`;
- the query-string parser.

The TypeScript compiler's view of a Spot file is folded into small syntax datatypes
(`TypeParser.TypeNode`, `EndpointParser.EndpointDeclaration`). The parser rules are stated over those.

Reference resolution keeps `pending`, the set of names not yet entered on the current path. Entering a
name removes it. Meeting a name that was already entered yields `Err("Maximum call stack size exceeded")`. The source recurses without a guard
there, until the JavaScript stack overflows. On acyclic tables the two agree, and the `...Unfold`
lemmas prove that the source's own recursive equations hold on every success.

Files, one module each:

| file | module |
|---|---|
| `util.dfy` | `Util`: result type |
| `text.dfy` | `Text`: string helpers |
| `decimal.dfy` | `Decimal`: decimal rendering |
| `dict.dfy` | `Dicts`: ordered JS objects and maps |
| `seqsets.dfy` | `SeqSets` |
| `sorting.dfy` | `Sorting` |
| `types.dfy` | `Types` |
| `resolution.dfy` | `Resolution` |
| `discriminator.dfy` | `Discriminators` |
| `narrowing.dfy` | `Narrowing` |
| `never.dfy` | `NeverCheck` |
| `contract.dfy` | `Contracts` |
| `paths.dfy` | `PathTemplates` |
| `schemas.dfy` | `SchemaCommon`: shared scalar table |
| `openapi3_schema.dfy` | `OpenApi3Schemas` |
| `openapi2_schema.dfy` | `OpenApi2Schemas` |
| `dialects.dfy` | `SchemaDialects`: cross-dialect theorem |
| `openapi_common.dfy` | `OpenApiCommon` |
| `openapi3_document.dfy` | `OpenApi3Documents` |
| `openapi2_params.dfy` | `OpenApi2Parameters` |
| `openapi2_document.dfy` | `OpenApi2Documents` |
| `mismatcher.dfy` | `ContractMismatcher` |
| `type_parser.dfy` | `TypeParser` |
| `endpoint_parser.dfy` | `EndpointParser` |
| `matcher.dfy` | `MockMatcher` |
| `lint.dfy` | `LintRules` |
| `proxy.dfy` | `ProxyConfigs` |

## Model

| member | source | states |
|---|---|---|
| Util.TryCatch | build/lib/src/util.js:20-27 | `tryCatch` gives `ok` of the value on a normal return and `err` of the thrown value otherwise |
| Util.OkLaws | build/lib/src/util.js:12-14 | `ok(v)` is `Ok`, not `Err`, and unwraps (also by `unwrapOrThrow`) to `v`; `unwrapErrOrThrow` throws it |
| Util.ErrLaws | build/lib/src/util.js:16-18 | `err(e)` is `Err`, not `Ok`, and `unwrapErr` gives `e`; `unwrapOrThrow` throws `e` |
| Util.TryCatchUnwrapRoundTrip | build/lib/src/util.js:20-80 | catching what `unwrapOrThrow` produces gives back the original result |
| Util.MapResult | build/lib/src/parsers/endpoint-parser.js:150-170 | mapping with a throwing function: success exactly when every element succeeds, each result in its place; otherwise the first failure |
| Decimal.DecimalRoundTrip | build/lib/src/generators/openapi3/openapi3.js:145-154 | reading back `status.toString(10)` gives the status |
| Decimal.DecimalStringInjective | build/lib/src/generators/openapi3/openapi3.js:145-154 | distinct statuses are keyed by distinct strings |
| Text.JoinSplit | build/lib/src/generators/openapi3/openapi3.js:54-57 | joining the parts of `split("/")` gives back the path |
| Text.SplitJoin | build/lib/src/generators/openapi3/openapi3.js:54-57 | splitting a join of separator-free parts gives back the parts |
| Text.Trim | build/lib/src/parsers/endpoint-parser.js:108 | `trim()` leaves no white space at either end and is a contiguous piece of its input; everything it drops before and after that piece is white space |
| Dicts.PutGet | build/lib/src/types.js:527-532 | after `set(k, v)`, `get(k)` is `v` and every other key reads as before |
| Dicts.PutKeys | build/lib/src/types.js:504-514 | setting a key never drops or reorders the other keys |
| Dicts.FromPairsGet | build/lib/src/generators/openapi3/openapi3-type-util.js:83-104 | an object built by a `reduce` that assigns keys holds, for each key, the value of its last pair, and no other keys |
| Dicts.FromPairsDistinct | build/lib/src/generators/openapi3/openapi3-type-util.js:83-104 | with distinct keys, the object built holds the pairs themselves, in order |
| Dicts.GroupByGet | build/lib/src/types.js:401-438 | grouping by key: the group of `k` is exactly the values paired with `k`, in order |
| Dicts.GroupByKeysOrder | build/lib/src/types.js:401-438 | the keys of a grouping are the pair keys in order of first occurrence, each once |
| Dicts.NestGet | build/lib/src/generators/openapi3/openapi3.js:51-63 | `acc[k][k2] = v` in a loop: reading `[k][k2]` back gives the last value set for that pair |
| Dicts.NestSpec | build/lib/src/generators/openapi3/openapi3.js:51-63 | each outer key appears once, in first-occurrence order, holding the object of its inner pairs |
| SeqSets.RepeatedEmpty | build/lib/src/parsers/endpoint-parser.js:122-127 | the "repeated elements" list is empty exactly when the list has no duplicates |
| SeqSets.SetOfMoreThanOne | build/lib/src/types.js:447-489 | a list has more than one distinct element exactly when two of its positions differ |
| Sorting.SortAscending | build/lib/src/parsers/endpoint-parser.js:132 | sorting pairwise comparable elements puts each strictly before the next |
| Sorting.AscendingUnique | build/lib/src/parsers/endpoint-parser.js:132 | under a strict order two ascending arrangements of one multiset are equal |
| Sorting.SortIsTheAscendingArrangement | build/lib/src/parsers/endpoint-parser.js:132 | the sort yields the one ascending arrangement of its input, whatever the algorithm |
| Types.TypeTable.GetOrError | build/lib/src/types.js:546-552 | fails exactly when the key is absent, with a message naming it; otherwise returns what `get` returns |
| Types.TypeTable.Add | build/lib/src/types.js:527-532 | fails exactly when the key is present; otherwise the key exists with the new definition, every other key is unchanged, the size grows by one and validity is kept |
| Types.TypeTable.Get | build/lib/src/types.js:538-540 | something exactly when the key exists, and then a definition recorded under that key |
| Types.TypeTable.ToArray | build/lib/src/types.js:514-520 | the entries in insertion order |
| Types.FromArray | build/lib/src/types.js:504-510 | a table built from an array is valid (each name once) |
| Types.FromArrayEntries | build/lib/src/types.js:504-510 | with distinct names, every entry of the array keeps its place |
| Types.ToArrayFromArray | build/lib/src/types.js:504-520 | `toArray(fromArray(arr)) == arr` when the names are distinct |
| Types.FromArrayToArray | build/lib/src/types.js:504-520 | `fromArray(toArray(tt)) == tt` for a valid table |
| Types.ExtendsNames | build/lib/src/types.js:527-532 | a table's names are among those of every table that only added to it |
| Resolution.Deref | build/lib/src/types.js:329-334 | with the names not yet entered as `pending`: never a reference on success, and the identity on every non-reference |
| Resolution.RootsIn | build/lib/src/types.js:308-327 | with the names not yet entered as `pending`: every root is concrete, a concrete type is its own single root, and an intersection yields one object |
| Resolution.Dereference | build/lib/src/types.js:329-334 | never a reference on success; the identity on every non-reference |
| Resolution.DereferenceIdempotent | build/lib/src/types.js:329-334 | dereferencing twice is dereferencing once |
| Resolution.DereferenceUnfold | build/lib/src/types.js:329-334 | on success, a reference dereferences as its definition does |
| Resolution.DerefMonotone | build/lib/src/types.js:329-334 | opening fewer names never changes a successful dereference |
| Resolution.PossibleRootTypes | build/lib/src/types.js:308-327 | `[t]` for every type that is not a reference, union or intersection; no root is a reference, union or intersection |
| Resolution.UnionRoots | build/lib/src/types.js:312-314 | the roots of a union are its members' roots concatenated in member order |
| Resolution.IntersectionRoots | build/lib/src/types.js:315-325 | an intersection fails unless every member root is an object, and then yields exactly one object, the narrowed one |
| Resolution.RootsOfAllAppend | build/lib/src/types.js:308-327 | the roots of a concatenated member list are the concatenated roots; a failure in the first part wins |
| Resolution.RootTypesUnfold | build/lib/src/types.js:308-327 | on success, a reference's roots are those of its definition |
| Resolution.RootsMonotone | build/lib/src/types.js:308-327 | opening fewer names never changes a successful root computation |
| Resolution.PossibleRootTypesExtend | build/lib/src/types.js:308-327 | a successful root computation gives the same roots in every table that only added to its own |
| Discriminators.LiteralProperties | build/lib/src/types.js:358-366 | succeeds exactly when every required property dereferences; optional ones are never dereferenced |
| Discriminators.LiteralPropertiesFirstFailure | build/lib/src/types.js:358-366 | the first required property that fails to dereference decides the error |
| Discriminators.Collect | build/lib/src/types.js:350-368 | completes exactly when every root is an object whose required properties dereference; stops early only at a non-object root; a failure comes from an object root |
| Discriminators.InferDiscriminator | build/lib/src/types.js:342-383 | a discriminator is returned only when there is at least one non-null root and all of them are objects; a failure after the roots resolve comes from an object root's required property |
| Discriminators.NoDiscriminatorWithNonObject | build/lib/src/types.js:343-353 | roots with a non-object after dropping nulls never have a discriminator |
| Discriminators.InferDiscriminatorSpec | build/lib/src/types.js:342-383 | when the non-null roots are objects with distinct property names, `p` is returned exactly when it is the one name that is required, a string literal after dereference, present on every root and pairwise distinct in value |
| Discriminators.Qualifies | build/lib/src/types.js:354-378 | a name is counted as a candidate exactly when it meets the discriminator conditions |
| Narrowing.GetPrimitiveOrLiteralType | build/lib/src/types.js:385-394 | `find` over the group: whatever is returned is a member of the group |
| Narrowing.GetPrimitiveOrLiteralTypeFirst | build/lib/src/types.js:385-394 | the first literal of the family; only when the group has none, the first primitive of the family; nothing exactly when it holds neither |
| Narrowing.ResolveIntersectionToNarrowestType | build/lib/src/types.js:401-438 | always a single object |
| Narrowing.NarrowestType | build/lib/src/types.js:401-438 | each property name once, in first-occurrence order; a name is kept exactly when its group lies in one scalar family, and then a literal wins over a primitive |
| Narrowing.PickNarrowestSpec | build/lib/src/types.js:385-435 | a group narrows when it lies in one family, to its first literal member if any, else its first member |
| Narrowing.NarrowedLookup | build/lib/src/types.js:401-438 | looking a name up among the narrowed properties is narrowing that name's group |
| Narrowing.NarrowedDistinct | build/lib/src/types.js:401-438 | the narrowed object holds each name once |
| NeverCheck.DoesInterfaceEvaluateToNever | build/lib/src/types.js:447-462 | fails exactly when a member's roots fail to resolve or some property of an object root fails to dereference |
| NeverCheck.ConflictsSpec | build/lib/src/types.js:464-488 | a group conflicts exactly when, inside one scalar family, two literals differ, and otherwise when two kinds differ |
| NeverCheck.SingleNeverConflicts | build/lib/src/types.js:464-488 | a property seen once never conflicts |
| NeverCheck.NeverSpec | build/lib/src/types.js:447-489 | the intersection evaluates to never exactly when some property name's dereferenced types conflict; non-object roots are ignored |
| Contracts.HttpMethod.PathItemKey | build/lib/src/generators/openapi3/openapi3.js:190-205 | the path-item key of a method is its lower-cased name |
| Contracts.ParseHttpMethodName | build/lib/src/parsers/parser-helpers.js:266-278 | exactly the five method names are recognised, each as its own method |
| Contracts.PathItemKeyInjective | build/lib/src/generators/openapi2/openapi2.js:126-141 | distinct methods get distinct path-item keys |
| PathTemplates.RenderPathComponents | build/lib/src/generators/openapi3/openapi3.js:54-57 | splitting a rendered path gives the template's components one for one: static ones unchanged, `:x` as `{x}` |
| PathTemplates.RenderPathIdentity | build/lib/src/generators/openapi3/openapi3.js:54-57 | a template renders to itself exactly when it has no dynamic component |
| PathTemplates.DynamicNames | build/lib/src/parsers/endpoint-parser.js:171-176 | a name is listed exactly when some `:` component carries it, colon stripped; never more names than components |
| PathTemplates.DynamicNamesAppend | build/lib/src/parsers/endpoint-parser.js:171-176 | the names of concatenated components are the concatenated names, so they come in path order |
| PathTemplates.DynamicNamesSingle | build/lib/src/parsers/endpoint-parser.js:171-176 | one component contributes its name, colon stripped, exactly when it starts with `:` |
| PathTemplates.StripQuery | build/lib/src/validation-server/verifications/contract-mismatcher.js:318 | `split("?")[0]`: the prefix of the path up to its first `?`, the whole path when it has none |
| PathTemplates.StaticTemplateMatches | build/lib/src/mock-server/matcher.js:18-19 | a template without dynamic components matches exactly itself |
| PathTemplates.CompileSlashes | build/lib/src/mock-server/matcher.js:18 | compiling a template keeps every `/` as a literal |
| PathTemplates.ConfinedMatchComponents | build/lib/src/mock-server/matcher.js:18-19 | a path accepted by the component-confined pattern has as many components as the template |
| PathTemplates.VerifierWildcardSpansSlash | build/lib/src/validation-server/verifications/contract-mismatcher.js:328-335 | the verifier's `.+` crosses `/`: `/a/:b` matches `/a/x/y`, which the mock server's pattern rejects |
| SchemaCommon.ScalarInfoOf | build/lib/src/generators/openapi3/openapi3-type-util.js:13-36 | the scalar table: float, double, int32, int64, date, date-time formats; literals as `enum: [v]`; nothing for non-scalars |
| SchemaCommon.CreateEnum | build/lib/src/generators/openapi3/openapi3-type-util.js:239-243 | a nullable enum ends with exactly one `null`; otherwise it is the values |
| SchemaCommon.NullableField | build/lib/src/generators/openapi3/openapi3-type-util.js:52-82 | `nullable || undefined` is `true` or absent, never `false` |
| SchemaCommon.RequiredNames | build/lib/src/generators/openapi3/openapi3-type-util.js:83-104 | a name is listed exactly when some non-optional property carries it; never more names than properties |
| SchemaCommon.RequiredNamesAppend | build/lib/src/generators/openapi3/openapi3-type-util.js:83-104 | the required names of concatenated properties are the concatenated required names, so they come in declaration order |
| SchemaCommon.RequiredNamesSingle | build/lib/src/generators/openapi3/openapi3-type-util.js:83-104 | one property contributes its name exactly when it is not optional |
| SchemaCommon.LiteralUnionOfFamily | build/lib/src/generators/openapi3/openapi3-type-util.js:127-160 | a union of same-family literals gets its members' scalar type and format and lists every value in order |
| SchemaCommon.NullableLiteralEnum | build/lib/src/generators/openapi3/openapi3-type-util.js:127-160 | the enum of a nullable literal union is the member values, then `null` |
| OpenApi3Schemas.ReferenceObjectValueInjective | build/lib/src/generators/openapi3/openapi3-type-util.js:233-235 | a `$ref` path determines the type name |
| OpenApi3Schemas.ToSchema | build/lib/src/generators/openapi3/openapi3-type-util.js:9-50 | a bare `null` fails; scalars follow the scalar table; a reference is a `$ref` with `nullable` only when set |
| OpenApi3Schemas.ObjectSchema | build/lib/src/generators/openapi3/openapi3-type-util.js:83-104 | `required` is `RequiredNames` of the properties (the non-optional names, in declaration order, by `RequiredNamesAppend` and `RequiredNamesSingle`) and is absent when empty |
| OpenApi3Schemas.UnionSchema | build/lib/src/generators/openapi3/openapi3-type-util.js:115-162 | an empty or all-`null` union fails |
| OpenApi3Schemas.IntersectionSchema | build/lib/src/generators/openapi3/openapi3-type-util.js:215-226 | `allOf` of the non-null members, nullable exactly when a member is `null` |
| OpenApi3Schemas.LoneMemberUnion | build/lib/src/generators/openapi3/openapi3-type-util.js:117-126 | one non-null member: that member's schema, nullable exactly when a `null` member exists |
| OpenApi3Schemas.NullableUnion | build/lib/src/generators/openapi3/openapi3-type-util.js:117-126 | `T \| null` and `null \| T` are the schema of `T` with `nullable: true` |
| OpenApi3Schemas.LiteralUnionEnum | build/lib/src/generators/openapi3/openapi3-type-util.js:127-147 | two or more same-family literals: one enum of the values in member order, then `null` when nullable |
| OpenApi3Schemas.OneOfUnion | build/lib/src/generators/openapi3/openapi3-type-util.js:148-160 | any other union: `oneOf` of the member schemas in order with the discriminator object; it fails exactly when a member does |
| OpenApi3Schemas.ObjectProperties | build/lib/src/generators/openapi3/openapi3-type-util.js:83-104 | `properties` holds each name once, with the schema of its last property and that property's description |
| OpenApi3Schemas.DiscriminatorObject | build/lib/src/generators/openapi3/openapi3-type-util.js:163-214 | absent without a discriminator; only the property name unless every non-null member is an object reference |
| OpenApi3Schemas.DiscriminatorMapping | build/lib/src/generators/openapi3/openapi3-type-util.js:163-214 | with object references only, the mapping takes each member's discriminator value to its `$ref` |
| OpenApi3Schemas.EmitNonNullEach | build/lib/src/generators/openapi3/openapi3-type-util.js:215-226 | skipping the nulls while emitting is emitting the non-null members |
| OpenApi2Schemas.ReferenceSchema | build/lib/src/generators/openapi2/openapi2-type-util.js:170-183 | a nullable reference is `x-nullable` plus `allOf: [$ref]`; otherwise a bare `$ref` to `#/definitions/` |
| OpenApi2Schemas.ToSchema | build/lib/src/generators/openapi2/openapi2-type-util.js:9-50 | a bare `null` fails; scalars follow the shared scalar table |
| OpenApi2Schemas.UnionSchema | build/lib/src/generators/openapi2/openapi2-type-util.js:115-159 | empty and all-`null` unions fail; two or more non-null members that are not same-family literals always fail |
| OpenApi2Schemas.IntersectionSchema | build/lib/src/generators/openapi2/openapi2-type-util.js:160-169 | `allOf` of the non-null members, never `x-nullable` |
| OpenApi2Schemas.ObjectSchema | build/lib/src/generators/openapi2/openapi2-type-util.js:83-104 | `required` is `RequiredNames` of the properties (the non-optional names, in declaration order, by `RequiredNamesAppend` and `RequiredNamesSingle`) and is absent when empty |
| SchemaDialects.EmittersAgree | build/lib/src/generators/openapi2/openapi2-type-util.js:9-191 | OpenAPI 2 rejects every union of different kinds; otherwise both emitters succeed or fail together, with corresponding schemas |
| SchemaDialects.EmittersSucceedTogether | build/lib/src/generators/openapi2/openapi2-type-util.js:9-191 | OpenAPI 2 succeeds exactly when OpenAPI 3 does and the type has no union of different kinds |
| SchemaDialects.ScalarAgrees | build/lib/src/generators/openapi2/openapi2-type-util.js:52-82 | scalars and literals get the same type, format and enum in both dialects |
| SchemaDialects.ReferenceAgrees | build/lib/src/generators/openapi2/openapi2-type-util.js:170-183 | a reference differs only in `#/definitions/` against `#/components/schemas/` |
| OpenApiCommon.InfoOf | build/lib/src/generators/openapi3/openapi3.js:17-21 | the contract's name and description, and its version or `0.0.0` |
| OpenApiCommon.SecuritySchemes | build/lib/src/generators/openapi3/openapi3.js:41-48 | the `SecurityHeader` API-key scheme, present exactly when the contract declares a security header |
| OpenApiCommon.TagsField | build/lib/src/generators/openapi3/openapi3.js:64-80 | tags are absent exactly when there are none |
| OpenApiCommon.ExampleSetGet | build/lib/src/generators/openapi3/openapi3.js:206-213 | an example set holds exactly the named examples, each with the value of the last of that name |
| OpenApiCommon.ResponseDescription | build/lib/src/generators/openapi3/openapi3.js:155-172 | a response's own description, else `<status> response`, else `default response` |
| OpenApiCommon.StatusKeyNotDefault | build/lib/src/generators/openapi3/openapi3.js:145-154 | a decimal status never collides with the key `default` |
| OpenApiCommon.ResponsesLookup | build/lib/src/generators/openapi3/openapi3.js:145-154 | a status finds the last response given for it; `default` finds the default response |
| OpenApiCommon.ResponsesInOrder | build/lib/src/generators/openapi3/openapi3.js:145-154 | with distinct statuses, the responses in contract order, then the default one |
| OpenApiCommon.PathsLookup | build/lib/src/generators/openapi3/openapi3.js:51-63 | one path item per rendered path, in first-appearance order, holding the last endpoint's operation per method |
| OpenApi3Documents.QueryStyleOfShapes | build/lib/src/generators/openapi3/openapi3.js:110-135 | an object query parameter is `deepObject` exploded; an array one is `form`, exploded exactly for ampersand; no roots fails |
| OpenApi3Documents.StyleFor | build/lib/src/generators/openapi3/openapi3.js:110-135 | only objects: `deepObject`; only arrays: `form`; both or neither: no style |
| OpenApi3Documents.PathParameter | build/lib/src/generators/openapi3/openapi3.js:81-109 | a path parameter is always required and has no serialisation |
| OpenApi3Documents.HeaderParameter | build/lib/src/generators/openapi3/openapi3.js:81-109 | a header parameter is required exactly when not optional |
| OpenApi3Documents.QueryParameter | build/lib/src/generators/openapi3/openapi3.js:81-109 | a query parameter is required exactly when not optional; the style failure comes before the schema's |
| OpenApi3Documents.ParametersGrouped | build/lib/src/generators/openapi3/openapi3.js:81-109 | parameters come path, then query, then header, each group in contract order |
| OpenApi3Documents.RequestBodyObject | build/lib/src/generators/openapi3/openapi3.js:136-144 | a request body is always required, under `application/json` |
| OpenApi3Documents.HeaderObject | build/lib/src/generators/openapi3/openapi3.js:173-179 | a response header is required exactly when not optional |
| OpenApi3Documents.ResponseHeaders | build/lib/src/generators/openapi3/openapi3.js:155-172 | response headers are keyed by name; a repeated name keeps the last header |
| OpenApi3Documents.ResponsesOf | build/lib/src/generators/openapi3/openapi3.js:145-154 | succeeds exactly when every response and the default response convert |
| OpenApi3Documents.ResponsesOfLookup | build/lib/src/generators/openapi3/openapi3.js:145-154 | each status finds the object of its last response; `default` finds the default response's |
| OpenApi3Documents.OperationOf | build/lib/src/generators/openapi3/openapi3.js:64-80 | the operation carries the endpoint's name, description and tags, parameters exactly with a request, a body exactly with a request body, and the responses object; it fails exactly when one of those parts does |
| OpenApi3Documents.PathsOf | build/lib/src/generators/openapi3/openapi3.js:51-63 | succeeds exactly when every endpoint's operation does |
| OpenApi3Documents.PathsOfLookup | build/lib/src/generators/openapi3/openapi3.js:51-63 | each endpoint's operation sits under its rendered path and method unless a later endpoint claims the pair |
| OpenApi3Documents.ComponentSchemasInOrder | build/lib/src/generators/openapi3/openapi3.js:180-189 | with distinct names, each type's schema under its own name, in declaration order |
| OpenApi3Documents.ComponentsOf | build/lib/src/generators/openapi3/openapi3.js:33-50 | absent exactly when there are no types and no security; `schemas` only with types |
| OpenApi3Documents.Generate | build/lib/src/generators/openapi3/openapi3.js:12-31 | version `3.0.2`; a failing endpoint is reported before a failing type |
| OpenApi3Documents.GeneratedSecurity | build/lib/src/generators/openapi3/openapi3.js:24-48 | with a security header the scheme is declared and required; without, neither |
| OpenApi2Parameters.BasicParameter | build/lib/src/generators/openapi2/openapi2-parameter-util.js:56-99 | `null`, objects, unions and intersections fail; scalars get the scalar table's type and format |
| OpenApi2Parameters.BasicParameterAgrees | build/lib/src/generators/openapi2/openapi2-parameter-util.js:60-126 | parameters use the schema table: same type and format; a literal is `enum: [v]`, never holding `null` |
| OpenApi2Parameters.ItemsUnfold | build/lib/src/generators/openapi2/openapi2-parameter-util.js:144-152 | items dereference first; a nested array is `{type: "array", items}` without `collectionFormat`; leaves use the basic mapping |
| OpenApi2Parameters.ItemsMonotone | build/lib/src/generators/openapi2/openapi2-parameter-util.js:144-152 | opening fewer names never changes a successful items object |
| OpenApi2Parameters.CollectionFormatOf | build/lib/src/generators/openapi2/openapi2-parameter-util.js:153-162 | ampersand is `multi`, comma is `csv` |
| OpenApi2Parameters.PathParameterObject | build/lib/src/generators/openapi2/openapi2-parameter-util.js:9-20 | always required, never a `collectionFormat` |
| OpenApi2Parameters.HeaderParameterObject | build/lib/src/generators/openapi2/openapi2-parameter-util.js:22-33 | required exactly when not optional, never a `collectionFormat` |
| OpenApi2Parameters.QueryParameterObject | build/lib/src/generators/openapi2/openapi2-parameter-util.js:35-46 | required exactly when not optional; an array carries the configured `collectionFormat` |
| OpenApi2Parameters.ResponseHeaderIgnoresOptional | build/lib/src/generators/openapi2/openapi2-parameter-util.js:48-54 | a response header object does not depend on the header's optionality |
| OpenApi2Documents.BodyParameterOf | build/lib/src/generators/openapi2/openapi2.js:87-101 | the body parameter is named `Body`, sits in the body and is required |
| OpenApi2Documents.ParametersGrouped | build/lib/src/generators/openapi2/openapi2.js:87-101 | path, query, header parameters in order, then the one body parameter exactly when there is a body |
| OpenApi2Documents.SchemaOf | build/lib/src/generators/openapi2/openapi2.js:112-125 | a response has `schema` exactly when it has a body |
| OpenApi2Documents.ResponsesOf | build/lib/src/generators/openapi2/openapi2.js:102-111 | succeeds exactly when every response and the default response convert |
| OpenApi2Documents.ResponsesOfLookup | build/lib/src/generators/openapi2/openapi2.js:102-111 | each status finds the object of its last response; `default` finds the default response's |
| OpenApi2Documents.OperationOf | build/lib/src/generators/openapi2/openapi2.js:73-86 | the operation carries the endpoint's name, description and tags, parameters exactly with a request, and the responses object; it fails exactly when one of those parts does |
| OpenApi2Documents.PathsOf | build/lib/src/generators/openapi2/openapi2.js:60-72 | succeeds exactly when every endpoint's operation does |
| OpenApi2Documents.PathsOfLookup | build/lib/src/generators/openapi2/openapi2.js:60-72 | each endpoint's operation sits under its rendered path and method unless a later endpoint claims the pair |
| OpenApi2Documents.DefinitionEntry | build/lib/src/generators/openapi2/openapi2.js:41-47 | a definition carries its type's description unless it is a `$ref` |
| OpenApi2Documents.DefinitionsInOrder | build/lib/src/generators/openapi2/openapi2.js:37-49 | with distinct names, each type's definition under its own name, in declaration order |
| OpenApi2Documents.Generate | build/lib/src/generators/openapi2/openapi2.js:13-35 | `swagger: "2.0"`, JSON in and out; a failing endpoint is reported before a failing type |
| ContractMismatcher.EndpointByRequest | build/lib/src/validation-server/verifications/contract-mismatcher.js:317-324 | the first endpoint, in contract order, with the upper-cased method whose pattern matches the path without its query |
| ContractMismatcher.RelevantResponse | build/lib/src/validation-server/verifications/contract-mismatcher.js:303-316 | the first response with the status, else the default response, else none |
| ContractMismatcher.HeaderMismatches | build/lib/src/validation-server/verifications/contract-mismatcher.js:161-184 | at most one mismatch per contract header plus, in strict mode, one per recorded header; every type disparity carries a reason (the exact reports are the `Header...Iff` lemmas) |
| ContractMismatcher.HeaderMissingIff | build/lib/src/validation-server/verifications/contract-mismatcher.js:161-170 | a required header is reported missing exactly when no recorded header has its name in any letter case |
| ContractMismatcher.HeaderDisparityIff | build/lib/src/validation-server/verifications/contract-mismatcher.js:171-174 | a type disparity is reported exactly when the first recorded header of that name fails validation |
| ContractMismatcher.UndefinedHeaderIff | build/lib/src/validation-server/verifications/contract-mismatcher.js:176-182 | undeclared headers are reported in strict mode only, and exactly those no contract header names |
| ContractMismatcher.BodyMismatches | build/lib/src/validation-server/verifications/contract-mismatcher.js:210-252 | without a contract body only a strict check objects, and only to a present body; with one, a disparity exactly when the validator reports errors |
| ContractMismatcher.PathParamMismatches | build/lib/src/validation-server/verifications/contract-mismatcher.js:185-209 | a component-count mismatch throws; so does a `:` component without a path parameter; otherwise the disparities are exactly those of the `:` components whose value fails validation |
| ContractMismatcher.QueryParamMismatches | build/lib/src/validation-server/verifications/contract-mismatcher.js:257-294 | at most one mismatch per contract query parameter plus one per parsed key; every disparity carries a reason (the exact reports are the `Query...Iff` lemmas) |
| ContractMismatcher.QueryMissingIff | build/lib/src/validation-server/verifications/contract-mismatcher.js:268-278 | a required query parameter is reported missing exactly when the query does not carry it |
| ContractMismatcher.QueryUndefinedIff | build/lib/src/validation-server/verifications/contract-mismatcher.js:266-292 | a parsed key is reported undefined exactly when no contract query parameter has its name |
| ContractMismatcher.QueryDisparityIff | build/lib/src/validation-server/verifications/contract-mismatcher.js:279-285 | a query disparity is reported exactly when a present parameter's value fails validation |
| ContractMismatcher.ResponseNeverUndefined | build/lib/src/validation-server/verifications/contract-mismatcher.js:84-130 | the lenient response checks never report an undeclared header or body |
| ContractMismatcher.SectionsStaged | build/lib/src/validation-server/verifications/contract-mismatcher.js:67-159 | violations come grouped: request headers, response headers, request body, response body, path, query |
| ContractMismatcher.CheckedHeaderSections | build/lib/src/validation-server/verifications/contract-mismatcher.js:67-100 | once the path parameters check out the report succeeds, and its header sections are the strict request check and the lenient response check, mapped to violations |
| ContractMismatcher.CheckedBodySections | build/lib/src/validation-server/verifications/contract-mismatcher.js:101-130 | once the path parameters check out the report succeeds, and its body sections are the strict request check and the lenient response check, mapped to violations |
| ContractMismatcher.CheckedPathSection | build/lib/src/validation-server/verifications/contract-mismatcher.js:131-141 | once the path parameters check out the report succeeds, and its path section is that check, mapped |
| ContractMismatcher.CheckedQuerySection | build/lib/src/validation-server/verifications/contract-mismatcher.js:142-158 | once the path parameters check out the report succeeds, and its query section is the query parameter check, mapped |
| ContractMismatcher.Report | build/lib/src/validation-server/verifications/contract-mismatcher.js:40-159 | no endpoint: exactly one undefined-endpoint violation with endpoint `""`; no response: exactly one undefined-response violation; otherwise the sections under the endpoint's name |
| ContractMismatcher.ReportSound | build/lib/src/validation-server/verifications/contract-mismatcher.js:40-159 | every report is grouped in section order, well formed, and never says a response header or body is undeclared |
| ContractMismatcher.FindViolations | build/lib/src/validation-server/verifications/contract-mismatcher.js:40-159 | as written, with the `.+` pattern: it can throw the missing path parameter error or an endpoint's component-count error |
| ContractMismatcher.ReportErrors | build/lib/src/validation-server/verifications/contract-mismatcher.js:185-200 | a report throws only for a missing path parameter or, when wildcards may span components, a component-count mismatch |
| ContractMismatcher.OverlongPathThrows | build/lib/src/validation-server/verifications/contract-mismatcher.js:190-193 | `/a/x/y` reaches `/a/:b` and the report throws the "never happens" error |
| ContractMismatcher.FindViolationsSegmentwise | build/lib/src/validation-server/verifications/contract-mismatcher.js:317-335 | with wildcards kept inside one path component: the only error it can throw is the missing path parameter |
| ContractMismatcher.SegmentwiseTotal | build/lib/src/validation-server/verifications/contract-mismatcher.js:185-209 | for a contract whose path parameters cover its paths, the segment-wise report never throws |
| ContractMismatcher.OverlongPathRejected | build/lib/src/validation-server/verifications/contract-mismatcher.js:44-53 | the segment-wise search finds no endpoint for `/a/x/y` and reports an undefined endpoint |
| TypeParser.BuiltInAlias | build/lib/src/parsers/type-parser.js:84-123 | `String`, `Date`, `DateTime` must alias `string`; the numeric names must alias `number`; anything else is a redefinition |
| TypeParser.BuiltInAliasTable | build/lib/src/parsers/type-parser.js:58-123 | an alias is accepted exactly on the table's pairs, with the table's type |
| TypeParser.ParseLiteral | build/lib/src/parsers/type-parser.js:167-190 | an integral number is an int literal, any other a float literal; booleans and strings keep their kind; `null` is the null type; anything else fails |
| TypeParser.LiteralNodeRoundTrip | build/lib/src/parsers/type-parser.js:167-190 | parsing a literal and writing it back gives the literal |
| TypeParser.LiteralTypeRoundTrip | build/lib/src/parsers/type-parser.js:167-190 | writing a literal type and parsing it back gives the type when the numeric kind agrees with the value |
| TypeParser.ParseType | build/lib/src/parsers/type-parser.js:10-56 | `undefined` and unknown nodes fail; `boolean`, `string`, `number` become boolean, string, float; `Array<...>` needs one argument; index signatures fail; array nodes give arrays and type literals objects; the table only grows and stays consistent with the locations |
| TypeParser.ParseRoot | build/lib/src/parsers/type-parser.js:428-440 | the root of an indexed access must be a type reference; anything else fails |
| TypeParser.ParseTypeReference | build/lib/src/parsers/type-parser.js:474-523 | `Map`, a symbol without exactly one declaration (for `String`, with the import hint), an enum and a declaration that is neither a type alias nor an interface are rejected with their messages; only a type alias or interface can succeed |
| TypeParser.ParseDeclaration | build/lib/src/parsers/type-parser.js:77-159 | an interface under a built-in name is a redefinition; a built-in alias leaves the state alone and yields the alias table's type; any other success is a reference to the name, which is then in the table and registered at the declaration's location |
| TypeParser.ParseMembers | build/lib/src/parsers/type-parser.js:272-305 | an interface's properties are its property signatures in order, each with its name, trimmed doc and optionality |
| TypeParser.ParseProperties | build/lib/src/parsers/type-parser.js:240-263 | an object literal's properties are its signatures in order, each with its name, trimmed doc and optionality |
| TypeParser.ParseUnion | build/lib/src/parsers/type-parser.js:313-337 | nothing left after dropping `undefined` is an error; one member left is parsed as that member alone; with two or more, it succeeds exactly when every member parses in order and the discriminator can be inferred, a member's error is the result, and a success is the union of the parsed members with the inferred discriminator |
| TypeParser.ParseIntersection | build/lib/src/parsers/type-parser.js:345-372 | a member's error is the result; it succeeds exactly when the members are accepted and the never check answers false, and fails with the never error when it answers true; a success is the intersection of the members parsed in order, each with object roots only |
| TypeParser.ParseIntersectionMembers | build/lib/src/parsers/type-parser.js:345-364 | no member left gives none; the accepted members are exactly the members parsed in order, and each has only object roots in the final table |
| TypeParser.IntersectionMembersAppend | build/lib/src/parsers/type-parser.js:349-364 | the members are accepted one after another: those of `a + b` are those of `a`, then those of `b` from the state `a` left, and the first failure wins |
| TypeParser.FirstPrimitiveMemberFails | build/lib/src/parsers/type-parser.js:355-362 | the first member after the accepted ones whose roots are not all objects fails the members and the intersection with the primitive-type error |
| TypeParser.ParseIndexedAccess | build/lib/src/parsers/type-parser.js:380-399 | a bad key is reported first; then a root that does not parse to a reference fails; a success is the resolution of the chain from the root, in the state the root left |
| TypeParser.AccessChainAsWritten | build/lib/src/parsers/type-parser.js:447-467 | the chain lists the keys as written, outermost last; the outermost bad key is reported |
| TypeParser.ResolveObjectStep | build/lib/src/parsers/type-parser.js:409-415 | an object is entered through the first property named by the key; with no such property the resolution fails with `Indexed type property not found` |
| TypeParser.ResolveUnfold | build/lib/src/parsers/type-parser.js:407-422 | a reference is transparent to indexed access: the source's recursive equation holds on every success |
| TypeParser.ResolveMonotone | build/lib/src/parsers/type-parser.js:407-422 | opening more names never changes a successful resolution |
| TypeParser.ResolveChainComposes | build/lib/src/parsers/type-parser.js:407-422 | resolving `A[k1]...[kn]` is resolving one key at a time |
| TypeParser.DeclarationIdempotent | build/lib/src/parsers/type-parser.js:124-159 | parsing a declaration again in the state it left changes nothing and yields the same reference |
| TypeParser.DefinedTwiceFails | build/lib/src/parsers/type-parser.js:124-133 | a registered name declared at another location fails, however much the table has grown since |
| TypeParser.FirstSightRegisters | build/lib/src/parsers/type-parser.js:134-159 | the first sight registers the parsed body with the trimmed doc under the name and location, grows the table by one and keeps all else |
| TypeParser.ParseDefinedSingle | build/lib/src/parsers/type-parser.js:326-329 | a union with one member left is that member's type |
| TypeParser.UnionIgnoresUndefined | build/lib/src/parsers/type-parser.js:313-325 | `undefined` members are dropped before anything else happens |
| EndpointParser.ParseMethod | build/lib/src/parsers/endpoint-parser.js:19-24 | exactly the five method names are accepted, each as its own method; anything else fails with `expected a HttpMethod, got ...` |
| EndpointParser.TagOf | build/lib/src/parsers/endpoint-parser.js:100-120 | a tag is a string literal, trimmed, non-blank and of tag characters only |
| EndpointParser.ExtractTags | build/lib/src/parsers/endpoint-parser.js:94-133 | no `tags` gives none; the first bad element fails, then repeated tags fail |
| EndpointParser.TagsKept | build/lib/src/parsers/endpoint-parser.js:94-133 | valid, distinct trimmed tags are accepted: every declared tag is kept, trimmed, each valid and occurring once |
| EndpointParser.TagsAscendingArrangement | build/lib/src/parsers/endpoint-parser.js:124-132 | accepted tags come back as the one ascending arrangement of the trimmed declared tags |
| EndpointParser.ExtractPath | build/lib/src/parsers/endpoint-parser.js:134-149 | a path naming a dynamic component twice is rejected |
| EndpointParser.PathParamsError | build/lib/src/parsers/endpoint-parser.js:60-76 | every dynamic component needs a path parameter, checked first; then every path parameter needs a component |
| EndpointParser.ExtractResponses | build/lib/src/parsers/endpoint-parser.js:150-170 | the first failure, then repeated statuses fail; otherwise the responses sorted by status |
| EndpointParser.ResponsesOrderIndependent | build/lib/src/parsers/endpoint-parser.js:169 | the order in which responses are declared does not matter |
| EndpointParser.ParseEndpoint | build/lib/src/parsers/endpoint-parser.js:12-92 | method, tags, request, responses, default response and path are checked in that order, then path coverage; the first failing stage's error is the result |
| EndpointParser.ParsedEndpointConsistent | build/lib/src/parsers/endpoint-parser.js:12-92 | a parsed endpoint's path parameters are exactly its distinct dynamic components; its statuses are distinct and ascending |
| EndpointParser.ParsedContractCovered | build/lib/src/parsers/endpoint-parser.js:60-76 | parsed endpoints cover every dynamic component, which is what keeps the verifier's path check from throwing |
| MockMatcher.IsRequestForEndpoint | build/lib/src/mock-server/matcher.js:11-20 | false without the prefix or with another upper-cased method |
| MockMatcher.StaticEndpointMatch | build/lib/src/mock-server/matcher.js:18-19 | without dynamic components, a match exactly when the path is the prefix followed by the endpoint's path |
| MockMatcher.RoutedPathComponents | build/lib/src/mock-server/matcher.js:18-19 | a matched path has as many `/` after the prefix as the template |
| LintRules.PayloadFinding | build/lib/src/linting/rules/has-request-payload.js:21-38 | GET with a body, or POST/PATCH/PUT without one, is one violation; DELETE never is |
| LintRules.QueryFinding | build/lib/src/linting/rules/has-query-parameters.js:18-29 | PATCH/POST/PUT with a request holding a query parameter is one violation, nothing else is |
| LintRules.PayloadAppend | build/lib/src/linting/rules/has-request-payload.js:16-44 | at most one violation per endpoint, in endpoint order |
| LintRules.QueryAppend | build/lib/src/linting/rules/has-query-parameters.js:14-35 | at most one violation per endpoint, in endpoint order |
| LintRules.PayloadClean | build/lib/src/linting/rules/has-request-payload.js:16-44 | a contract passes exactly when every endpoint does |
| LintRules.QueryClean | build/lib/src/linting/rules/has-query-parameters.js:14-35 | a contract passes exactly when every endpoint does |
| LintRules.ExemptMethods | build/lib/src/linting/rules/has-query-parameters.js:18-20 | GET and DELETE never have query findings; DELETE never has payload findings |
| ProxyConfigs.Protocol | build/cli/src/common/infer-proxy-config.js:7 | the prefix of the URL up to its first `://` (none occurs earlier, one follows), the whole URL when there is none |
| ProxyConfigs.InferProxyConfig | build/cli/src/common/infer-proxy-config.js:3-15 | no proxy for an absent or empty URL; success exactly for an `http` or `https` protocol, with the URL unchanged |
| ProxyConfigs.ProtocolOfScheme | build/cli/src/common/infer-proxy-config.js:7 | a colon-free scheme is read back from `scheme://rest` |
| ProxyConfigs.InferScheme | build/cli/src/common/infer-proxy-config.js:8-14 | `http://` and `https://` URLs are accepted with their scheme; other colon-free schemes are rejected |

## Left out

- The string validator, the JSON-schema validator (`ajv`, with its JSON schema emitter), `JSON.stringify`, and the
  `url.parse` plus `qs` query parser are parameters of the verifier. Their results are taken as given.
- The verifier's throw when `ajv` reports invalid without errors cannot happen with the validator as a parameter.
- The query parser's treatment of prototype keys such as `__proto__` is the oracle's business.
- JavaScript's enumeration of integer-like object keys before other keys is not modelled. Objects keep insertion order.
- Letter case is folded for ASCII letters only, for header names and methods.
- The TypeScript compiler (`ts-morph`) is not modelled. Its answers are folded into `TypeParser.TypeNode` and
  `EndpointParser.EndpointDeclaration`: the declaration a reference resolves to, literal kinds, JSDoc text and
  the parsed request and responses.
- The request, response, header, path-param and query-param parsers are not part of this model. Their results
  are inputs of `EndpointParser.ParseEndpoint`.
- A reference cycle gives `Err("Maximum call stack size exceeded")`, where the source overflows the stack.
- TypeParser.ParseTypeReference: the `location#line` prefix of the "not one declaration" message is left out. The two thrown errors (not one declaration, and a declaration of another kind) are returned as `Err`, like the rejected `Map` and enums.
- TypeParser.ParseRoot: an `Array<T>` root of an indexed access is taken as a reference to `Array`, which does not
  resolve to one declaration. TypeParser.ParseType treats an `Array` reference without type arguments the same way.
- `isString` and `isNumber` of the built-in alias check are modelled as the alias being the `string` or `number`
  keyword.
- The location table of the type parser is keyed by type name only, and locations are numbers.
- TypeParser.ParseUnion: an error does not imply zero members left, because a member's own error or a failed
  discriminator inference is an error too.
- TypeParser: a declaration that refers to itself (`interface Node { children: Node[] }`) cannot be written as a
  finite `TypeNode`. The source parses the body before it registers the name, so it recurses on such a
  declaration until the stack overflows.
- Numbers are opaque reals. `Number.isInteger` is `Floor == value`, and floating-point rounding is not modelled.
- The mock server, the proxy, the CLI commands, file output and the lint-rule registry are I/O and are left out.
- `example-parser.js` (JSDoc and `JSON.parse`) is left out. Examples are inputs.
- The regular expressions built from templates are modelled as pattern items, with literal characters and
  wildcards. Templates are assumed to hold no regular expression metacharacters.

## Findings

| source | as written | input that shows it | evidently intended | confidence | as-written member | corrected member |
|---|---|---|---|---|---|---|
| build/lib/src/validation-server/verifications/contract-mismatcher.js:317-335 and 190-193 | the endpoint pattern replaces each `:param` by `.+`, which also matches `/`; the path comparison then meets a component-count mismatch that its comment says never happens, and throws | `GET /a/x/y` against an endpoint `GET /a/:b` | a wildcard matches one path component, as in the mock server's `[^/]+`, so the request is an undefined endpoint | not executed | ContractMismatcher.OverlongPathThrows | ContractMismatcher.OverlongPathRejected |
