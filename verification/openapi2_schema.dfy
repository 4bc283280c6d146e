/** The OpenAPI 2 schema emitter (lib/src/generators/openapi2/openapi2-type-util.js):
    `typeToSchemaObject`. It follows the OpenAPI 3 emitter except that
    nullability is the `x-nullable` extension, references point into
    `#/definitions/`, a nullable reference is wrapped in `allOf`, an
    intersection carries no nullability, and a union that is neither a lone
    member nor same-kind literals is rejected. The type table is passed along
    by the source but never consulted, so it is not a parameter here. */
module OpenApi2Schemas {
  import opened Util
  import opened Dicts
  import opened Types
  import opened Discriminators
  import opened SchemaCommon

  const DefinitionsPrefix := "#/definitions/"
  const UnionsUnsupported := "Unions are not supported in OpenAPI 2"

  /** A schema object. `xNullable` is `Some(true)` or absent. */
  datatype Schema2 =
    | Ref2(ref: string)
    | Scalar2(schemaType: SchemaType, enumValues: Option<seq<EnumValue>>, format: Option<string>,
              xNullable: Option<bool>, description: Option<string>)
    | Object2(properties: Dict<string, Schema2>, required: Option<seq<string>>,
              xNullable: Option<bool>, description: Option<string>)
    | Array2(items: Schema2, xNullable: Option<bool>, description: Option<string>)
    | AllOf2(allOf: seq<Schema2>, xNullable: Option<bool>, description: Option<string>)

  /** `referenceObjectValue(name)` */
  function ReferenceObjectValue(name: string): (r: string)
    ensures |r| == |DefinitionsPrefix| + |name|
    ensures r[..|DefinitionsPrefix|] == DefinitionsPrefix && r[|DefinitionsPrefix|..] == name
  {
    DefinitionsPrefix + name
  }

  /** `booleanSchema`, `stringSchema`, `numberSchema`, `integerSchema` */
  function ScalarSchema(info: ScalarInfo, nullable: bool): (s: Schema2)
    ensures s.Scalar2? && s.schemaType == info.schemaType && s.format == info.format
    ensures s.enumValues == CreateEnum(info.values, nullable) && s.xNullable == NullableField(nullable)
  {
    Scalar2(info.schemaType, CreateEnum(info.values, nullable), info.format, NullableField(nullable), None)
  }

  /** `propType.description = property.description` unless `propType` is a `$ref`. */
  function WithDescription(s: Schema2, d: Option<string>): (r: Schema2)
    ensures s.Ref2? ==> r == s
    ensures !s.Ref2? ==> !r.Ref2? && r.description == d && r.(description := None) == s.(description := None)
  {
    if s.Ref2? then s else s.(description := d)
  }

  /** `referenceTypeToSchema`: a nullable reference becomes `allOf` of the `$ref`. */
  function ReferenceSchema(name: string, nullable: bool): (s: Schema2)
    ensures !nullable ==> s == Ref2(ReferenceObjectValue(name))
    ensures nullable ==> s.AllOf2? && s.allOf == [Ref2(ReferenceObjectValue(name))] && s.xNullable == Some(true)
  {
    if nullable then AllOf2([Ref2(ReferenceObjectValue(name))], Some(true), None)
    else Ref2(ReferenceObjectValue(name))
  }

  /** `typeToSchemaObject(type, typeTable, nullable)` */
  function ToSchema(t: Type, nullable: bool): (r: Result<Schema2, string>)
    decreases t, 2
    ensures t.Null? ==> r == Err(NullMessage2)
    ensures ScalarInfoOf(t).Some? ==> r == Ok(ScalarSchema(ScalarInfoOf(t).value, nullable))
    ensures t.Reference? ==> r == Ok(ReferenceSchema(t.name, nullable))
    ensures r.Ok? && !r.value.Ref2? ==> r.value.xNullable != Some(false) && r.value.description.None?
  {
    match t
    case Null => Err(NullMessage2)
    case Object(props) => ObjectSchema(props, nullable)
    case Array(e) =>
      var items :- ToSchema(e, false);
      Ok(Array2(items, NullableField(nullable), None))
    case Union(ts, _) => UnionSchema(ts)
    case Intersection(ts) => IntersectionSchema(ts)
    case Reference(name) => Ok(ReferenceSchema(name, nullable))
    case _ => Ok(ScalarSchema(ScalarInfoOf(t).value, nullable))
  }

  /** `objectTypeToSchema` */
  function ObjectSchema(props: seq<Property>, nullable: bool): (r: Result<Schema2, string>)
    decreases props, 1
    ensures r.Ok? ==> r.value.Object2? && r.value.xNullable == NullableField(nullable) && r.value.description.None?
    ensures r.Ok? ==> (|r.value.properties| == 0 <==> |props| == 0)
    ensures r.Ok? ==> (r.value.required.None? <==> |RequiredNames(props)| == 0)
    ensures r.Ok? && r.value.required.Some? ==> r.value.required.value == RequiredNames(props)
  {
    var properties :-
      if |props| > 0 then (var entries :- PropertyEntries(props); Ok(FromPairs(entries)))
      else Ok([]);
    var required := RequiredNames(props);
    Ok(Object2(properties, if |required| > 0 then Some(required) else None, NullableField(nullable), None))
  }

  /** The `[name, schema]` pairs the property `reduce` stores, in order. */
  function PropertyEntries(props: seq<Property>): (r: Result<seq<(string, Schema2)>, string>)
    decreases props, 0
    ensures r.Ok? ==> |r.value| == |props|
    ensures r.Ok? ==> forall i :: 0 <= i < |props| ==>
      r.value[i].0 == props[i].name && ToSchema(props[i].propertyType, false).Ok?
      && r.value[i].1 == WithDescription(ToSchema(props[i].propertyType, false).value, props[i].description)
  {
    if |props| == 0 then Ok([])
    else
      var s :- ToSchema(props[0].propertyType, false);
      var rest :- PropertyEntries(props[1..]);
      assert forall i :: 1 <= i < |props| ==> props[i] == props[1..][i - 1];
      Ok([(props[0].name, WithDescription(s, props[0].description))] + rest)
  }

  /** `unionTypeToSchema`: as in OpenAPI 3, except that a union which is
      neither a lone member nor same-kind literals is rejected. */
  function UnionSchema(ts: seq<Type>): (r: Result<Schema2, string>)
    decreases ts, 1
    ensures |ts| == 0 ==> r == Err(EmptyUnionMessage)
    ensures |ts| > 0 && |NonNull(ts)| == 0 ==> r == Err(NullMessage2)
    ensures |NonNull(ts)| >= 2 && (forall f: Family :: !AllFamilyLiterals(NonNull(ts), f)) ==> r == Err(UnionsUnsupported)
  {
    if |ts| == 0 then Err(EmptyUnionMessage)
    else
      var nullable := HasNull(ts);
      var nonNull := NonNull(ts);
      if |nonNull| == 0 then Err(NullMessage2)
      else if |nonNull| == 1 then
        assert nonNull[0] in ts;
        ToSchema(nonNull[0], nullable)
      else
        match LiteralUnionInfo(nonNull)
        case Some(info) => Ok(ScalarSchema(info, nullable))
        case None => Err(UnionsUnsupported)
  }

  /** `intersectionTypeToSchema`: `allOf` of the non-null members, never nullable. */
  function IntersectionSchema(ts: seq<Type>): (r: Result<Schema2, string>)
    decreases ts, 1
    ensures |ts| == 0 ==> r == Err(EmptyIntersectionMessage)
    ensures r.Ok? ==> r.value.AllOf2? && r.value.xNullable.None? && r.value.description.None?
  {
    if |ts| == 0 then Err(EmptyIntersectionMessage)
    else
      var allOf :- EmitNonNull(ts);
      Ok(AllOf2(allOf, None, None))
  }

  /** `nonNullTypes.map(t => typeToSchemaObject(t, typeTable))` */
  function EmitNonNull(ts: seq<Type>): (r: Result<seq<Schema2>, string>)
    decreases ts, 0
  {
    if |ts| == 0 then Ok([])
    else if ts[0].Null? then EmitNonNull(ts[1..])
    else
      var s :- ToSchema(ts[0], false);
      var rest :- EmitNonNull(ts[1..]);
      Ok([s] + rest)
  }

  /** Emitting each type of a list in order, without nullability: the reference
      definition of `.map(t => typeToSchemaObject(t, typeTable))`. */
  function EmitEach(xs: seq<Type>): (r: Result<seq<Schema2>, string>)
  {
    if |xs| == 0 then Ok([])
    else
      var s :- ToSchema(xs[0], false);
      var rest :- EmitEach(xs[1..]);
      Ok([s] + rest)
  }

  /** `EmitEach` succeeds exactly when every member does, and then holds every
      member's schema at the member's position. */
  lemma {:induction false} EmitEachSpec(xs: seq<Type>)
    ensures EmitEach(xs).Ok? <==> forall i :: 0 <= i < |xs| ==> ToSchema(xs[i], false).Ok?
    ensures EmitEach(xs).Ok? ==>
      |EmitEach(xs).value| == |xs| && forall i :: 0 <= i < |xs| ==> ToSchema(xs[i], false) == Ok(EmitEach(xs).value[i])
  {
    if |xs| > 0 {
      EmitEachSpec(xs[1..]);
      assert forall i :: 1 <= i < |xs| ==> xs[i] == xs[1..][i - 1];
    }
  }

  /** Skipping the nulls while emitting is emitting the non-null members. */
  lemma {:induction false} EmitNonNullEach(ts: seq<Type>)
    ensures EmitNonNull(ts) == EmitEach(NonNull(ts))
  {
    if |ts| > 0 {
      EmitNonNullEach(ts[1..]);
      var rest := NonNull(ts[1..]);
      if ts[0].Null? {
        assert NonNull(ts) == [] + rest == rest;
        assert EmitNonNull(ts) == EmitNonNull(ts[1..]);
      } else {
        var xs := [ts[0]] + rest;
        assert NonNull(ts) == xs;
        assert xs[0] == ts[0] && xs[1..] == rest;
        EmitEachCons(xs);
      }
    }
  }

  lemma EmitEachCons(xs: seq<Type>)
    requires |xs| > 0
    ensures EmitEach(xs) ==
      match ToSchema(xs[0], false)
      case Err(e) => Err(e)
      case Ok(s) => (match EmitEach(xs[1..]) case Err(e) => Err(e) case Ok(rest) => Ok([s] + rest))
  {
  }
}
