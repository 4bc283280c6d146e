/** The OpenAPI 3 schema emitter (lib/src/generators/openapi3/openapi3-type-util.js):
    `typeToSchemaOrReferenceObject` turns a type into a schema object or a
    `$ref` to `#/components/schemas/<name>`. A JavaScript `throw` is an `Err`
    carrying the thrown message. Absent JSON members (`undefined`) are `None`. */
module OpenApi3Schemas {
  import opened Util
  import opened Dicts
  import opened Types
  import opened Narrowing
  import opened Resolution
  import opened Discriminators
  import opened SchemaCommon

  const SchemaPrefix := "#/components/schemas/"
  const ExpectedReference := "Unexpected error: expected reference type"
  const ExpectedObjectReference := "Unexpected error: expected object reference type"
  const DiscriminatorObjectMissing := "Unexpected error: could not find expected discriminator property in objects"
  const DiscriminatorNotStringLiteral := "Unexpected error: expected discriminator property type to be a string literal"

  /** `{ propertyName, mapping }`; the mapping takes a discriminator value to a `$ref`. */
  datatype Discriminator3 = Discriminator3(propertyName: string, mapping: Option<Dict<string, string>>)

  /** A schema object or reference object. `nullable` is `Some(true)` or absent. */
  datatype Schema3 =
    | Ref3(ref: string, nullable: Option<bool>)
    | Scalar3(schemaType: SchemaType, enumValues: Option<seq<EnumValue>>, format: Option<string>,
              nullable: Option<bool>, description: Option<string>)
    | Object3(properties: Dict<string, Schema3>, required: Option<seq<string>>,
              nullable: Option<bool>, description: Option<string>)
    | Array3(items: Schema3, nullable: Option<bool>, description: Option<string>)
    | OneOf3(oneOf: seq<Schema3>, discriminator: Option<Discriminator3>, nullable: Option<bool>, description: Option<string>)
    | AllOf3(allOf: seq<Schema3>, nullable: Option<bool>, description: Option<string>)

  /** `referenceObjectValue(name)` */
  function ReferenceObjectValue(name: string): (r: string)
    ensures |r| == |SchemaPrefix| + |name|
    ensures r[..|SchemaPrefix|] == SchemaPrefix && r[|SchemaPrefix|..] == name
  {
    SchemaPrefix + name
  }

  /** The two halves of a reference path determine the name. */
  lemma ReferenceObjectValueInjective(a: string, b: string)
    ensures ReferenceObjectValue(a) == ReferenceObjectValue(b) <==> a == b
  {
    if ReferenceObjectValue(a) == ReferenceObjectValue(b) {
      assert a == ReferenceObjectValue(a)[|SchemaPrefix|..];
    }
  }

  /** `booleanSchema`, `stringSchema`, `numberSchema`, `integerSchema` */
  function ScalarSchema(info: ScalarInfo, nullable: bool): (s: Schema3)
    ensures s.Scalar3? && s.schemaType == info.schemaType && s.format == info.format
    ensures s.enumValues == CreateEnum(info.values, nullable) && s.nullable == NullableField(nullable)
  {
    Scalar3(info.schemaType, CreateEnum(info.values, nullable), info.format, NullableField(nullable), None)
  }

  /** `propType.description = property.description` unless `propType` is a reference object. */
  function WithDescription(s: Schema3, d: Option<string>): (r: Schema3)
    ensures s.Ref3? ==> r == s
    ensures !s.Ref3? ==> !r.Ref3? && r.description == d && r.(description := None) == s.(description := None)
  {
    if s.Ref3? then s else s.(description := d)
  }

  /** `typeToSchemaOrReferenceObject(type, typeTable, nullable)` */
  function ToSchema(t: Type, tt: TypeTable, nullable: bool): (r: Result<Schema3, string>)
    decreases t, 2
    ensures t.Null? ==> r == Err(NullMessage3)
    ensures ScalarInfoOf(t).Some? ==> r == Ok(ScalarSchema(ScalarInfoOf(t).value, nullable))
    ensures t.Reference? ==> r == Ok(Ref3(ReferenceObjectValue(t.name), NullableField(nullable)))
    ensures r.Ok? ==> r.value.nullable != Some(false)
    ensures r.Ok? && !r.value.Ref3? ==> r.value.description.None?
  {
    match t
    case Null => Err(NullMessage3)
    case Object(props) => ObjectSchema(props, tt, nullable)
    case Array(e) =>
      var items :- ToSchema(e, tt, false);
      Ok(Array3(items, NullableField(nullable), None))
    case Union(ts, d) => UnionSchema(ts, d, tt)
    case Intersection(ts) => IntersectionSchema(ts, tt)
    case Reference(name) => Ok(Ref3(ReferenceObjectValue(name), NullableField(nullable)))
    case _ => Ok(ScalarSchema(ScalarInfoOf(t).value, nullable))
  }

  /** `objectTypeToSchema`: `properties` is absent (here: empty) for an object
      without properties, `required` is absent when every property is optional. */
  function ObjectSchema(props: seq<Property>, tt: TypeTable, nullable: bool): (r: Result<Schema3, string>)
    decreases props, 1
    ensures r.Ok? ==> r.value.Object3? && r.value.nullable == NullableField(nullable) && r.value.description.None?
    ensures r.Ok? ==> (|r.value.properties| == 0 <==> |props| == 0)
    ensures r.Ok? ==> (r.value.required.None? <==> |RequiredNames(props)| == 0)
    ensures r.Ok? && r.value.required.Some? ==> r.value.required.value == RequiredNames(props)
  {
    var properties :-
      if |props| > 0 then (var entries :- PropertyEntries(props, tt); Ok(FromPairs(entries)))
      else Ok([]);
    var required := RequiredNames(props);
    Ok(Object3(properties, if |required| > 0 then Some(required) else None, NullableField(nullable), None))
  }

  /** The `[name, schema]` pairs the property `reduce` stores, in order. */
  function PropertyEntries(props: seq<Property>, tt: TypeTable): (r: Result<seq<(string, Schema3)>, string>)
    decreases props, 0
    ensures r.Ok? ==> |r.value| == |props|
    ensures r.Ok? ==> forall i :: 0 <= i < |props| ==>
      r.value[i].0 == props[i].name && ToSchema(props[i].propertyType, tt, false).Ok?
      && r.value[i].1 == WithDescription(ToSchema(props[i].propertyType, tt, false).value, props[i].description)
  {
    if |props| == 0 then Ok([])
    else
      var s :- ToSchema(props[0].propertyType, tt, false);
      var rest :- PropertyEntries(props[1..], tt);
      assert forall i :: 1 <= i < |props| ==> props[i] == props[1..][i - 1];
      Ok([(props[0].name, WithDescription(s, props[0].description))] + rest)
  }

  /** `unionTypeToSchema`: unions are not flattened; a lone non-null member is
      emitted itself, possibly nullable; same-kind literal members become one
      enum; anything else becomes `oneOf`. The nullability passed in by the
      caller is not used. */
  function UnionSchema(ts: seq<Type>, d: Option<string>, tt: TypeTable): (r: Result<Schema3, string>)
    decreases ts, 2
    ensures |ts| == 0 ==> r == Err(EmptyUnionMessage)
    ensures |ts| > 0 && |NonNull(ts)| == 0 ==> r == Err(NullMessage3)
    ensures r.Ok? ==> r.value.nullable != Some(false)
    ensures r.Ok? && !r.value.Ref3? ==> r.value.description.None?
  {
    if |ts| == 0 then Err(EmptyUnionMessage)
    else
      var nullable := HasNull(ts);
      var nonNull := NonNull(ts);
      if |nonNull| == 0 then Err(NullMessage3)
      else if |nonNull| == 1 then
        assert nonNull[0] in ts;
        ToSchema(nonNull[0], tt, nullable)
      else
        match LiteralUnionInfo(nonNull)
        case Some(info) => Ok(ScalarSchema(info, nullable))
        case None => OneOfSchema(ts, d, tt)
  }

  /** The `oneOf` of the non-null members, with the discriminator object. */
  function OneOfSchema(ts: seq<Type>, d: Option<string>, tt: TypeTable): (r: Result<Schema3, string>)
    decreases ts, 1
    ensures r.Ok? ==> r.value.OneOf3? && r.value.nullable == NullableField(HasNull(ts)) && r.value.description.None?
  {
    var oneOf :- EmitNonNull(ts, tt);
    var discriminator :- DiscriminatorObject(ts, d, tt);
    Ok(OneOf3(oneOf, discriminator, NullableField(HasNull(ts)), None))
  }

  /** `intersectionTypeToSchema`: `allOf` of the non-null members, nullable when one is null. */
  function IntersectionSchema(ts: seq<Type>, tt: TypeTable): (r: Result<Schema3, string>)
    decreases ts, 1
    ensures |ts| == 0 ==> r == Err(EmptyIntersectionMessage)
    ensures r.Ok? ==> r.value.AllOf3? && r.value.nullable == NullableField(HasNull(ts)) && r.value.description.None?
  {
    if |ts| == 0 then Err(EmptyIntersectionMessage)
    else
      var allOf :- EmitNonNull(ts, tt);
      Ok(AllOf3(allOf, NullableField(HasNull(ts)), None))
  }

  /** `nonNullTypes.map(t => typeToSchemaOrReferenceObject(t, typeTable))` */
  function EmitNonNull(ts: seq<Type>, tt: TypeTable): (r: Result<seq<Schema3>, string>)
    decreases ts, 0
  {
    if |ts| == 0 then Ok([])
    else if ts[0].Null? then EmitNonNull(ts[1..], tt)
    else
      var s :- ToSchema(ts[0], tt, false);
      var rest :- EmitNonNull(ts[1..], tt);
      Ok([s] + rest)
  }

  // ----- The discriminator object -----

  /** The member is a reference whose roots are all objects. */
  predicate IsObjectReference(t: Type, tt: TypeTable) {
    t.Reference? && PossibleRootTypes(t, tt).Ok? && AllObjects(PossibleRootTypes(t, tt).value)
  }

  /** `nonNullTypes.every(t => isReferenceType(t) && possibleRootTypes(t).every(isObjectType))`:
      the test stops at the first member that fails it, and fails with the
      first error a root computation meets before that. */
  function ObjectReferencesOnly(ts: seq<Type>, tt: TypeTable): (r: Result<bool, string>)
    ensures r == Ok(true) <==> forall i :: 0 <= i < |ts| ==> IsObjectReference(ts[i], tt)
    ensures r.Err? ==> exists i :: 0 <= i < |ts| && ts[i].Reference? && PossibleRootTypes(ts[i], tt).Err?
  {
    if |ts| == 0 then Ok(true)
    else if !ts[0].Reference? then Ok(false)
    else
      var roots :- PossibleRootTypes(ts[0], tt);
      if AllObjects(roots) then
        var r := ObjectReferencesOnly(ts[1..], tt);
        ObjectReferencesTail(ts, tt);
        r
      else Ok(false)
  }

  /** Past an object reference at the head, the list passes or fails as its tail does. */
  lemma ObjectReferencesTail(ts: seq<Type>, tt: TypeTable)
    requires |ts| > 0 && IsObjectReference(ts[0], tt)
    ensures (forall i :: 0 <= i < |ts| ==> IsObjectReference(ts[i], tt)) <==>
      forall i :: 0 <= i < |ts[1..]| ==> IsObjectReference(ts[1..][i], tt)
    ensures (exists i :: 0 <= i < |ts[1..]| && ts[1..][i].Reference? && PossibleRootTypes(ts[1..][i], tt).Err?) ==>
      exists i :: 0 <= i < |ts| && ts[i].Reference? && PossibleRootTypes(ts[i], tt).Err?
  {
    assert forall i :: 1 <= i < |ts| ==> ts[i] == ts[1..][i - 1];
    if exists i :: 0 <= i < |ts[1..]| && ts[1..][i].Reference? && PossibleRootTypes(ts[1..][i], tt).Err? {
      var i :| 0 <= i < |ts[1..]| && ts[1..][i].Reference? && PossibleRootTypes(ts[1..][i], tt).Err?;
      assert ts[i + 1] == ts[1..][i];
    }
  }

  /** The discriminator property of the first root object that has one (`concreteTypes.find`). */
  function DiscriminatorProperty(roots: seq<Type>, p: string): (r: Option<Property>)
    requires AllObjects(roots)
    ensures r.None? <==> forall i :: 0 <= i < |roots| ==> PropertyNamed(roots[i].properties, p).None?
    ensures r.Some? ==> exists i ::
      0 <= i < |roots| && PropertyNamed(roots[i].properties, p) == r && forall j :: 0 <= j < i ==> PropertyNamed(roots[j].properties, p).None?
  {
    if |roots| == 0 then None
    else if PropertyNamed(roots[0].properties, p).Some? then PropertyNamed(roots[0].properties, p)
    else
      var r := DiscriminatorProperty(roots[1..], p);
      assert forall i :: 1 <= i < |roots| ==> roots[i] == roots[1..][i - 1];
      if r.Some? then
        var i :| 0 <= i < |roots[1..]| && PropertyNamed(roots[1..][i].properties, p) == r
          && forall j :: 0 <= j < i ==> PropertyNamed(roots[1..][j].properties, p).None?;
        assert PropertyNamed(roots[i + 1].properties, p) == r;
        r
      else r
  }

  /** One mapping entry: the member's discriminator value and its `$ref`, with
      the source's sanity checks in their order. */
  function DiscriminatorEntry(t: Type, p: string, tt: TypeTable): (r: Result<(string, string), string>)
    ensures !t.Reference? ==> r == Err(ExpectedReference)
    ensures r.Ok? ==> t.Reference? && r.value.1 == ReferenceObjectValue(t.name)
  {
    if !t.Reference? then Err(ExpectedReference)
    else
      var roots :- PossibleRootTypes(t, tt);
      if !AllObjects(roots) then Err(ExpectedObjectReference)
      else
        match DiscriminatorProperty(roots, p)
        case None => Err(DiscriminatorObjectMissing)
        case Some(prop) =>
          var pt :- Dereference(prop.propertyType, tt);
          if pt.StringLiteral? then Ok((pt.stringValue, ReferenceObjectValue(t.name)))
          else Err(DiscriminatorNotStringLiteral)
  }

  /** The entries of every member, in member order; the first failure wins. */
  function DiscriminatorEntries(ts: seq<Type>, p: string, tt: TypeTable): (r: Result<seq<(string, string)>, string>)
    ensures r.Ok? ==> |r.value| == |ts|
    ensures r.Ok? ==> forall i :: 0 <= i < |ts| ==> DiscriminatorEntry(ts[i], p, tt) == Ok(r.value[i])
  {
    if |ts| == 0 then Ok([])
    else
      var e :- DiscriminatorEntry(ts[0], p, tt);
      var rest :- DiscriminatorEntries(ts[1..], p, tt);
      assert forall i :: 1 <= i < |ts| ==> ts[i] == ts[1..][i - 1];
      Ok([e] + rest)
  }

  /** `unionTypeToDiscrimintorObject`: absent without a discriminator; just the
      property name unless every non-null member is an object reference; then
      also the mapping from each member's discriminator value to its `$ref`. */
  function DiscriminatorObject(ts: seq<Type>, d: Option<string>, tt: TypeTable): (r: Result<Option<Discriminator3>, string>)
    ensures d.None? ==> r == Ok(None)
    ensures d.Some? && r.Ok? ==> r.value.Some? && r.value.value.propertyName == d.value
  {
    match d
    case None => Ok(None)
    case Some(p) =>
      var nonNull := NonNull(ts);
      var referencesOnly :- ObjectReferencesOnly(nonNull, tt);
      if !referencesOnly then Ok(Some(Discriminator3(p, None)))
      else
        var entries :- DiscriminatorEntries(nonNull, p, tt);
        Ok(Some(Discriminator3(p, Some(FromPairs(entries)))))
  }

  // ----- Laws -----

  /** Emitting each type of a list in order, without nullability: the reference
      definition of `.map(t => typeToSchemaOrReferenceObject(t, typeTable))`. */
  function EmitEach(xs: seq<Type>, tt: TypeTable): (r: Result<seq<Schema3>, string>)
  {
    if |xs| == 0 then Ok([])
    else
      var s :- ToSchema(xs[0], tt, false);
      var rest :- EmitEach(xs[1..], tt);
      Ok([s] + rest)
  }

  /** `EmitEach` succeeds exactly when every member does, and then holds every
      member's schema at the member's position. */
  lemma {:induction false} EmitEachSpec(xs: seq<Type>, tt: TypeTable)
    ensures EmitEach(xs, tt).Ok? <==> forall i :: 0 <= i < |xs| ==> ToSchema(xs[i], tt, false).Ok?
    ensures EmitEach(xs, tt).Ok? ==>
      |EmitEach(xs, tt).value| == |xs| && forall i :: 0 <= i < |xs| ==> ToSchema(xs[i], tt, false) == Ok(EmitEach(xs, tt).value[i])
  {
    if |xs| > 0 {
      EmitEachSpec(xs[1..], tt);
      assert forall i :: 1 <= i < |xs| ==> xs[i] == xs[1..][i - 1];
    }
  }

  /** Skipping the nulls while emitting is emitting the non-null members. */
  lemma {:induction false} EmitNonNullEach(ts: seq<Type>, tt: TypeTable)
    ensures EmitNonNull(ts, tt) == EmitEach(NonNull(ts), tt)
  {
    if |ts| > 0 {
      EmitNonNullEach(ts[1..], tt);
      var rest := NonNull(ts[1..]);
      if ts[0].Null? {
        assert NonNull(ts) == [] + rest == rest;
        assert EmitNonNull(ts, tt) == EmitNonNull(ts[1..], tt);
      } else {
        var xs := [ts[0]] + rest;
        assert NonNull(ts) == xs;
        assert xs[0] == ts[0] && xs[1..] == rest;
        EmitEachCons(xs, tt);
      }
    }
  }

  lemma EmitEachCons(xs: seq<Type>, tt: TypeTable)
    requires |xs| > 0
    ensures EmitEach(xs, tt) ==
      match ToSchema(xs[0], tt, false)
      case Err(e) => Err(e)
      case Ok(s) => (match EmitEach(xs[1..], tt) case Err(e) => Err(e) case Ok(rest) => Ok([s] + rest))
  {
  }

  /** A union with one non-null member is that member's schema, nullable
      exactly when a `null` is among the members. */
  lemma LoneMemberUnion(ts: seq<Type>, d: Option<string>, tt: TypeTable, nullable: bool)
    requires |NonNull(ts)| == 1
    ensures ToSchema(Union(ts, d), tt, nullable) == ToSchema(NonNull(ts)[0], tt, HasNull(ts))
  {
    UnionIsUnionSchema(ts, d, tt, nullable);
    assert |ts| > 0;
  }

  /** `T | null` is the schema of `T` with `nullable: true`; `null | T` too. */
  lemma NullableUnion(t: Type, d: Option<string>, tt: TypeTable, nullable: bool)
    requires !t.Null?
    ensures ToSchema(Union([t, Null], d), tt, nullable) == ToSchema(t, tt, true)
    ensures ToSchema(Union([Null, t], d), tt, nullable) == ToSchema(t, tt, true)
    ensures ToSchema(Union([t], d), tt, nullable) == ToSchema(t, tt, false)
  {
    assert NonNull([t, Null]) == [t] by { assert [t, Null][1..] == [Null]; assert [Null][1..] == []; }
    assert HasNull([t, Null]) by { assert [t, Null][1].Null?; }
    LoneMemberUnion([t, Null], d, tt, nullable);
    assert NonNull([Null, t]) == [t] by { assert [Null, t][1..] == [t]; assert [t][1..] == []; }
    assert HasNull([Null, t]) by { assert [Null, t][0].Null?; }
    LoneMemberUnion([Null, t], d, tt, nullable);
    assert NonNull([t]) == [t] by { assert [t][1..] == []; }
    LoneMemberUnion([t], d, tt, nullable);
  }

  /** A union of two or more literals of one family is an enum of the member
      values in order, then `null` when the union is nullable, with the type and
      format of the members' own schemas. */
  lemma LiteralUnionEnum(ts: seq<Type>, d: Option<string>, tt: TypeTable, nullable: bool, f: Family)
    requires |NonNull(ts)| >= 2 && AllFamilyLiterals(NonNull(ts), f)
    ensures var nonNull := NonNull(ts);
      var r := ToSchema(Union(ts, d), tt, nullable);
      var first := ScalarInfoOf(nonNull[0]).value;
      r.Ok? && r.value.Scalar3? && r.value.schemaType == first.schemaType && r.value.format == first.format
      && r.value.nullable == NullableField(HasNull(ts))
      && r.value.enumValues == Some(LiteralValues(nonNull) + (if HasNull(ts) then [EnumNull] else []))
  {
    var nonNull := NonNull(ts);
    LiteralUnionOfFamily(nonNull, f);
    var info := LiteralUnionInfo(nonNull).value;
    UnionIsUnionSchema(ts, d, tt, nullable);
    UnionSchemaIsLiteral(ts, d, tt);
    assert info.values == Some(LiteralValues(nonNull));
    if HasNull(ts) {
      assert CreateEnum(info.values, true) == Some(LiteralValues(nonNull) + [EnumNull]);
    } else {
      assert LiteralValues(nonNull) + [] == LiteralValues(nonNull);
    }
  }

  /** Any other union of two or more non-null members is `oneOf` their schemas
      in member order, with the discriminator object; it fails exactly when a
      member or the discriminator object fails. */
  lemma OneOfUnion(ts: seq<Type>, d: Option<string>, tt: TypeTable, nullable: bool)
    requires |NonNull(ts)| >= 2 && forall f: Family :: !AllFamilyLiterals(NonNull(ts), f)
    ensures var r := ToSchema(Union(ts, d), tt, nullable);
      r.Ok? <==> EmitEach(NonNull(ts), tt).Ok? && DiscriminatorObject(ts, d, tt).Ok?
    ensures var r := ToSchema(Union(ts, d), tt, nullable);
      r.Ok? ==> (r.value.OneOf3? && r.value.oneOf == EmitEach(NonNull(ts), tt).value
        && r.value.discriminator == DiscriminatorObject(ts, d, tt).value
        && r.value.nullable == NullableField(HasNull(ts)))
  {
    UnionIsOneOf(ts, d, tt, nullable);
    EmitNonNullEach(ts, tt);
  }

  lemma UnionIsOneOf(ts: seq<Type>, d: Option<string>, tt: TypeTable, nullable: bool)
    requires |NonNull(ts)| >= 2 && forall f: Family :: !AllFamilyLiterals(NonNull(ts), f)
    ensures ToSchema(Union(ts, d), tt, nullable) == OneOfSchema(ts, d, tt)
  {
    UnionIsUnionSchema(ts, d, tt, nullable);
    UnionSchemaIsOneOf(ts, d, tt);
  }

  lemma UnionIsUnionSchema(ts: seq<Type>, d: Option<string>, tt: TypeTable, nullable: bool)
    ensures ToSchema(Union(ts, d), tt, nullable) == UnionSchema(ts, d, tt)
  {
  }

  lemma UnionSchemaIsLiteral(ts: seq<Type>, d: Option<string>, tt: TypeTable)
    requires |NonNull(ts)| >= 2 && LiteralUnionInfo(NonNull(ts)).Some?
    ensures UnionSchema(ts, d, tt) == Ok(ScalarSchema(LiteralUnionInfo(NonNull(ts)).value, HasNull(ts)))
  {
    assert |ts| > 0;
  }

  lemma UnionSchemaIsOneOf(ts: seq<Type>, d: Option<string>, tt: TypeTable)
    requires |NonNull(ts)| >= 2 && forall f: Family :: !AllFamilyLiterals(NonNull(ts), f)
    ensures UnionSchema(ts, d, tt) == OneOfSchema(ts, d, tt)
  {
    assert |ts| > 0;
    assert LiteralUnionInfo(NonNull(ts)).None?;
  }

  /** An object's `properties` holds, for each property name, the schema of the
      last property of that name with its description attached; without
      repeated names it lists every property in order. It fails exactly when a
      property type fails. */
  lemma ObjectProperties(props: seq<Property>, tt: TypeTable, nullable: bool)
    requires |props| > 0
    ensures var r := ToSchema(Object(props), tt, nullable);
      r.Ok? <==> forall i :: 0 <= i < |props| ==> ToSchema(props[i].propertyType, tt, false).Ok?
    ensures var r := ToSchema(Object(props), tt, nullable);
      r.Ok? ==> (DistinctKeys(r.value.properties)
        && (forall i :: 0 <= i < |props| ==> Has(r.value.properties, props[i].name))
        && (forall n :: Has(r.value.properties, n) ==> exists i :: 0 <= i < |props| && props[i].name == n))
    ensures var r := ToSchema(Object(props), tt, nullable);
      r.Ok? && DistinctPropertyNames(props) ==> (|r.value.properties| == |props|
        && forall i :: 0 <= i < |props| ==>
             r.value.properties[i] == (props[i].name, WithDescription(ToSchema(props[i].propertyType, tt, false).value, props[i].description)))
  {
    PropertyEntriesOk(props, tt);
    ObjectIsObjectSchema(props, tt, nullable);
    var entries := PropertyEntries(props, tt);
    if entries.Ok? {
      PropertiesObject(props, entries.value);
    }
  }

  /** An object type's schema is built from its property entries. */
  lemma ObjectIsObjectSchema(props: seq<Property>, tt: TypeTable, nullable: bool)
    requires |props| > 0
    ensures ToSchema(Object(props), tt, nullable).Ok? <==> PropertyEntries(props, tt).Ok?
    ensures ToSchema(Object(props), tt, nullable).Ok? ==>
      ToSchema(Object(props), tt, nullable).value.properties == FromPairs(PropertyEntries(props, tt).value)
  {
    assert ToSchema(Object(props), tt, nullable) == ObjectSchema(props, tt, nullable);
  }

  /** The object built from pairs keyed by the property names has exactly
      those names as keys; with distinct names it is the pairs themselves. */
  lemma PropertiesObject<V>(props: seq<Property>, es: seq<(string, V)>)
    requires |es| == |props| && forall i :: 0 <= i < |props| ==> es[i].0 == props[i].name
    ensures DistinctKeys(FromPairs(es))
    ensures forall i :: 0 <= i < |props| ==> Has(FromPairs(es), props[i].name)
    ensures forall n :: Has(FromPairs(es), n) ==> exists i :: 0 <= i < |props| && props[i].name == n
    ensures DistinctPropertyNames(props) ==> FromPairs(es) == es
  {
    forall n
      ensures Has(FromPairs(es), n) <==> Mentions(es, n)
    {
      FromPairsHas(es, n);
    }
    if DistinctPropertyNames(props) {
      assert DistinctKeys(es);
      FromPairsDistinct(es);
    }
  }

  lemma {:induction false} PropertyEntriesOk(props: seq<Property>, tt: TypeTable)
    ensures PropertyEntries(props, tt).Ok? <==> forall i :: 0 <= i < |props| ==> ToSchema(props[i].propertyType, tt, false).Ok?
  {
    if |props| > 0 {
      PropertyEntriesOk(props[1..], tt);
      assert forall i :: 1 <= i < |props| ==> props[i] == props[1..][i - 1];
    }
  }

  /** When every non-null member is an object reference, the discriminator
      mapping takes each member's discriminator value to its `$ref`, the last
      member winning a repeated value; with distinct values it lists the
      members in order. Otherwise only the property name is emitted. */
  lemma DiscriminatorMapping(ts: seq<Type>, p: string, tt: TypeTable)
    requires DiscriminatorObject(ts, Some(p), tt).Ok?
    ensures var disc := DiscriminatorObject(ts, Some(p), tt).value.value;
      disc.mapping.Some? <==> forall i :: 0 <= i < |NonNull(ts)| ==> IsObjectReference(NonNull(ts)[i], tt)
    ensures var disc := DiscriminatorObject(ts, Some(p), tt).value.value;
      var nonNull := NonNull(ts);
      disc.mapping.Some? ==>
        var es := DiscriminatorEntries(nonNull, p, tt).value;
        |es| == |nonNull|
        && (forall i :: 0 <= i < |nonNull| ==> es[i].1 == ReferenceObjectValue(nonNull[i].name))
        && (forall v :: Get(disc.mapping.value, v) == LastValueOf(es, v))
        && (DistinctKeys(es) ==> disc.mapping.value == es)
  {
    var nonNull := NonNull(ts);
    var disc := DiscriminatorObject(ts, Some(p), tt).value.value;
    if disc.mapping.Some? {
      var es := DiscriminatorEntries(nonNull, p, tt).value;
      forall i | 0 <= i < |nonNull|
        ensures es[i].1 == ReferenceObjectValue(nonNull[i].name)
      {
        assert DiscriminatorEntry(nonNull[i], p, tt) == Ok(es[i]);
      }
      forall v
        ensures Get(disc.mapping.value, v) == LastValueOf(es, v)
      {
        FromPairsGet(es, v);
      }
      if DistinctKeys(es) {
        FromPairsDistinct(es);
      }
    }
  }
}
