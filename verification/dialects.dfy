/** How the OpenAPI 2 and OpenAPI 3 emitters relate. On a type without a
    union of different kinds (two or more non-null members that are not
    literals of one family) the two emitters succeed or fail together, and
    their schemas correspond: the same scalar `type`, `format` and `enum`, the
    same `required` lists, properties under the same names in the same order,
    `x-nullable` where OpenAPI 3 has `nullable`, a nullable `$ref` wrapped in
    `allOf`, and references into `#/definitions/` instead of
    `#/components/schemas/`. A type with such a union is rejected by the
    OpenAPI 2 emitter. */
module SchemaDialects {
  import opened Util
  import opened Dicts
  import opened Types
  import opened Discriminators
  import opened SchemaCommon
  import V3 = OpenApi3Schemas
  import V2 = OpenApi2Schemas

  /** Two or more non-null members that are not all literals of one family:
      OpenAPI 3 emits `oneOf`, OpenAPI 2 gives up. */
  predicate IsUnionOfKinds(ts: seq<Type>) {
    |NonNull(ts)| >= 2 && forall f: Family :: !AllFamilyLiterals(NonNull(ts), f)
  }

  /** Some union of different kinds occurs in the type, references not followed. */
  predicate HasUnionOfKinds(t: Type) {
    match t
    case Object(props) => exists i :: 0 <= i < |props| && HasUnionOfKinds(props[i].propertyType)
    case Array(e) => HasUnionOfKinds(e)
    case Union(ts, _) => IsUnionOfKinds(ts) || exists i :: 0 <= i < |ts| && HasUnionOfKinds(ts[i])
    case Intersection(ts) => exists i :: 0 <= i < |ts| && HasUnionOfKinds(ts[i])
    case _ => false
  }

  /** The name a reference object points at, when it has the OpenAPI 3 prefix. */
  predicate IsSchemaRef(r: string) {
    |r| >= |V3.SchemaPrefix| && r[..|V3.SchemaPrefix|] == V3.SchemaPrefix
  }

  /** An OpenAPI 3 schema and an OpenAPI 2 schema say the same thing. The
      `allOf` wrapper of a nullable OpenAPI 2 reference may carry a
      description, which the OpenAPI 3 reference object cannot. */
  predicate Corresponds(s3: V3.Schema3, s2: V2.Schema2) {
    match s3
    case Ref3(r, n) =>
      IsSchemaRef(r) &&
      var target := V2.Ref2(V2.ReferenceObjectValue(r[|V3.SchemaPrefix|..]));
      if n.Some? then s2.AllOf2? && s2.allOf == [target] && s2.xNullable == Some(true)
      else s2 == target
    case Scalar3(ty, en, fmt, n, d) => s2 == V2.Scalar2(ty, en, fmt, n, d)
    case Object3(props, req, n, d) =>
      && s2.Object2? && s2.required == req && s2.xNullable == n && s2.description == d
      && |props| == |s2.properties|
      && forall i :: 0 <= i < |props| ==> props[i].0 == s2.properties[i].0 && Corresponds(props[i].1, s2.properties[i].1)
    case Array3(items, n, d) => s2.Array2? && s2.xNullable == n && s2.description == d && Corresponds(items, s2.items)
    case OneOf3(_, _, _, _) => false
    case AllOf3(all, _, d) =>
      s2.AllOf2? && s2.xNullable.None? && s2.description == d && |all| == |s2.allOf|
      && forall i :: 0 <= i < |all| ==> Corresponds(all[i], s2.allOf[i])
  }

  /** Same keys in the same order, corresponding values. */
  predicate EntriesCorrespond(e3: Dict<string, V3.Schema3>, e2: Dict<string, V2.Schema2>) {
    |e3| == |e2| && forall i :: 0 <= i < |e3| ==> e3[i].0 == e2[i].0 && Corresponds(e3[i].1, e2[i].1)
  }

  /** Setting the same key in corresponding objects keeps them corresponding. */
  lemma {:induction false} PutCorresponds(d3: Dict<string, V3.Schema3>, d2: Dict<string, V2.Schema2>, k: string, v3: V3.Schema3, v2: V2.Schema2)
    requires EntriesCorrespond(d3, d2) && Corresponds(v3, v2)
    ensures EntriesCorrespond(Put(d3, k, v3), Put(d2, k, v2))
  {
    if |d3| > 0 && d3[0].0 != k {
      PutCorresponds(d3[1..], d2[1..], k, v3, v2);
      var r3 := Put(d3[1..], k, v3);
      var r2 := Put(d2[1..], k, v2);
      assert Put(d3, k, v3) == [d3[0]] + r3;
      assert Put(d2, k, v2) == [d2[0]] + r2;
    }
  }

  /** Objects built from corresponding pairs correspond. */
  lemma {:induction false} FromPairsCorrespond(e3: Dict<string, V3.Schema3>, e2: Dict<string, V2.Schema2>)
    requires EntriesCorrespond(e3, e2)
    ensures EntriesCorrespond(FromPairs(e3), FromPairs(e2))
  {
    if |e3| > 0 {
      var n := |e3| - 1;
      assert EntriesCorrespond(e3[..n], e2[..n]);
      FromPairsCorrespond(e3[..n], e2[..n]);
      PutCorresponds(FromPairs(e3[..n]), FromPairs(e2[..n]), e3[n].0, e3[n].1, e2[n].1);
    }
  }

  /** Attaching a description keeps schemas corresponding. */
  lemma WithDescriptionCorresponds(s3: V3.Schema3, s2: V2.Schema2, d: Option<string>)
    requires Corresponds(s3, s2)
    ensures Corresponds(V3.WithDescription(s3, d), V2.WithDescription(s2, d))
  {
  }

  /** A member of a union is a non-null member when it is not `null`. */
  lemma MemberOfNonNull(ts: seq<Type>, i: nat)
    requires i < |ts| && !ts[i].Null?
    ensures exists j :: 0 <= j < |NonNull(ts)| && NonNull(ts)[j] == ts[i]
  {
    assert ts[i] in NonNull(ts);
  }

  /** Both emitters on `t`: the OpenAPI 2 one fails on a union of kinds, and
      otherwise they succeed together with corresponding schemas. */
  predicate Agree(t: Type, tt: TypeTable, nullable: bool) {
    && (HasUnionOfKinds(t) ==> V2.ToSchema(t, nullable).Err?)
    && (!HasUnionOfKinds(t) ==> (V2.ToSchema(t, nullable).Ok? <==> V3.ToSchema(t, tt, nullable).Ok?))
    && (!HasUnionOfKinds(t) && V3.ToSchema(t, tt, nullable).Ok? ==>
          Corresponds(V3.ToSchema(t, tt, nullable).value, V2.ToSchema(t, nullable).value))
  }

  /** The OpenAPI 2 emitter rejects every union of different kinds; otherwise
      both emitters succeed or fail together and their schemas correspond. */
  lemma {:induction false} EmittersAgree(t: Type, tt: TypeTable, nullable: bool)
    decreases t, 3
    ensures Agree(t, tt, nullable)
  {
    if t.Object? {
      ObjectTypeAgrees(t, tt, nullable);
    } else if t.Array? {
      ArrayTypeAgrees(t, tt, nullable);
    } else if t.Union? {
      UnionTypeAgrees(t, tt, nullable);
    } else if t.Intersection? {
      IntersectionTypeAgrees(t, tt, nullable);
    } else {
      LeafTypeAgrees(t, tt, nullable);
    }
  }

  lemma {:induction false} ObjectTypeAgrees(t: Type, tt: TypeTable, nullable: bool)
    requires t.Object?
    decreases t, 2
    ensures Agree(t, tt, nullable)
  {
    ObjectsAgree(t.properties, tt, nullable);
  }

  lemma {:induction false} ArrayTypeAgrees(t: Type, tt: TypeTable, nullable: bool)
    requires t.Array?
    decreases t, 2
    ensures Agree(t, tt, nullable)
  {
    EmittersAgree(t.elementType, tt, false);
  }

  lemma {:induction false} UnionTypeAgrees(t: Type, tt: TypeTable, nullable: bool)
    requires t.Union?
    decreases t, 2
    ensures Agree(t, tt, nullable)
  {
    UnionsAgree(t.types, t.discriminator, tt);
  }

  lemma {:induction false} IntersectionTypeAgrees(t: Type, tt: TypeTable, nullable: bool)
    requires t.Intersection?
    decreases t, 2
    ensures Agree(t, tt, nullable)
  {
    IntersectionsAgree(t.types, tt);
  }

  /** Types without members: scalars, literals, `null` and references. */
  lemma LeafTypeAgrees(t: Type, tt: TypeTable, nullable: bool)
    requires !t.Object? && !t.Array? && !t.Union? && !t.Intersection?
    ensures Agree(t, tt, nullable)
  {
    if t.Reference? {
      ReferenceAgrees(t.name, tt, nullable);
    } else if t.Null? {
      assert !HasUnionOfKinds(t);
    } else {
      ScalarAgrees(t, tt, nullable);
    }
  }

  /** A reference: `#/components/schemas/` becomes `#/definitions/`. */
  lemma ReferenceAgrees(name: string, tt: TypeTable, nullable: bool)
    ensures Agree(Reference(name), tt, nullable)
  {
    assert V3.ReferenceObjectValue(name)[|V3.SchemaPrefix|..] == name;
  }

  /** A scalar or a literal: the same `type`, `format` and `enum`. */
  lemma ScalarAgrees(t: Type, tt: TypeTable, nullable: bool)
    requires ScalarInfoOf(t).Some?
    ensures Agree(t, tt, nullable)
  {
    var info := ScalarInfoOf(t).value;
    assert !HasUnionOfKinds(t);
    assert V3.ToSchema(t, tt, nullable) == Ok(V3.ScalarSchema(info, nullable));
    assert V2.ToSchema(t, nullable) == Ok(V2.ScalarSchema(info, nullable));
    ScalarSchemasCorrespond(info, nullable);
  }

  lemma ScalarSchemasCorrespond(info: ScalarInfo, nullable: bool)
    ensures Corresponds(V3.ScalarSchema(info, nullable), V2.ScalarSchema(info, nullable))
  {
  }

  lemma {:induction false} ObjectsAgree(props: seq<Property>, tt: TypeTable, nullable: bool)
    decreases props, 1
    ensures HasUnionOfKinds(Object(props)) ==> V2.ObjectSchema(props, nullable).Err?
    ensures !HasUnionOfKinds(Object(props)) ==>
      (V2.ObjectSchema(props, nullable).Ok? <==> V3.ObjectSchema(props, tt, nullable).Ok?)
    ensures !HasUnionOfKinds(Object(props)) && V3.ObjectSchema(props, tt, nullable).Ok? ==>
      Corresponds(V3.ObjectSchema(props, tt, nullable).value, V2.ObjectSchema(props, nullable).value)
  {
    EntriesAgree(props, tt);
    if |props| > 0 && !HasUnionOfKinds(Object(props)) && V3.PropertyEntries(props, tt).Ok? {
      FromPairsCorrespond(V3.PropertyEntries(props, tt).value, V2.PropertyEntries(props).value);
    }
  }

  /** Both emitters on the properties of an object, as `Agree` on a type. */
  predicate EntriesAgreeOn(props: seq<Property>, tt: TypeTable) {
    && (HasUnionOfKinds(Object(props)) ==> V2.PropertyEntries(props).Err?)
    && (!HasUnionOfKinds(Object(props)) ==> (V2.PropertyEntries(props).Ok? <==> V3.PropertyEntries(props, tt).Ok?))
    && (!HasUnionOfKinds(Object(props)) && V3.PropertyEntries(props, tt).Ok? ==>
          EntriesCorrespond(V3.PropertyEntries(props, tt).value, V2.PropertyEntries(props).value))
  }

  lemma {:induction false} EntriesAgree(props: seq<Property>, tt: TypeTable)
    decreases props, 0
    ensures EntriesAgreeOn(props, tt)
  {
    if |props| > 0 {
      EmittersAgree(props[0].propertyType, tt, false);
      EntriesAgree(props[1..], tt);
      ObjectKindsCons(props);
      EntriesStep(props, tt);
    }
  }

  /** One property more keeps the emitters agreeing. */
  lemma EntriesStep(props: seq<Property>, tt: TypeTable)
    requires |props| > 0 && Agree(props[0].propertyType, tt, false) && EntriesAgreeOn(props[1..], tt)
    requires HasUnionOfKinds(Object(props)) <==> HasUnionOfKinds(props[0].propertyType) || HasUnionOfKinds(Object(props[1..]))
    ensures EntriesAgreeOn(props, tt)
  {
    var p := props[0];
    if !HasUnionOfKinds(Object(props)) && V3.PropertyEntries(props, tt).Ok? {
      var s3 := V3.ToSchema(p.propertyType, tt, false).value;
      var s2 := V2.ToSchema(p.propertyType, false).value;
      WithDescriptionCorresponds(s3, s2, p.description);
      var r3 := V3.PropertyEntries(props[1..], tt).value;
      var r2 := V2.PropertyEntries(props[1..]).value;
      assert V3.PropertyEntries(props, tt).value == [(p.name, V3.WithDescription(s3, p.description))] + r3;
      assert V2.PropertyEntries(props).value == [(p.name, V2.WithDescription(s2, p.description))] + r2;
    }
  }

  /** Both emitters on a union, as `Agree` on a type. */
  predicate UnionAgreeOn(ts: seq<Type>, d: Option<string>, tt: TypeTable) {
    && (HasUnionOfKinds(Union(ts, d)) ==> V2.UnionSchema(ts).Err?)
    && (!HasUnionOfKinds(Union(ts, d)) ==> (V2.UnionSchema(ts).Ok? <==> V3.UnionSchema(ts, d, tt).Ok?))
    && (!HasUnionOfKinds(Union(ts, d)) && V3.UnionSchema(ts, d, tt).Ok? ==>
          Corresponds(V3.UnionSchema(ts, d, tt).value, V2.UnionSchema(ts).value))
  }

  lemma {:induction false} UnionsAgree(ts: seq<Type>, d: Option<string>, tt: TypeTable)
    decreases ts, 1
    ensures UnionAgreeOn(ts, d, tt)
  {
    var nonNull := NonNull(ts);
    if |nonNull| == 1 {
      assert nonNull[0] in ts;
      EmittersAgree(nonNull[0], tt, HasNull(ts));
      LoneUnionAgrees(ts, d, tt);
    } else if |nonNull| >= 2 && !IsUnionOfKinds(ts) {
      LiteralUnionAgrees(ts, d, tt);
    } else if |nonNull| >= 2 {
      assert HasUnionOfKinds(Union(ts, d));
    } else if |ts| > 0 {
      NullMembersKinds(ts, d);
    } else {
      assert !HasUnionOfKinds(Union(ts, d));
    }
  }

  /** A union with one non-null member is emitted as that member by both. */
  lemma LoneUnionAgrees(ts: seq<Type>, d: Option<string>, tt: TypeTable)
    requires |NonNull(ts)| == 1 && Agree(NonNull(ts)[0], tt, HasNull(ts))
    ensures UnionAgreeOn(ts, d, tt)
  {
    LoneMemberKinds(ts, d);
    assert |ts| > 0;
    assert V3.UnionSchema(ts, d, tt) == V3.ToSchema(NonNull(ts)[0], tt, HasNull(ts));
    assert V2.UnionSchema(ts) == V2.ToSchema(NonNull(ts)[0], HasNull(ts));
  }

  /** A union of same-family literals is the same enum in both. */
  lemma LiteralUnionAgrees(ts: seq<Type>, d: Option<string>, tt: TypeTable)
    requires |NonNull(ts)| >= 2 && !IsUnionOfKinds(ts)
    ensures UnionAgreeOn(ts, d, tt)
  {
    LiteralMembersKinds(ts, d);
    var f: Family :| AllFamilyLiterals(NonNull(ts), f);
    var info := LiteralUnionInfo(NonNull(ts)).value;
    V3.UnionSchemaIsLiteral(ts, d, tt);
    assert |ts| > 0;
    assert V2.UnionSchema(ts) == Ok(V2.ScalarSchema(info, HasNull(ts)));
    ScalarSchemasCorrespond(info, HasNull(ts));
  }

  /** A union with one non-null member contains a union of kinds exactly when that member does. */
  lemma LoneMemberKinds(ts: seq<Type>, d: Option<string>)
    requires |NonNull(ts)| == 1
    ensures HasUnionOfKinds(Union(ts, d)) <==> HasUnionOfKinds(NonNull(ts)[0])
  {
    UnionKindsInMembers(ts, d);
    LoneMemberHasKinds(ts);
    if HasUnionOfKinds(NonNull(ts)[0]) {
      LoneMemberIsMember(ts);
    }
  }

  lemma LoneMemberHasKinds(ts: seq<Type>)
    requires |NonNull(ts)| == 1
    ensures forall i :: 0 <= i < |ts| && HasUnionOfKinds(ts[i]) ==> ts[i] == NonNull(ts)[0]
  {
    forall i | 0 <= i < |ts| && HasUnionOfKinds(ts[i])
      ensures ts[i] == NonNull(ts)[0]
    {
      MemberOfNonNull(ts, i);
    }
  }

  lemma LoneMemberIsMember(ts: seq<Type>)
    requires |NonNull(ts)| == 1
    ensures exists k :: 0 <= k < |ts| && ts[k] == NonNull(ts)[0]
  {
    assert NonNull(ts)[0] in ts;
  }

  /** A union that is not itself one of different kinds contains one exactly
      when a member does. */
  lemma UnionKindsInMembers(ts: seq<Type>, d: Option<string>)
    requires |NonNull(ts)| < 2
    ensures HasUnionOfKinds(Union(ts, d)) <==> exists i :: 0 <= i < |ts| && HasUnionOfKinds(ts[i])
  {
  }

  /** A union of same-family literals contains no union of kinds. */
  lemma LiteralMembersKinds(ts: seq<Type>, d: Option<string>)
    requires |NonNull(ts)| >= 2 && !IsUnionOfKinds(ts)
    ensures !HasUnionOfKinds(Union(ts, d))
  {
    var nonNull := NonNull(ts);
    var f: Family :| AllFamilyLiterals(nonNull, f);
    forall i | 0 <= i < |ts|
      ensures !HasUnionOfKinds(ts[i])
    {
      if !ts[i].Null? {
        MemberOfNonNull(ts, i);
        var j :| 0 <= j < |nonNull| && nonNull[j] == ts[i];
        assert IsFamilyLiteral(nonNull[j], f);
      }
    }
  }

  /** A union of nulls only contains no union of kinds. */
  lemma NullMembersKinds(ts: seq<Type>, d: Option<string>)
    requires |NonNull(ts)| == 0
    ensures !HasUnionOfKinds(Union(ts, d))
  {
    assert forall i :: 0 <= i < |ts| ==> ts[i].Null?;
  }

  lemma {:induction false} IntersectionsAgree(ts: seq<Type>, tt: TypeTable)
    decreases ts, 1
    ensures HasUnionOfKinds(Intersection(ts)) ==> V2.IntersectionSchema(ts).Err?
    ensures !HasUnionOfKinds(Intersection(ts)) ==> (V2.IntersectionSchema(ts).Ok? <==> V3.IntersectionSchema(ts, tt).Ok?)
    ensures !HasUnionOfKinds(Intersection(ts)) && V3.IntersectionSchema(ts, tt).Ok? ==>
      Corresponds(V3.IntersectionSchema(ts, tt).value, V2.IntersectionSchema(ts).value)
  {
    if |ts| > 0 {
      MembersAgree(ts, tt);
    }
  }

  /** Both emitters on the non-null members of an intersection, member by member. */
  predicate MembersAgreeOn(ts: seq<Type>, tt: TypeTable) {
    && (HasUnionOfKinds(Intersection(ts)) ==> V2.EmitNonNull(ts).Err?)
    && (!HasUnionOfKinds(Intersection(ts)) ==> (V2.EmitNonNull(ts).Ok? <==> V3.EmitNonNull(ts, tt).Ok?))
    && (!HasUnionOfKinds(Intersection(ts)) && V3.EmitNonNull(ts, tt).Ok? ==>
          |V3.EmitNonNull(ts, tt).value| == |V2.EmitNonNull(ts).value|
          && forall i :: 0 <= i < |V3.EmitNonNull(ts, tt).value| ==> Corresponds(V3.EmitNonNull(ts, tt).value[i], V2.EmitNonNull(ts).value[i]))
  }

  lemma {:induction false} MembersAgree(ts: seq<Type>, tt: TypeTable)
    decreases ts, 0
    ensures MembersAgreeOn(ts, tt)
  {
    if HasUnionOfKinds(Intersection(ts)) {
      var i :| 0 <= i < |ts| && HasUnionOfKinds(ts[i]);
      EmittersAgree(ts[i], tt, false);
      MemberRejects(ts, i);
    } else {
      var nn := NonNull(ts);
      NoKindsInNonNull(ts);
      forall j | 0 <= j < |nn|
        ensures Agree(nn[j], tt, false) && !HasUnionOfKinds(nn[j])
      {
        EmittersAgree(nn[j], tt, false);
      }
      MembersCorrespond(nn, tt);
      V3.EmitNonNullEach(ts, tt);
      V2.EmitNonNullEach(ts);
    }
  }

  /** A member the OpenAPI 2 emitter rejects makes it reject the member list. */
  lemma MemberRejects(ts: seq<Type>, i: nat)
    requires i < |ts| && HasUnionOfKinds(ts[i]) && V2.ToSchema(ts[i], false).Err?
    ensures V2.EmitNonNull(ts).Err?
  {
    V2.EmitNonNullEach(ts);
    V2.EmitEachSpec(NonNull(ts));
    MemberOfNonNull(ts, i);
  }

  /** Without a union of kinds in an intersection, none is in a non-null member. */
  lemma NoKindsInNonNull(ts: seq<Type>)
    requires !HasUnionOfKinds(Intersection(ts))
    ensures forall j :: 0 <= j < |NonNull(ts)| ==> !HasUnionOfKinds(NonNull(ts)[j])
  {
    forall j | 0 <= j < |NonNull(ts)|
      ensures !HasUnionOfKinds(NonNull(ts)[j])
    {
      var k :| 0 <= k < |ts| && ts[k] == NonNull(ts)[j];
    }
  }

  /** Member-wise agreement of the emitters on a list of types without unions of
      kinds: both emit every member or both fail, with corresponding schemas. */
  lemma MembersCorrespond(nn: seq<Type>, tt: TypeTable)
    requires forall j :: 0 <= j < |nn| ==> Agree(nn[j], tt, false) && !HasUnionOfKinds(nn[j])
    ensures V2.EmitEach(nn).Ok? <==> V3.EmitEach(nn, tt).Ok?
    ensures V3.EmitEach(nn, tt).Ok? ==>
      |V3.EmitEach(nn, tt).value| == |V2.EmitEach(nn).value|
      && forall i :: 0 <= i < |V3.EmitEach(nn, tt).value| ==> Corresponds(V3.EmitEach(nn, tt).value[i], V2.EmitEach(nn).value[i])
  {
    V3.EmitEachSpec(nn, tt);
    V2.EmitEachSpec(nn);
  }

  /** An object contains a union of kinds when its first property or the rest does. */
  lemma ObjectKindsCons(props: seq<Property>)
    requires |props| > 0
    ensures HasUnionOfKinds(Object(props)) <==> HasUnionOfKinds(props[0].propertyType) || HasUnionOfKinds(Object(props[1..]))
  {
    if HasUnionOfKinds(Object(props)) && !HasUnionOfKinds(props[0].propertyType) {
      var i :| 0 <= i < |props| && HasUnionOfKinds(props[i].propertyType);
      assert props[1..][i - 1] == props[i];
    }
    if HasUnionOfKinds(Object(props[1..])) {
      var i :| 0 <= i < |props[1..]| && HasUnionOfKinds(props[1..][i].propertyType);
      assert props[i + 1] == props[1..][i];
    }
  }

  /** The cross-dialect theorem: the OpenAPI 2 emitter succeeds exactly when
      the OpenAPI 3 emitter does and the type has no union of different kinds. */
  lemma EmittersSucceedTogether(t: Type, tt: TypeTable, nullable: bool)
    ensures V2.ToSchema(t, nullable).Ok? <==> V3.ToSchema(t, tt, nullable).Ok? && !HasUnionOfKinds(t)
  {
    EmittersAgree(t, tt, nullable);
  }
}
