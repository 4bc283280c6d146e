/** What the OpenAPI 2 and OpenAPI 3 schema emitters have in common
    (generators/openapi2/openapi2-type-util.js, generators/openapi3/openapi3-type-util.js):
    the scalar table (schema `type`, `format` and `enum` of every primitive
    kind), enum construction with an optional trailing `null`, and the
    collapse of same-kind literal unions into one enum. */
module SchemaCommon {
  import opened Util
  import opened Types

  /** The `type` keyword of a schema. */
  datatype SchemaType = BooleanSchema | StringSchema | NumberSchema | IntegerSchema | ObjectSchema | ArraySchema {
    function Name(): string {
      match this
      case BooleanSchema => "boolean"
      case StringSchema => "string"
      case NumberSchema => "number"
      case IntegerSchema => "integer"
      case ObjectSchema => "object"
      case ArraySchema => "array"
    }
  }

  /** An `enum` entry. */
  datatype EnumValue = EnumBool(b: bool) | EnumString(s: string) | EnumNumber(n: real) | EnumNull

  function EnumValueOf(v: LiteralValue): EnumValue {
    match v
    case BoolValue(b) => EnumBool(b)
    case StringValue(s) => EnumString(s)
    case NumberValue(n) => EnumNumber(n)
  }

  /** The `type`, `format` and literal values of a scalar schema, before nullability. */
  datatype ScalarInfo = ScalarInfo(schemaType: SchemaType, format: Option<string>, values: Option<seq<EnumValue>>)

  /** The scalar cases of `typeToSchemaOrReferenceObject` / `typeToSchemaObject`. */
  function ScalarInfoOf(t: Type): (r: Option<ScalarInfo>)
    ensures r.Some? <==> IsPrimitive(t) && !t.Null?
    ensures r.Some? ==> (r.value.values.Some? <==> IsLiteral(t))
    ensures r.Some? && IsLiteral(t) ==> r.value.values == Some([EnumValueOf(LiteralValueOf(t))])
  {
    match t
    case Boolean => Some(ScalarInfo(BooleanSchema, None, None))
    case BooleanLiteral(b) => Some(ScalarInfo(BooleanSchema, None, Some([EnumBool(b)])))
    case String => Some(ScalarInfo(StringSchema, None, None))
    case StringLiteral(s) => Some(ScalarInfo(StringSchema, None, Some([EnumString(s)])))
    case Float => Some(ScalarInfo(NumberSchema, Some("float"), None))
    case Double => Some(ScalarInfo(NumberSchema, Some("double"), None))
    case FloatLiteral(x) => Some(ScalarInfo(NumberSchema, Some("float"), Some([EnumNumber(x)])))
    case Int32 => Some(ScalarInfo(IntegerSchema, Some("int32"), None))
    case Int64 => Some(ScalarInfo(IntegerSchema, Some("int64"), None))
    case IntLiteral(x) => Some(ScalarInfo(IntegerSchema, Some("int32"), Some([EnumNumber(x)])))
    case Date => Some(ScalarInfo(StringSchema, Some("date"), None))
    case DateTime => Some(ScalarInfo(StringSchema, Some("date-time"), None))
    case _ => None
  }

  /** `createEnum(values, nullable)`: a nullable enum gets exactly one `null`, at the end. */
  function CreateEnum(values: Option<seq<EnumValue>>, nullable: bool): (r: Option<seq<EnumValue>>)
    ensures values.None? ==> r.None?
    ensures values.Some? && !nullable ==> r == values
    ensures values.Some? && nullable ==>
      r.Some? && |r.value| == |values.value| + 1 && r.value[..|values.value|] == values.value
      && r.value[|values.value|] == EnumNull
  {
    match values
    case None => None
    case Some(vs) => if nullable then Some(vs + [EnumNull]) else Some(vs)
  }

  /** `nullable || undefined`: the field is `true` or absent, never `false`. */
  function NullableField(nullable: bool): (r: Option<bool>)
    ensures r != Some(false)
    ensures r == Some(true) <==> nullable
  {
    if nullable then Some(true) else None
  }

  /** `types.some(isNullType)` */
  predicate HasNull(ts: seq<Type>) {
    exists i :: 0 <= i < |ts| && ts[i].Null?
  }

  /** The literal value of every member, in order. */
  function LiteralValues(ts: seq<Type>): (vs: seq<EnumValue>)
    requires forall i :: 0 <= i < |ts| ==> IsLiteral(ts[i])
    ensures |vs| == |ts| && forall i :: 0 <= i < |ts| ==> vs[i] == EnumValueOf(LiteralValueOf(ts[i]))
  {
    seq(|ts|, i requires 0 <= i < |ts| => EnumValueOf(LiteralValueOf(ts[i])))
  }

  /** All members are literals of one family (`areBooleanLiteralTypes`, …). */
  predicate AllFamilyLiterals(ts: seq<Type>, f: Family) {
    forall i :: 0 <= i < |ts| ==> IsFamilyLiteral(ts[i], f)
  }

  /** The enum a union of same-kind literals collapses into: boolean, then
      string, then float, then integer literals are tried. */
  function LiteralUnionInfo(nonNull: seq<Type>): (r: Option<ScalarInfo>)
    ensures r.Some? <==> exists f: Family :: AllFamilyLiterals(nonNull, f)
    ensures r.Some? ==> r.value.values.Some? && r.value.values.value == LiteralValues(nonNull)
  {
    if AllFamilyLiterals(nonNull, BooleanFamily) then Some(ScalarInfo(BooleanSchema, None, Some(LiteralValues(nonNull))))
    else if AllFamilyLiterals(nonNull, StringFamily) then Some(ScalarInfo(StringSchema, None, Some(LiteralValues(nonNull))))
    else if AllFamilyLiterals(nonNull, FloatFamily) then Some(ScalarInfo(NumberSchema, Some("float"), Some(LiteralValues(nonNull))))
    else if AllFamilyLiterals(nonNull, IntFamily) then Some(ScalarInfo(IntegerSchema, Some("int32"), Some(LiteralValues(nonNull))))
    else None
  }

  /** The names of the required properties, in order. */
  function RequiredNames(props: seq<Property>): (r: seq<string>)
    ensures |r| <= |props|
    ensures forall i :: 0 <= i < |props| && !props[i].optional ==> props[i].name in r
    ensures forall n :: n in r ==> exists i :: 0 <= i < |props| && !props[i].optional && props[i].name == n
  {
    if |props| == 0 then []
    else
      var rest := RequiredNames(props[1..]);
      assert forall i :: 1 <= i < |props| ==> props[i] == props[1..][i - 1];
      assert forall n :: n in rest ==> exists i :: 1 <= i < |props| && !props[i].optional && props[i].name == n by {
        forall n | n in rest
          ensures exists i :: 1 <= i < |props| && !props[i].optional && props[i].name == n
        {
          var j :| 0 <= j < |props[1..]| && !props[1..][j].optional && props[1..][j].name == n;
          assert props[j + 1] == props[1..][j];
        }
      }
      (if props[0].optional then [] else [props[0].name]) + rest
  }
  /** The required names of a concatenation are the concatenated required names:
      with `RequiredNamesSingle`, `required` lists the non-optional names in
      declaration order, once per property. */
  lemma {:induction false} RequiredNamesAppend(a: seq<Property>, b: seq<Property>)
    ensures RequiredNames(a + b) == RequiredNames(a) + RequiredNames(b)
  {
    if |a| > 0 {
      assert (a + b)[0] == a[0];
      assert (a + b)[1..] == a[1..] + b;
      RequiredNamesAppend(a[1..], b);
    } else {
      assert a + b == b;
    }
  }

  /** One property contributes its name exactly when it is not optional. */
  lemma RequiredNamesSingle(p: Property)
    ensures RequiredNames([p]) == if p.optional then [] else [p.name]
  {
    assert [p][1..] == [];
  }


  const NullMessage3 := "Null must be part of a union for OpenAPI 3"
  const NullMessage2 := "Null must be part of a union for OpenAPI 2"
  const EmptyUnionMessage := "Unexpected type: union with no types"
  const EmptyIntersectionMessage := "Unexpected type: intersection type with no types"

  /** A union of same-family literals gets the schema type and format of its
      members' own scalar schemas, and lists every member's value in order. */
  lemma LiteralUnionOfFamily(nonNull: seq<Type>, f: Family)
    requires |nonNull| > 0 && AllFamilyLiterals(nonNull, f)
    ensures ScalarInfoOf(nonNull[0]).Some?
    ensures LiteralUnionInfo(nonNull) == Some(ScalarInfoOf(nonNull[0]).value.(values := Some(LiteralValues(nonNull))))
  {
    assert IsFamilyLiteral(nonNull[0], f);
  }

  /** The enum of a nullable literal union: the member values in order, then `null`. */
  lemma NullableLiteralEnum(nonNull: seq<Type>, nullable: bool)
    requires LiteralUnionInfo(nonNull).Some?
    ensures var vs := CreateEnum(LiteralUnionInfo(nonNull).value.values, nullable).value;
      |vs| == |nonNull| + (if nullable then 1 else 0)
      && (forall i :: 0 <= i < |nonNull| ==> vs[i] == EnumValueOf(LiteralValueOf(nonNull[i])))
      && (nullable ==> vs[|nonNull|] == EnumNull)
      && (forall i :: 0 <= i < |nonNull| ==> vs[i] != EnumNull)
  {
    var vs := CreateEnum(LiteralUnionInfo(nonNull).value.values, nullable).value;
    assert vs[..|nonNull|] == LiteralValues(nonNull);
    forall i | 0 <= i < |nonNull|
      ensures vs[i] == EnumValueOf(LiteralValueOf(nonNull[i]))
    {
      assert vs[i] == vs[..|nonNull|][i];
    }
  }
}
