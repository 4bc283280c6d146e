/** The closed type algebra of contracts (lib/src/types.js): eighteen kinds of
    type, the kind guards and scalar families, and the type table that maps
    declared names to their definitions. */
module Types {
  import opened Util
  import opened Dicts

  /** `TypeKind`: the tag of every type. */
  datatype Kind =
    | NullKind | BooleanKind | BooleanLiteralKind | StringKind | StringLiteralKind
    | FloatKind | DoubleKind | FloatLiteralKind | Int32Kind | Int64Kind | IntLiteralKind
    | DateKind | DateTimeKind | ObjectKind | ArrayKind | UnionKind | ReferenceKind | IntersectionKind

  /** `Type`. Numeric literal payloads are JavaScript numbers; they are kept as
      exact reals and only compared for equality. */
  datatype Type =
    | Null
    | Boolean
    | BooleanLiteral(boolValue: bool)
    | String
    | StringLiteral(stringValue: string)
    | Float
    | Double
    | FloatLiteral(floatValue: real)
    | Int32
    | Int64
    | IntLiteral(intValue: real)
    | Date
    | DateTime
    | Object(properties: seq<Property>)
    | Array(elementType: Type)
    | Union(types: seq<Type>, discriminator: Option<string>)
    | Intersection(types: seq<Type>)
    | Reference(name: string)

  /** `ObjectPropertiesType` */
  datatype Property = Property(name: string, description: Option<string>, optional: bool, propertyType: Type)

  /** `TypeDef`: a named declaration's body and its doc comment. */
  datatype TypeDef = TypeDef(definition: Type, description: Option<string>)

  /** One entry of `TypeTable.toArray()` / `fromArray`. */
  datatype NamedTypeDef = NamedTypeDef(name: string, typeDef: TypeDef)

  function KindOf(t: Type): Kind {
    match t
    case Null => NullKind
    case Boolean => BooleanKind
    case BooleanLiteral(_) => BooleanLiteralKind
    case String => StringKind
    case StringLiteral(_) => StringLiteralKind
    case Float => FloatKind
    case Double => DoubleKind
    case FloatLiteral(_) => FloatLiteralKind
    case Int32 => Int32Kind
    case Int64 => Int64Kind
    case IntLiteral(_) => IntLiteralKind
    case Date => DateKind
    case DateTime => DateTimeKind
    case Object(_) => ObjectKind
    case Array(_) => ArrayKind
    case Union(_, _) => UnionKind
    case Intersection(_) => IntersectionKind
    case Reference(_) => ReferenceKind
  }

  /** `isPrimitiveType`: the thirteen scalar kinds. */
  predicate IsPrimitive(t: Type) {
    match t
    case Object(_) => false
    case Array(_) => false
    case Union(_, _) => false
    case Reference(_) => false
    case Intersection(_) => false
    case _ => true
  }

  /** `isLiteralType` */
  predicate IsLiteral(t: Type) {
    t.BooleanLiteral? || t.StringLiteral? || t.FloatLiteral? || t.IntLiteral?
  }

  /** `ConcreteType`: what `possibleRootTypes` may return. */
  predicate IsConcrete(t: Type) {
    !t.Union? && !t.Reference? && !t.Intersection?
  }

  /** The four scalar families in which a literal narrows a primitive. */
  datatype Family = StringFamily | BooleanFamily | IntFamily | FloatFamily

  /** Membership of one type in a family (the element tests of
      `areStringOrStringLiteralTypes` and its three siblings). `Double` is in no
      family. */
  predicate InFamily(t: Type, f: Family) {
    match f
    case StringFamily => t.String? || t.StringLiteral?
    case BooleanFamily => t.Boolean? || t.BooleanLiteral?
    case IntFamily => t.Int32? || t.Int64? || t.IntLiteral?
    case FloatFamily => t.Float? || t.FloatLiteral?
  }

  /** `are…Or…LiteralTypes`: every type of the list is in family `f`. */
  predicate AllInFamily(ts: seq<Type>, f: Family) {
    forall i :: 0 <= i < |ts| ==> InFamily(ts[i], f)
  }

  /** The literal kind of a family (`isStringLiteralType`, …). */
  predicate IsFamilyLiteral(t: Type, f: Family) {
    match f
    case StringFamily => t.StringLiteral?
    case BooleanFamily => t.BooleanLiteral?
    case IntFamily => t.IntLiteral?
    case FloatFamily => t.FloatLiteral?
  }

  /** The primitive kinds of a family (`isStringType`, `isBooleanType`,
      `isInt32Type || isInt64Type`, `isFloatType`). */
  predicate IsFamilyPrimitive(t: Type, f: Family) {
    match f
    case StringFamily => t.String?
    case BooleanFamily => t.Boolean?
    case IntFamily => t.Int32? || t.Int64?
    case FloatFamily => t.Float?
  }

  /** The value carried by a literal type, whatever its kind. */
  datatype LiteralValue = BoolValue(b: bool) | StringValue(s: string) | NumberValue(n: real)

  function LiteralValueOf(t: Type): (v: LiteralValue)
    requires IsLiteral(t)
  {
    match t
    case BooleanLiteral(b) => BoolValue(b)
    case StringLiteral(s) => StringValue(s)
    case FloatLiteral(x) => NumberValue(x)
    case IntLiteral(x) => NumberValue(x)
  }

  /** A family member is either its literal or one of its primitives, never both;
      and a type belongs to at most one family. */
  lemma FamilyMembers(t: Type, f: Family, g: Family)
    requires InFamily(t, f)
    ensures IsFamilyLiteral(t, f) != IsFamilyPrimitive(t, f)
    ensures IsPrimitive(t) && !t.Null?
    ensures InFamily(t, g) ==> f == g
  {
  }

  const KeyPresentMessage := "Key already present in type table: "
  const KeyAbsentMessage := "Key not present in type table: "

  /** `TypeTable`: declared names and their definitions, in insertion order. */
  datatype TypeTable = TypeTable(entries: Dict<string, TypeDef>) {

    /** Every name is held once; tables built by `Add` or `FromArray` are valid. */
    ghost predicate Valid() {
      DistinctKeys(entries)
    }

    /** `size` */
    function Size(): nat {
      |entries|
    }

    /** `exists(key)` */
    predicate Exists(key: string) {
      Has(entries, key)
    }

    /** `get(key)` */
    function Get(key: string): (r: Option<TypeDef>)
      ensures r.Some? <==> Exists(key)
      ensures r.Some? ==> exists i :: 0 <= i < |entries| && entries[i] == (key, r.value)
    {
      Dicts.Get(entries, key)
    }

    /** The declared names, as a set. */
    function Names(): (names: set<string>)
      ensures forall key :: key in names <==> Exists(key)
    {
      set i | 0 <= i < |entries| :: entries[i].0
    }

    /** `getOrError(key)`: the definition, or a failure naming the missing key. */
    function GetOrError(key: string): (r: Result<TypeDef, string>)
      ensures r.Err? <==> !Exists(key)
      ensures r.Err? ==> r.error == KeyAbsentMessage + key
      ensures r.Ok? ==> Get(key) == Some(r.value)
    {
      match Get(key)
      case Some(d) => Ok(d)
      case None => Err(KeyAbsentMessage + key)
    }

    /** `add(key, typeDef)`: fails on a present key; otherwise appends the entry. */
    function Add(key: string, def: TypeDef): (r: Result<TypeTable, string>)
      ensures r.Err? <==> Exists(key)
      ensures r.Err? ==> r.error == KeyPresentMessage + key
      ensures r.Ok? ==> r.value.Exists(key) && r.value.Get(key) == Some(def)
      ensures r.Ok? ==> forall other :: other != key ==> r.value.Get(other) == Get(other)
      ensures r.Ok? ==> r.value.Size() == Size() + 1
      ensures r.Ok? && Valid() ==> r.value.Valid()
    {
      if Exists(key) then Err(KeyPresentMessage + key)
      else
        var r := TypeTable(Put(entries, key, def));
        assert Valid() ==> r.Valid() by {
          if Valid() { PutKeepsDistinct(entries, key, def); }
        }
        PutGet(entries, key, def, key);
        assert forall other :: r.Get(other) == (if other == key then Some(def) else Get(other)) by {
          forall other { PutGet(entries, key, def, other); }
        }
        Ok(r)
    }

    /** `toArray()`: the entries in insertion order. */
    function ToArray(): (arr: seq<NamedTypeDef>)
      ensures |arr| == Size()
      ensures forall i :: 0 <= i < |arr| ==> arr[i] == NamedTypeDef(entries[i].0, entries[i].1)
    {
      seq(|entries|, i requires 0 <= i < |entries| => NamedTypeDef(entries[i].0, entries[i].1))
    }
  }

  /** The table with no entries. */
  const EmptyTable := TypeTable([])

  /** `TypeTable.fromArray(arr)`: `new Map(entries)` sets the entries one by one,
      so a repeated name keeps its first position and its last definition. */
  function FromArray(arr: seq<NamedTypeDef>): (tt: TypeTable)
    ensures tt.Valid()
  {
    if |arr| == 0 then EmptyTable
    else
      var prev := FromArray(arr[..|arr| - 1]);
      var last := arr[|arr| - 1];
      PutKeepsDistinct(prev.entries, last.name, last.typeDef);
      TypeTable(Put(prev.entries, last.name, last.typeDef))
  }

  /** `bigger` keeps every definition of `smaller`: what a table that is only
      ever added to looks like later. */
  ghost predicate Extends(bigger: TypeTable, smaller: TypeTable) {
    forall n :: smaller.Exists(n) ==> bigger.Get(n) == smaller.Get(n)
  }

  lemma ExtendsTransitive(a: TypeTable, b: TypeTable, c: TypeTable)
    requires Extends(b, a) && Extends(c, b)
    ensures Extends(c, a)
  {
    forall n | a.Exists(n) ensures c.Get(n) == a.Get(n) {
      assert b.Exists(n);
    }
  }

  /** A table's names are among those of every table extending it. */
  lemma ExtendsNames(bigger: TypeTable, smaller: TypeTable)
    requires Extends(bigger, smaller)
    ensures smaller.Names() <= bigger.Names()
  {
    forall n | n in smaller.Names() ensures bigger.Exists(n) {
      assert bigger.Get(n).Some?;
    }
  }

  /** No name occurs twice in an array of named definitions. */
  predicate DistinctNames(arr: seq<NamedTypeDef>) {
    forall i, j :: 0 <= i < j < |arr| ==> arr[i].name != arr[j].name
  }

  /** Entries named after distinct types have distinct keys, in type order. */
  lemma EntriesNamed<V>(types: seq<NamedTypeDef>, entries: Dict<string, V>)
    requires DistinctNames(types) && |entries| == |types|
    requires forall i :: 0 <= i < |types| ==> entries[i].0 == types[i].name
    ensures DistinctKeys(entries)
    ensures Keys(entries) == seq(|types|, i requires 0 <= i < |types| => types[i].name)
  {
  }

  /** With distinct names, `fromArray` keeps every entry in its place. */
  lemma {:induction false} FromArrayEntries(arr: seq<NamedTypeDef>)
    requires DistinctNames(arr)
    ensures |FromArray(arr).entries| == |arr|
    ensures forall i :: 0 <= i < |arr| ==> FromArray(arr).entries[i] == (arr[i].name, arr[i].typeDef)
  {
    if |arr| > 0 {
      var init := arr[..|arr| - 1];
      var last := arr[|arr| - 1];
      FromArrayEntries(init);
      var prev := FromArray(init);
      assert !Has(prev.entries, last.name);
      assert FromArray(arr).entries == prev.entries + [(last.name, last.typeDef)];
    }
  }

  /** `toArray(fromArray(arr)) == arr` when the names are distinct. */
  lemma ToArrayFromArray(arr: seq<NamedTypeDef>)
    requires DistinctNames(arr)
    ensures FromArray(arr).ToArray() == arr
  {
    FromArrayEntries(arr);
  }

  /** `fromArray(toArray(tt)) == tt` for a valid table. */
  lemma FromArrayToArray(tt: TypeTable)
    requires tt.Valid()
    ensures FromArray(tt.ToArray()) == tt
  {
    var arr := tt.ToArray();
    assert DistinctNames(arr);
    FromArrayEntries(arr);
  }
}
