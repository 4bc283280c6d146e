/** OpenAPI 2 parameter and header objects (generators/openapi2/openapi2-parameter-util.js).
    Unlike schemas, OpenAPI 2 parameters cannot hold objects, unions or
    intersections: a parameter's type is dereferenced and must be a scalar or
    an array of (arrays of) scalars. */
module OpenApi2Parameters {
  import opened Util
  import opened Types
  import opened Resolution
  import opened Contracts
  import opened SchemaCommon
  import opened OpenApiCommon

  const NullParameterMessage := "Null is not supported for parameters in OpenAPI 2"
  const ObjectParameterMessage := "Object is not supported for parameters in OpenAPI 2"
  const UnionParameterMessage := "Unions are not supported for parameters in OpenAPI 2"
  const IntersectionParameterMessage := "Intersections are not supported for parameters in OpenAPI 2"

  /** `collectionFormat` of a query array. */
  datatype CollectionFormat = Multi | Csv {
    function Name(): string {
      match this
      case Multi => "multi"
      case Csv => "csv"
    }
  }

  /** An items object: a scalar, or `{type: "array", items}`. */
  datatype ItemsObject = ItemBasic(info: ScalarInfo) | ItemArray(items: ItemsObject)

  /** The type part of a parameter object. */
  datatype ParamSchema =
    | BasicParam(info: ScalarInfo)
    | ArrayParam(collectionFormat: Option<CollectionFormat>, items: ItemsObject)

  /** A non-body parameter object. */
  datatype ParameterObject = ParameterObject(name: string, location: Location, description: Option<string>,
                                             required: bool, schema: ParamSchema)

  /** A response header object. */
  datatype HeaderObject = HeaderObject(description: Option<string>, items: ItemsObject)

  /** The kinds `basicTypeToParameterBasicTypeObject` rejects. */
  predicate Unsupported(t: Type) {
    t.Null? || t.Object? || t.Union? || t.Intersection?
  }

  /** `basicTypeToParameterBasicTypeObject`: the scalar table of parameters.
      Its callers have dereferenced the type and handled arrays. */
  function BasicParameter(t: Type): (r: Result<ScalarInfo, string>)
    requires !t.Array? && !t.Reference?
    ensures r.Err? <==> Unsupported(t)
    ensures t.Null? ==> r == Err(NullParameterMessage)
    ensures t.Object? ==> r == Err(ObjectParameterMessage)
    ensures t.Union? ==> r == Err(UnionParameterMessage)
    ensures t.Intersection? ==> r == Err(IntersectionParameterMessage)
  {
    match t
    case Null => Err(NullParameterMessage)
    case Boolean => Ok(ScalarInfo(BooleanSchema, None, None))
    case BooleanLiteral(b) => Ok(ScalarInfo(BooleanSchema, None, Some([EnumBool(b)])))
    case String => Ok(ScalarInfo(StringSchema, None, None))
    case StringLiteral(s) => Ok(ScalarInfo(StringSchema, None, Some([EnumString(s)])))
    case Float => Ok(ScalarInfo(NumberSchema, Some("float"), None))
    case Double => Ok(ScalarInfo(NumberSchema, Some("double"), None))
    case FloatLiteral(x) => Ok(ScalarInfo(NumberSchema, Some("float"), Some([EnumNumber(x)])))
    case Int32 => Ok(ScalarInfo(IntegerSchema, Some("int32"), None))
    case Int64 => Ok(ScalarInfo(IntegerSchema, Some("int64"), None))
    case IntLiteral(x) => Ok(ScalarInfo(IntegerSchema, Some("int32"), Some([EnumNumber(x)])))
    case Date => Ok(ScalarInfo(StringSchema, Some("date"), None))
    case DateTime => Ok(ScalarInfo(StringSchema, Some("date-time"), None))
    case Object(_) => Err(ObjectParameterMessage)
    case Union(_, _) => Err(UnionParameterMessage)
    case Intersection(_) => Err(IntersectionParameterMessage)
  }

  /** Parameters use the schema emitters' scalar table: the same type, the
      same format, and for a literal `enum: [value]`, which never holds `null`. */
  lemma BasicParameterAgrees(t: Type)
    requires IsPrimitive(t) && !t.Null?
    ensures BasicParameter(t) == Ok(ScalarInfoOf(t).value)
    ensures IsLiteral(t) ==> BasicParameter(t).value.values == Some([EnumValueOf(LiteralValueOf(t))])
    ensures BasicParameter(t).value.values.Some? ==> EnumNull !in BasicParameter(t).value.values.value
  {
  }

  /** `typeToItemsObject` with the names still open on the path made explicit. */
  function ItemsIn(t: Type, tt: TypeTable, pending: set<string>): (r: Result<ItemsObject, string>)
    decreases |pending|, t
  {
    if t.Reference? then
      var def :- Enter(t.name, tt, pending);
      ItemsIn(def, tt, pending - {t.name})
    else if t.Array? then
      var items :- ItemsIn(t.elementType, tt, pending);
      Ok(ItemArray(items))
    else
      var info :- BasicParameter(t);
      Ok(ItemBasic(info))
  }

  /** `typeToItemsObject(type, typeTable)` */
  function ItemsOf(t: Type, tt: TypeTable): (r: Result<ItemsObject, string>)
    ensures t.Reference? && !tt.Exists(t.name) ==> r == Err(KeyAbsentMessage + t.name)
    ensures Unsupported(t) ==> r.Err?
  {
    ItemsIn(t, tt, tt.Names())
  }

  /** Opening more names never changes a successful items object. */
  lemma {:induction false} ItemsMonotone(t: Type, tt: TypeTable, p: set<string>, q: set<string>)
    requires p <= q && ItemsIn(t, tt, p).Ok?
    ensures ItemsIn(t, tt, q) == ItemsIn(t, tt, p)
    decreases |p|, t
  {
    if t.Reference? {
      var def := Enter(t.name, tt, p).value;
      ItemsMonotone(def, tt, p - {t.name}, q - {t.name});
    } else if t.Array? {
      ItemsMonotone(t.elementType, tt, p, q);
    }
  }

  lemma {:induction false} ItemsDerefIn(t: Type, tt: TypeTable, p: set<string>)
    requires ItemsIn(t, tt, p).Ok?
    ensures Deref(t, tt, p).Ok?
    ensures var c := Deref(t, tt, p).value;
      (c.Array? ==> exists p' :: p' <= p && ItemsIn(c.elementType, tt, p').Ok?
                                 && ItemsIn(t, tt, p) == Ok(ItemArray(ItemsIn(c.elementType, tt, p').value)))
      && (!c.Array? ==> BasicParameter(c).Ok? && ItemsIn(t, tt, p) == Ok(ItemBasic(BasicParameter(c).value)))
    decreases |p|
  {
    if t.Reference? {
      var def := Enter(t.name, tt, p).value;
      ItemsDerefIn(def, tt, p - {t.name});
    } else if t.Array? {
      assert ItemsIn(t.elementType, tt, p).Ok?;
    }
  }

  /** `typeToItemsObject` dereferences first; an array becomes
      `{type: "array", items}` of its element, without `collectionFormat`, and
      anything else the scalar table's entry. */
  lemma ItemsUnfold(t: Type, tt: TypeTable)
    requires ItemsOf(t, tt).Ok?
    ensures Dereference(t, tt).Ok?
    ensures var c := Dereference(t, tt).value;
      (c.Array? ==> ItemsOf(c.elementType, tt).Ok? && ItemsOf(t, tt) == Ok(ItemArray(ItemsOf(c.elementType, tt).value)))
      && (!c.Array? ==> BasicParameter(c).Ok? && ItemsOf(t, tt) == Ok(ItemBasic(BasicParameter(c).value)))
  {
    ItemsDerefIn(t, tt, tt.Names());
    var c := Dereference(t, tt).value;
    if c.Array? {
      var p' :| p' <= tt.Names() && ItemsIn(c.elementType, tt, p').Ok?
        && ItemsIn(t, tt, tt.Names()) == Ok(ItemArray(ItemsIn(c.elementType, tt, p').value));
      ItemsMonotone(c.elementType, tt, p', tt.Names());
    }
  }

  /** `configToQueryParameterCollectionFormat(config)` */
  function CollectionFormatOf(config: Config): (cf: CollectionFormat)
    ensures cf.Name() == (if config.queryArray == Ampersand then "multi" else "csv")
  {
    match config.queryArray
    case Ampersand => Multi
    case Comma => Csv
  }

  /** The type part of a parameter: the dereferenced type is an array, with the
      given `collectionFormat`, or a scalar. */
  function ParamSchemaOf(t: Type, tt: TypeTable, cf: Option<CollectionFormat>): (r: Result<ParamSchema, string>)
    ensures r.Ok? ==> Dereference(t, tt).Ok?
    ensures r.Ok? && r.value.ArrayParam? ==> Dereference(t, tt).value.Array? && r.value.collectionFormat == cf
    ensures r.Ok? && r.value.BasicParam? ==> !Dereference(t, tt).value.Array?
    ensures Dereference(t, tt).Ok? && Unsupported(Dereference(t, tt).value) ==> r.Err?
  {
    var concrete :- Dereference(t, tt);
    if concrete.Array? then
      var items :- ItemsOf(concrete.elementType, tt);
      Ok(ArrayParam(cf, items))
    else
      var info :- BasicParameter(concrete);
      Ok(BasicParam(info))
  }

  /** `pathParamToPathParameterObject`: always required, never a `collectionFormat`. */
  function PathParameterObject(p: PathParam, tt: TypeTable): (r: Result<ParameterObject, string>)
    ensures r.Ok? ==> r.value.name == p.name && r.value.location == InPath && r.value.description == p.description
    ensures r.Ok? ==> r.value.required
    ensures r.Ok? && r.value.schema.ArrayParam? ==> r.value.schema.collectionFormat.None?
    ensures r.Ok? <==> ParamSchemaOf(p.paramType, tt, None).Ok?
  {
    var schema :- ParamSchemaOf(p.paramType, tt, None);
    Ok(ParameterObject(p.name, InPath, p.description, true, schema))
  }

  /** `requestHeaderToHeaderParameterObject`: required unless optional, never a `collectionFormat`. */
  function HeaderParameterObject(h: Header, tt: TypeTable): (r: Result<ParameterObject, string>)
    ensures r.Ok? ==> r.value.name == h.name && r.value.location == InHeader && r.value.description == h.description
    ensures r.Ok? ==> r.value.required == !h.optional
    ensures r.Ok? && r.value.schema.ArrayParam? ==> r.value.schema.collectionFormat.None?
    ensures r.Ok? <==> ParamSchemaOf(h.headerType, tt, None).Ok?
  {
    var schema :- ParamSchemaOf(h.headerType, tt, None);
    Ok(ParameterObject(h.name, InHeader, h.description, !h.optional, schema))
  }

  /** `queryParamToQueryParameterObject`: required unless optional; an array
      carries `multi` for the ampersand strategy and `csv` for the comma one. */
  function QueryParameterObject(q: QueryParam, tt: TypeTable, config: Config): (r: Result<ParameterObject, string>)
    ensures r.Ok? ==> r.value.name == q.name && r.value.location == InQuery && r.value.description == q.description
    ensures r.Ok? ==> r.value.required == !q.optional
    ensures r.Ok? && r.value.schema.ArrayParam? ==> r.value.schema.collectionFormat == Some(CollectionFormatOf(config))
    ensures r.Ok? <==> ParamSchemaOf(q.paramType, tt, None).Ok?
  {
    var schema :- ParamSchemaOf(q.paramType, tt, Some(CollectionFormatOf(config)));
    Ok(ParameterObject(q.name, InQuery, q.description, !q.optional, schema))
  }

  /** `responseHeaderToHeaderObject`: the header's items object and description. */
  function ResponseHeaderObject(h: Header, tt: TypeTable): (r: Result<HeaderObject, string>)
    ensures r.Ok? <==> ItemsOf(h.headerType, tt).Ok?
    ensures r.Ok? ==> r.value.description == h.description && r.value.items == ItemsOf(h.headerType, tt).value
  {
    var items :- ItemsOf(h.headerType, tt);
    Ok(HeaderObject(h.description, items))
  }

  /** A response header object does not depend on the header's optionality. */
  lemma ResponseHeaderIgnoresOptional(h: Header, tt: TypeTable, optional: bool)
    ensures ResponseHeaderObject(h.(optional := optional), tt) == ResponseHeaderObject(h, tt)
  {
  }
}
