/** The type parser (lib/src/parsers/type-parser.js): it turns the TypeScript
    type nodes of a contract into the type algebra and registers every named
    declaration it meets in the type table.

    The TypeScript syntax tree is the `TypeNode` datatype below; what the
    compiler answers about a node (is it `undefined`, is an alias's type
    `string`, which declaration does a reference resolve to) is folded into
    the node's shape. The parser threads a `ParseState`: the type table and
    the location of every registered declaration. */
module TypeParser {
  import opened Util
  import opened Text
  import opened Types
  import opened Narrowing
  import opened Resolution
  import opened Discriminators
  import opened NeverCheck

  /* ----- syntax ----- */

  /** The literal of a literal type node. A negative number is a prefix
      expression, not a literal, and lands in `OtherLiteralNode`. */
  datatype LiteralNode =
    | BooleanLiteralNode(boolValue: bool)
    | StringLiteralNode(text: string)
    | NumericLiteralNode(numericValue: real)
    | NullLiteralNode
    | OtherLiteralNode

  /** A type node of the contract's TypeScript source. */
  datatype TypeNode =
    | TypeReferenceNode(typeName: string, target: ReferenceTarget)
    | ArrayConstructorNode(typeArguments: seq<TypeNode>)
    | BooleanKeyword
    | StringKeyword
    | NumberKeyword
    | UndefinedKeyword
    | LiteralTypeNode(literal: LiteralNode)
    | ArrayTypeNode(elementNode: TypeNode)
    | TypeLiteralNode(signatures: seq<PropertySignature>, indexSignatures: nat)
    | UnionTypeNode(unionMembers: seq<TypeNode>)
    | IndexedAccessTypeNode(objectNode: TypeNode, indexNode: TypeNode)
    | IntersectionTypeNode(intersectionMembers: seq<TypeNode>)
    | OtherTypeNode

  /** A property signature: its name, doc comment, type and `?` token. */
  datatype PropertySignature = PropertySignature(propertyName: string, jsDoc: Option<string>, typeNode: TypeNode, questionToken: bool)

  /** What the symbol of a type reference resolves to: one type alias or
      interface, not exactly one declaration, an enum or enum member, or one
      declaration of some other kind (a class, say). */
  datatype ReferenceTarget = Declared(declaration: Declaration) | NotOneDeclaration | EnumTarget | OtherDeclaration

  /** A type alias or an interface, with the location of the node the parser
      records for it (the aliased type node, or the interface itself). An
      interface's members include those it inherits. */
  datatype Declaration =
    | TypeAlias(name: string, aliasedNode: TypeNode, docs: Option<string>, location: nat)
    | Interface(name: string, members: seq<InterfaceMember>, interfaceIndexSignatures: nat, docs: Option<string>, location: nat)

  datatype InterfaceMember = PropertyMember(signature: PropertySignature) | OtherMember

  /** Whether TypeScript sees a type reference (`Array<T>` is one). */
  predicate IsReferenceNode(node: TypeNode) {
    node.TypeReferenceNode? || node.ArrayConstructorNode?
  }

  /* ----- messages ----- */

  const UnknownType := "unknown type"
  const UnexpectedLiteral := "unexpected literal type"
  const ArrayArity := "Array types must declare exactly one argument"
  const IndexedTypes := "indexed types are not supported"
  const ExpectedPropertySignature := "expected property signature"
  const MalformedUnion := "malformed union type"
  const PrimitiveInIntersection := "Cannot use primitive types in an intersection type"
  const IntersectionNever := "intersection evaluates to never and is an illegal argument"
  const MustBeReference := "Indexed access type must be reference"
  const PropertyNotFound := "Indexed type property not found"
  const IndexedTypeError := "Indexed type error"
  const ExpectedTypeLiteral := "expected type literal"
  const ExpectedStringLiteral := "expected string literal"
  const MapNotSupported := "Map type is not supported"
  const EnumsNotSupported := "Enums are not supported"
  const ExpectedAliasOrInterface := "expected a type alias or interface declaration"

  /** The hint added when the ambiguous name is `String`, which must come from
      the library's own types rather than be declared again. */
  const ImportStringHint := "\nDid you forget to import String? => import { String } from \"@airtasker/spot\""

  function Redefined(name: string): string {
    "Internal type " + name + " must not be redefined"
  }

  function DefinedMultipleTimes(name: string): string {
    "Type " + name + " defined multiple times"
  }

  function NotOneDeclarationMessage(name: string): string {
    if name == "String" then "expected exactly one declaration for String" + ImportStringHint
    else "expected exactly one declaration for " + name
  }

  /* ----- parser state ----- */

  /** The type table and, for every registered name, the location of its declaration. */
  datatype ParseState = ParseState(table: TypeTable, loci: map<string, nat>)

  /** The table and the locations name the same declarations. */
  ghost predicate Consistent(s: ParseState) {
    s.table.Valid() && forall n :: s.table.Exists(n) <==> n in s.loci
  }

  /** Nothing registered in `s` is dropped or moved in `later`. */
  ghost predicate Grows(s: ParseState, later: ParseState) {
    Extends(later.table, s.table) && forall n :: n in s.loci ==> n in later.loci && later.loci[n] == s.loci[n]
  }

  /** What every parse step promises about the state: definitions are only
      added, and a consistent state stays consistent and keeps its locations. */
  ghost predicate Evolves<X>(s: ParseState, r: Result<(X, ParseState), string>) {
    r.Ok? ==> Extends(r.value.1.table, s.table) && (Consistent(s) ==> Consistent(r.value.1) && Grows(s, r.value.1))
  }

  /** Registering a new name keeps a consistent state consistent. */
  lemma RegisterKeeps(s: ParseState, name: string, def: TypeDef, location: nat)
    requires s.table.Add(name, def).Ok?
    ensures var later := ParseState(s.table.Add(name, def).value, s.loci[name := location]);
      Evolves(s, Ok(((), later)))
  {
    var later := ParseState(s.table.Add(name, def).value, s.loci[name := location]);
    if Consistent(s) {
      forall n ensures later.table.Exists(n) <==> n in later.loci {
        assert later.table.Get(n).Some? <==> later.table.Exists(n);
        assert s.table.Get(n).Some? <==> s.table.Exists(n);
      }
    }
  }

  lemma EvolvesThrough<X, Y>(s: ParseState, first: Result<(X, ParseState), string>, rest: Result<(Y, ParseState), string>)
    requires Evolves(s, first) && first.Ok? && Evolves(first.value.1, rest)
    ensures Evolves(s, rest)
  {
    if rest.Ok? {
      ExtendsTransitive(s.table, first.value.1.table, rest.value.1.table);
    }
  }

  /* ----- built-in aliases ----- */

  /** The names of the built-in aliases, which contracts import rather than declare. */
  const SpotTypeAliases: seq<string> := ["Date", "DateTime", "Number", "Double", "Float", "Integer", "Int32", "Int64", "String"]

  /** A built-in alias: `String`, `Date` and `DateTime` must alias `string`,
      the numeric ones `number`; anything else is a redefinition. */
  function BuiltInAlias(name: string, aliased: TypeNode): (r: Result<Type, string>)
    requires name in SpotTypeAliases
    ensures r.Err? ==> r.error == Redefined(name)
    ensures r.Ok? ==> aliased == StringKeyword || aliased == NumberKeyword
  {
    if IsReferenceNode(aliased) then Err(Redefined(name))
    else if aliased == StringKeyword then
      if name == "String" then Ok(String)
      else if name == "Date" then Ok(Date)
      else if name == "DateTime" then Ok(DateTime)
      else Err(Redefined(name))
    else if aliased == NumberKeyword then
      if name == "Number" || name == "Float" then Ok(Float)
      else if name == "Double" then Ok(Double)
      else if name == "Integer" || name == "Int32" then Ok(Int32)
      else if name == "Int64" then Ok(Int64)
      else Err(Redefined(name))
    else Err(Redefined(name))
  }

  /** The built-in aliases as a table from name and aliased keyword to type. */
  const AliasTable: map<(string, TypeNode), Type> := map[
    ("String", StringKeyword) := String,
    ("Date", StringKeyword) := Date,
    ("DateTime", StringKeyword) := DateTime,
    ("Number", NumberKeyword) := Float,
    ("Float", NumberKeyword) := Float,
    ("Double", NumberKeyword) := Double,
    ("Integer", NumberKeyword) := Int32,
    ("Int32", NumberKeyword) := Int32,
    ("Int64", NumberKeyword) := Int64]

  /** A built-in alias is accepted exactly on the pairs of the table, with the
      table's type. */
  lemma BuiltInAliasTable(name: string, aliased: TypeNode)
    requires name in SpotTypeAliases
    ensures BuiltInAlias(name, aliased).Ok? <==> (name, aliased) in AliasTable
    ensures (name, aliased) in AliasTable ==> BuiltInAlias(name, aliased) == Ok(AliasTable[(name, aliased)])
  {
  }

  /* ----- literals ----- */

  /** `Number.isInteger` on the literal's value. */
  predicate IsInteger(v: real) {
    v.Floor as real == v
  }

  /** `parseLiteralType`: an integral number is an int literal, any other
      number a float literal; `null` is the null type. */
  function ParseLiteral(lit: LiteralNode): (r: Result<Type, string>)
    ensures r.Err? <==> lit.OtherLiteralNode?
    ensures r.Err? ==> r.error == UnexpectedLiteral
    ensures r.Ok? ==> IsLiteral(r.value) || r.value == Null
    ensures lit.NumericLiteralNode? ==> (r.value.IntLiteral? <==> IsInteger(lit.numericValue))
  {
    match lit
    case BooleanLiteralNode(b) => Ok(BooleanLiteral(b))
    case StringLiteralNode(text) => Ok(StringLiteral(text))
    case NumericLiteralNode(v) => Ok(if IsInteger(v) then IntLiteral(v) else FloatLiteral(v))
    case NullLiteralNode => Ok(Null)
    case OtherLiteralNode => Err(UnexpectedLiteral)
  }

  /** The literal node a literal type is written as. */
  function LiteralNodeOf(t: Type): LiteralNode {
    match t
    case BooleanLiteral(b) => BooleanLiteralNode(b)
    case StringLiteral(text) => StringLiteralNode(text)
    case IntLiteral(v) => NumericLiteralNode(v)
    case FloatLiteral(v) => NumericLiteralNode(v)
    case Null => NullLiteralNode
    case _ => OtherLiteralNode
  }

  /** Parsing a literal and writing it back gives the literal. */
  lemma LiteralNodeRoundTrip(lit: LiteralNode)
    requires ParseLiteral(lit).Ok?
    ensures LiteralNodeOf(ParseLiteral(lit).value) == lit
  {
  }

  /** Writing a literal type and parsing it back gives the type, when the
      numeric kind agrees with the value. */
  lemma LiteralTypeRoundTrip(t: Type)
    requires IsLiteral(t) || t == Null
    requires t.IntLiteral? ==> IsInteger(t.intValue)
    requires t.FloatLiteral? ==> !IsInteger(t.floatValue)
    ensures ParseLiteral(LiteralNodeOf(t)) == Ok(t)
  {
  }

  /* ----- the parser ----- */

  /** The trimmed doc comment. */
  function Description(docs: Option<string>): (r: Option<string>)
    ensures r.Some? <==> docs.Some?
  {
    if docs.Some? then Some(Trim(docs.value)) else None
  }

  /** The members of a union or intersection that are not `undefined`. */
  function Defined(nodes: seq<TypeNode>): (r: seq<TypeNode>)
    ensures |r| <= |nodes|
    ensures forall i :: 0 <= i < |r| ==> !r[i].UndefinedKeyword?
    ensures forall x :: x in r <==> x in nodes && !x.UndefinedKeyword?
  {
    if |nodes| == 0 then []
    else (if nodes[0].UndefinedKeyword? then [] else [nodes[0]]) + Defined(nodes[1..])
  }

  /** `parseType`: dispatch on the node. */
  function ParseType(node: TypeNode, s: ParseState): (r: Result<(Type, ParseState), string>)
    decreases node, 1
    ensures Evolves(s, r)
    ensures node.UndefinedKeyword? || node.OtherTypeNode? ==> r == Err(UnknownType)
    ensures node.BooleanKeyword? ==> r == Ok((Boolean, s))
    ensures node.StringKeyword? ==> r == Ok((String, s))
    ensures node.NumberKeyword? ==> r == Ok((Float, s))
    ensures node.ArrayConstructorNode? && |node.typeArguments| > 1 ==> r == Err(ArrayArity)
    ensures node.TypeLiteralNode? && node.indexSignatures > 0 ==> r == Err(IndexedTypes)
    ensures r.Ok? && (node.ArrayTypeNode? || node.ArrayConstructorNode?) ==> r.value.0.Array?
    ensures r.Ok? && node.TypeLiteralNode? ==> r.value.0.Object?
  {
    match node
    case TypeReferenceNode(name, target) => ParseTypeReference(name, target, s)
    case ArrayConstructorNode(args) =>
      if |args| == 0 then Err(NotOneDeclarationMessage("Array"))
      else if |args| != 1 then Err(ArrayArity)
      else
        var element :- ParseType(args[0], s);
        Ok((Array(element.0), element.1))
    case BooleanKeyword => Ok((Boolean, s))
    case StringKeyword => Ok((String, s))
    case NumberKeyword => Ok((Float, s))
    case LiteralTypeNode(lit) =>
      var t :- ParseLiteral(lit);
      Ok((t, s))
    case ArrayTypeNode(elementNode) =>
      var element :- ParseType(elementNode, s);
      Ok((Array(element.0), element.1))
    case TypeLiteralNode(signatures, indexSignatures) =>
      if indexSignatures > 0 then Err(IndexedTypes)
      else
        var props :- ParseProperties(signatures, s);
        Ok((Object(props.0), props.1))
    case UnionTypeNode(members) => ParseUnion(members, s)
    case IndexedAccessTypeNode(_, _) => ParseIndexedAccess(node, s)
    case IntersectionTypeNode(members) => ParseIntersection(members, s)
    case UndefinedKeyword => Err(UnknownType)
    case OtherTypeNode => Err(UnknownType)
  }

  /** `parseTypeReference` after `getTargetDeclarationFromTypeReference`:
      `Map`, ambiguous symbols, enums and declarations that are neither a type
      alias nor an interface are rejected. */
  function ParseTypeReference(typeName: string, target: ReferenceTarget, s: ParseState): (r: Result<(Type, ParseState), string>)
    decreases target
    ensures Evolves(s, r)
    ensures typeName == "Map" ==> r == Err(MapNotSupported)
    ensures typeName != "Map" && target.NotOneDeclaration? ==> r == Err(NotOneDeclarationMessage(typeName))
    ensures typeName != "Map" && target.EnumTarget? ==> r == Err(EnumsNotSupported)
    ensures typeName != "Map" && target.OtherDeclaration? ==> r == Err(ExpectedAliasOrInterface)
    ensures target.NotOneDeclaration? && typeName == "String" ==>
      r == Err("expected exactly one declaration for String" + ImportStringHint)
    ensures target.NotOneDeclaration? && typeName != "Map" && typeName != "String" ==>
      r == Err("expected exactly one declaration for " + typeName)
    ensures r.Ok? ==> target.Declared? && typeName != "Map"
  {
    if typeName == "Map" then Err(MapNotSupported)
    else
      match target
      case NotOneDeclaration => Err(NotOneDeclarationMessage(typeName))
      case EnumTarget => Err(EnumsNotSupported)
      case OtherDeclaration => Err(ExpectedAliasOrInterface)
      case Declared(decl) => ParseDeclaration(decl, s)
  }

  /** A named declaration: a built-in alias becomes its scalar type; any other
      declaration is parsed and registered the first time it is seen, and
      yields a reference to its name. */
  function ParseDeclaration(decl: Declaration, s: ParseState): (r: Result<(Type, ParseState), string>)
    decreases decl, 1
    ensures Evolves(s, r)
    ensures decl.name in SpotTypeAliases && decl.Interface? ==> r == Err(Redefined(decl.name))
    ensures decl.name in SpotTypeAliases && decl.TypeAlias? && r.Ok? ==>
      r.value.1 == s && BuiltInAlias(decl.name, decl.aliasedNode) == Ok(r.value.0)
    ensures decl.name !in SpotTypeAliases && r.Ok? ==>
      r.value.0 == Reference(decl.name) && r.value.1.table.Exists(decl.name)
      && decl.name in r.value.1.loci && r.value.1.loci[decl.name] == decl.location
  {
    var name := decl.name;
    if name in SpotTypeAliases then
      if decl.TypeAlias? then
        var t :- BuiltInAlias(name, decl.aliasedNode);
        Ok((t, s))
      else Err(Redefined(name))
    else if s.table.Exists(name) then
      if name in s.loci && s.loci[name] == decl.location then Ok((Reference(name), s))
      else Err(DefinedMultipleTimes(name))
    else
      var body :- ParseDeclarationBody(decl, s);
      var table :- body.1.table.Add(name, TypeDef(body.0, Description(decl.docs)));
      var registered := ParseState(table, body.1.loci[name := decl.location]);
      RegisterKeeps(body.1, name, TypeDef(body.0, Description(decl.docs)), decl.location);
      EvolvesThrough(s, ParseDeclarationBody(decl, s), Ok((Reference(name), registered)));
      Ok((Reference(name), registered))
  }

  /** The type a declaration defines: an alias's aliased type, or the object
      of an interface's property signatures. */
  function ParseDeclarationBody(decl: Declaration, s: ParseState): (r: Result<(Type, ParseState), string>)
    decreases decl, 0
    ensures Evolves(s, r)
  {
    match decl
    case TypeAlias(_, aliasedNode, _, _) => ParseType(aliasedNode, s)
    case Interface(_, members, indexSignatures, _, _) =>
      if indexSignatures > 0 then Err(IndexedTypes)
      else if exists i :: 0 <= i < |members| && members[i].OtherMember? then Err(ExpectedPropertySignature)
      else
        var props :- ParseMembers(members, s);
        Ok((Object(props.0), props.1))
  }

  /** The interface's property signatures, in order. */
  function ParseMembers(members: seq<InterfaceMember>, s: ParseState): (r: Result<(seq<Property>, ParseState), string>)
    requires forall i :: 0 <= i < |members| ==> members[i].PropertyMember?
    decreases members
    ensures Evolves(s, r)
    ensures r.Ok? ==> DeclaresAll(r.value.0, SignaturesOf(members))
  {
    if |members| == 0 then Ok(([], s))
    else
      var first :- ParseMember(members[0], s);
      var rest :- ParseMembers(members[1..], first.1);
      EvolvesThrough(s, ParseMember(members[0], s), ParseMembers(members[1..], first.1));
      DeclaresPrepend(first.0, rest.0, members[0].signature, SignaturesOf(members[1..]));
      Ok(([first.0] + rest.0, rest.1))
  }

  /** The property signatures of an interface's members. */
  function SignaturesOf(members: seq<InterfaceMember>): (sigs: seq<PropertySignature>)
    requires forall i :: 0 <= i < |members| ==> members[i].PropertyMember?
    ensures |sigs| == |members| && forall i :: 0 <= i < |members| ==> sigs[i] == members[i].signature
  {
    if |members| == 0 then [] else [members[0].signature] + SignaturesOf(members[1..])
  }

  function ParseMember(member: InterfaceMember, s: ParseState): (r: Result<(Property, ParseState), string>)
    requires member.PropertyMember?
    decreases member
    ensures Evolves(s, r)
    ensures r.Ok? ==> Declares(r.value.0, member.signature)
  {
    ParseSignature(member.signature, s)
  }

  /** The property keeps the signature's name, trimmed doc comment and optionality. */
  predicate Declares(p: Property, sig: PropertySignature) {
    p.name == sig.propertyName && p.description == Description(sig.jsDoc) && p.optional == sig.questionToken
  }

  /** The properties of an object literal type, in order. */
  function ParseProperties(signatures: seq<PropertySignature>, s: ParseState): (r: Result<(seq<Property>, ParseState), string>)
    decreases signatures
    ensures Evolves(s, r)
    ensures r.Ok? ==> DeclaresAll(r.value.0, signatures)
  {
    if |signatures| == 0 then Ok(([], s))
    else
      var first :- ParseSignature(signatures[0], s);
      var rest :- ParseProperties(signatures[1..], first.1);
      EvolvesThrough(s, ParseSignature(signatures[0], s), ParseProperties(signatures[1..], first.1));
      DeclaresPrepend(first.0, rest.0, signatures[0], signatures[1..]);
      assert signatures == [signatures[0]] + signatures[1..];
      Ok(([first.0] + rest.0, rest.1))
  }

  /** The properties keep their signatures' names, doc comments and optionality, in order. */
  predicate DeclaresAll(props: seq<Property>, sigs: seq<PropertySignature>) {
    |props| == |sigs| && forall i :: 0 <= i < |sigs| ==> Declares(props[i], sigs[i])
  }

  lemma DeclaresPrepend(p: Property, props: seq<Property>, sig: PropertySignature, sigs: seq<PropertySignature>)
    requires Declares(p, sig) && DeclaresAll(props, sigs)
    ensures DeclaresAll([p] + props, [sig] + sigs)
  {
    assert forall i :: 1 <= i < |sigs| + 1 ==> ([p] + props)[i] == props[i - 1] && ([sig] + sigs)[i] == sigs[i - 1];
  }

  function ParseSignature(sig: PropertySignature, s: ParseState): (r: Result<(Property, ParseState), string>)
    decreases sig
    ensures Evolves(s, r)
    ensures r.Ok? ==> Declares(r.value.0, sig)
  {
    var t :- ParseType(sig.typeNode, s);
    Ok((Property(sig.propertyName, Description(sig.jsDoc), sig.questionToken, t.0), t.1))
  }

  /** The members that are not `undefined`, parsed in order. */
  function ParseDefined(nodes: seq<TypeNode>, s: ParseState): (r: Result<(seq<Type>, ParseState), string>)
    decreases nodes, 0
    ensures Evolves(s, r)
    ensures r.Ok? ==> |r.value.0| == |Defined(nodes)|
  {
    if |nodes| == 0 then Ok(([], s))
    else if nodes[0].UndefinedKeyword? then ParseDefined(nodes[1..], s)
    else
      var first :- ParseType(nodes[0], s);
      var rest :- ParseDefined(nodes[1..], first.1);
      EvolvesThrough(s, ParseType(nodes[0], s), ParseDefined(nodes[1..], first.1));
      Ok(([first.0] + rest.0, rest.1))
  }

  /** `parseUnionType`: no member left once `undefined` is dropped is an
      error, one member is that member's type, and two or more make a union
      of the members parsed in order, with the inferred discriminator. */
  function ParseUnion(members: seq<TypeNode>, s: ParseState): (r: Result<(Type, ParseState), string>)
    decreases members, 1
    ensures Evolves(s, r)
    ensures |Defined(members)| == 0 ==> r == Err(MalformedUnion)
    ensures |Defined(members)| == 1 ==> r == ParseType(Defined(members)[0], s)
    ensures |Defined(members)| >= 2 ==>
      (r.Ok? <==> (ParseDefined(members, s).Ok?
        && InferDiscriminator(ParseDefined(members, s).value.0, ParseDefined(members, s).value.1.table).Ok?))
    ensures |Defined(members)| >= 2 && ParseDefined(members, s).Err? ==> r == Err(ParseDefined(members, s).error)
    ensures |Defined(members)| >= 2 && r.Ok? ==>
      r.value.0.Union? && r.value.0.types == ParseDefined(members, s).value.0
      && r.value.1 == ParseDefined(members, s).value.1
      && InferDiscriminator(r.value.0.types, r.value.1.table) == Ok(r.value.0.discriminator)
  {
    var count := |Defined(members)|;
    if count == 0 then Err(MalformedUnion)
    else if count == 1 then
      assert Defined(members)[0] in members;
      ParseType(Defined(members)[0], s)
    else
      var parsed :- ParseDefined(members, s);
      var discriminator :- InferDiscriminator(parsed.0, parsed.1.table);
      Ok((Union(parsed.0, discriminator), parsed.1))
  }

  /** The members of an intersection: each is parsed and must have only
      object roots, checked against the table as it stands after that member. */
  function ParseIntersectionMembers(nodes: seq<TypeNode>, s: ParseState): (r: Result<(seq<Type>, ParseState), string>)
    decreases nodes, 1
    ensures Evolves(s, r)
    ensures r.Ok? ==> |r.value.0| == |Defined(nodes)|
    ensures r.Ok? ==> forall i :: 0 <= i < |r.value.0| ==> ObjectRooted(r.value.0[i], r.value.1.table)
    ensures |Defined(nodes)| == 0 ==> r == Ok(([], s))
    ensures r.Ok? ==> ParseDefined(nodes, s) == r
  {
    if |nodes| == 0 then Ok(([], s))
    else if nodes[0].UndefinedKeyword? then ParseIntersectionMembers(nodes[1..], s)
    else
      var first :- ParseType(nodes[0], s);
      var roots :- PossibleRootTypes(first.0, first.1.table);
      if !AllObjects(roots) then Err(PrimitiveInIntersection)
      else
        var rest :- ParseIntersectionMembers(nodes[1..], first.1);
        EvolvesThrough(s, ParseType(nodes[0], s), ParseIntersectionMembers(nodes[1..], first.1));
        PossibleRootTypesExtend(first.0, first.1.table, rest.1.table);
        ObjectRootedPrepend(first.0, rest.0, rest.1.table);
        assert ParseDefined(nodes, s) == Ok(([first.0] + rest.0, rest.1)) by {
          assert ParseDefined(nodes[1..], first.1) == Ok(rest);
        }
        Ok(([first.0] + rest.0, rest.1))
  }

  /** Every root of `t` is an object. */
  predicate ObjectRooted(t: Type, tt: TypeTable) {
    PossibleRootTypes(t, tt).Ok? && AllObjects(PossibleRootTypes(t, tt).value)
  }

  lemma ObjectRootedPrepend(t: Type, ts: seq<Type>, tt: TypeTable)
    requires ObjectRooted(t, tt) && forall i :: 0 <= i < |ts| ==> ObjectRooted(ts[i], tt)
    ensures forall i :: 0 <= i < |[t] + ts| ==> ObjectRooted(([t] + ts)[i], tt)
  {
    assert forall i :: 1 <= i < |[t] + ts| ==> ([t] + ts)[i] == ts[i - 1];
  }

  /** `parseIntersectionTypeNode`: the members must have object roots only,
      and the intersection must not evaluate to `never`. */
  function ParseIntersection(members: seq<TypeNode>, s: ParseState): (r: Result<(Type, ParseState), string>)
    decreases members, 2
    ensures Evolves(s, r)
    ensures ParseIntersectionMembers(members, s).Err? ==> r == Err(ParseIntersectionMembers(members, s).error)
    ensures var m := ParseIntersectionMembers(members, s);
      r.Ok? <==> m.Ok? && DoesInterfaceEvaluateToNever(m.value.0, m.value.1.table) == Ok(false)
    ensures var m := ParseIntersectionMembers(members, s);
      m.Ok? && DoesInterfaceEvaluateToNever(m.value.0, m.value.1.table) == Ok(true) ==> r == Err(IntersectionNever)
    ensures r.Ok? ==>
      r.value.0.Intersection? && r.value.0.types == ParseDefined(members, s).value.0
      && r.value.1 == ParseDefined(members, s).value.1
      && (forall i :: 0 <= i < |r.value.0.types| ==> ObjectRooted(r.value.0.types[i], r.value.1.table))
  {
    var parsed :- ParseIntersectionMembers(members, s);
    var never :- DoesInterfaceEvaluateToNever(parsed.0, parsed.1.table);
    if never then Err(IntersectionNever) else Ok((Intersection(parsed.0), parsed.1))
  }

  /** `parseIndexedAccessType`: the property chain, then the root reference,
      which must parse to a reference, then the resolution of the chain. */
  function ParseIndexedAccess(node: TypeNode, s: ParseState): (r: Result<(Type, ParseState), string>)
    requires node.IndexedAccessTypeNode?
    decreases node, 0
    ensures Evolves(s, r)
    ensures AccessChain(node).Err? ==> r == Err(AccessChain(node).error)
    ensures AccessChain(node).Ok? && ParseRoot(node.objectNode, s).Ok? && !ParseRoot(node.objectNode, s).value.0.Reference? ==>
      r == Err(MustBeReference)
    ensures r.Ok? ==> (AccessChain(node).Ok? && ParseRoot(node.objectNode, s).Ok?
      && ParseRoot(node.objectNode, s).value.0.Reference?
      && ResolveIndexedAccessType(AccessChain(node).value, ParseRoot(node.objectNode, s).value.0,
                                  ParseRoot(node.objectNode, s).value.1.table) == Ok(r.value.0)
      && r.value.1 == ParseRoot(node.objectNode, s).value.1)
  {
    var chain :- AccessChain(node);
    var root :- ParseRoot(node.objectNode, s);
    if !root.0.Reference? then Err(MustBeReference)
    else
      var t :- ResolveIndexedAccessType(chain, root.0, root.1.table);
      Ok((t, root.1))
  }

  /** `resolveIndexedAccessRootReference` followed by `parseTypeReference`. */
  function ParseRoot(node: TypeNode, s: ParseState): (r: Result<(Type, ParseState), string>)
    decreases node
    ensures Evolves(s, r)
    ensures node.ArrayConstructorNode? ==> r == Err(NotOneDeclarationMessage("Array"))
    ensures !node.IndexedAccessTypeNode? && !node.TypeReferenceNode? && !node.ArrayConstructorNode? ==> r == Err(MustBeReference)
  {
    match node
    case IndexedAccessTypeNode(objectNode, _) => ParseRoot(objectNode, s)
    case TypeReferenceNode(name, target) => ParseTypeReference(name, target, s)
    case ArrayConstructorNode(_) => Err(NotOneDeclarationMessage("Array"))
    case _ => Err(MustBeReference)
  }

  /* ----- indexed access ----- */

  /** The key of one `[...]`: a string literal type. */
  function KeyOf(index: TypeNode): (r: Result<string, string>)
    ensures r.Ok? <==> index.LiteralTypeNode? && index.literal.StringLiteralNode?
    ensures r.Ok? ==> r.value == index.literal.text
  {
    match index
    case LiteralTypeNode(lit) =>
      var t :- ParseLiteral(lit);
      if t.StringLiteral? then Ok(t.stringValue) else Err(ExpectedStringLiteral)
    case _ => Err(ExpectedTypeLiteral)
  }

  /** The reverse of a sequence. */
  function Reverse<T>(s: seq<T>): (r: seq<T>)
    ensures |r| == |s|
  {
    if |s| == 0 then [] else [s[|s| - 1]] + Reverse(s[..|s| - 1])
  }

  /** `resolveIndexAccessPropertyAccessChain`: the keys are collected from the
      outermost `[...]` inwards and reversed at the root. */
  function AccessChainFrom(node: TypeNode, acc: seq<string>): (r: Result<seq<string>, string>)
    requires node.IndexedAccessTypeNode?
    decreases node
  {
    var key :- KeyOf(node.indexNode);
    if node.objectNode.IndexedAccessTypeNode? then AccessChainFrom(node.objectNode, acc + [key])
    else Ok(Reverse(acc + [key]))
  }

  function AccessChain(node: TypeNode): Result<seq<string>, string>
    requires node.IndexedAccessTypeNode?
  {
    AccessChainFrom(node, [])
  }

  /** The keys as written, left to right: `A["x"]["y"]` has `["x", "y"]`. */
  function KeysAsWritten(node: TypeNode): (r: Result<seq<string>, string>)
    requires node.IndexedAccessTypeNode?
    decreases node
  {
    var key :- KeyOf(node.indexNode);
    var inner :- if node.objectNode.IndexedAccessTypeNode? then KeysAsWritten(node.objectNode) else Ok([]);
    Ok(inner + [key])
  }

  /** The chain lists the keys in the order they are written, and the
      outermost bad key is the one reported. */
  lemma {:induction false} AccessChainFromAsWritten(node: TypeNode, acc: seq<string>)
    requires node.IndexedAccessTypeNode?
    ensures AccessChainFrom(node, acc) ==
      match KeysAsWritten(node)
      case Ok(keys) => Ok(keys + Reverse(acc))
      case Err(e) => Err(e)
    decreases node
  {
    match KeyOf(node.indexNode)
    case Err(_) =>
    case Ok(key) =>
      assert Reverse(acc + [key]) == [key] + Reverse(acc) by {
        assert (acc + [key])[..|acc|] == acc;
      }
      if node.objectNode.IndexedAccessTypeNode? {
        AccessChainFromAsWritten(node.objectNode, acc + [key]);
        match KeysAsWritten(node.objectNode)
        case Err(_) =>
        case Ok(inner) => assert inner + ([key] + Reverse(acc)) == (inner + [key]) + Reverse(acc);
      } else {
        assert [] + [key] == [key];
      }
  }

  lemma AccessChainAsWritten(node: TypeNode)
    requires node.IndexedAccessTypeNode?
    ensures AccessChain(node) == KeysAsWritten(node)
  {
    AccessChainFromAsWritten(node, []);
    match KeysAsWritten(node)
    case Err(_) =>
    case Ok(keys) => assert keys + Reverse([]) == keys;
  }

  /** `resolveIndexedAccessType` with the references still open on the way
      to the next property made explicit: an object is entered through the
      first property with the key's name, a reference through its definition. */
  function ResolveIn(chain: seq<string>, t: Type, tt: TypeTable, pending: set<string>): (r: Result<Type, string>)
    decreases |chain|, |pending|
    ensures |chain| == 0 ==> r == Ok(t)
    ensures |chain| > 0 && !t.Object? && !t.Reference? ==> r == Err(IndexedTypeError)
  {
    if |chain| == 0 then Ok(t)
    else
      match t
      case Object(props) =>
        var prop := PropertyNamed(props, chain[0]);
        if prop.None? then Err(PropertyNotFound)
        else ResolveIn(chain[1..], prop.value.propertyType, tt, tt.Names())
      case Reference(name) =>
        var def :- Enter(name, tt, pending);
        ResolveIn(chain, def, tt, pending - {name})
      case _ => Err(IndexedTypeError)
  }

  function ResolveIndexedAccessType(chain: seq<string>, t: Type, tt: TypeTable): (r: Result<Type, string>)
    ensures |chain| == 0 ==> r == Ok(t)
  {
    ResolveIn(chain, t, tt, tt.Names())
  }

  /** An object is entered through the first property that carries the key's
      name, with every declared name open again; without such a property the
      resolution fails. */
  lemma ResolveObjectStep(k: string, rest: seq<string>, props: seq<Property>, tt: TypeTable, p: set<string>)
    ensures (forall i :: 0 <= i < |props| ==> props[i].name != k) ==>
      ResolveIn([k] + rest, Object(props), tt, p) == Err(PropertyNotFound)
    ensures forall i :: 0 <= i < |props| && props[i].name == k && (forall j :: 0 <= j < i ==> props[j].name != k) ==>
      ResolveIn([k] + rest, Object(props), tt, p) == ResolveIn(rest, props[i].propertyType, tt, tt.Names())
  {
    assert ([k] + rest)[0] == k && ([k] + rest)[1..] == rest;
    forall i | 0 <= i < |props| && props[i].name == k && (forall j :: 0 <= j < i ==> props[j].name != k)
      ensures PropertyNamed(props, k) == Some(props[i])
    {
      PropertyNamedFirst(props, k, i);
    }
  }

  /** `find` returns the first property with the name. */
  lemma {:induction false} PropertyNamedFirst(props: seq<Property>, k: string, i: nat)
    requires i < |props| && props[i].name == k && forall j :: 0 <= j < i ==> props[j].name != k
    ensures PropertyNamed(props, k) == Some(props[i])
  {
    if i > 0 {
      PropertyNamedFirst(props[1..], k, i - 1);
    }
  }

  /** Opening more names never changes a successful resolution. */
  lemma {:induction false} ResolveMonotone(chain: seq<string>, t: Type, tt: TypeTable, p: set<string>, q: set<string>)
    requires p <= q && ResolveIn(chain, t, tt, p).Ok?
    ensures ResolveIn(chain, t, tt, q) == ResolveIn(chain, t, tt, p)
    decreases |chain|, |p|
  {
    if |chain| > 0 && t.Reference? {
      var def := Enter(t.name, tt, p).value;
      ResolveMonotone(chain, def, tt, p - {t.name}, q - {t.name});
    }
  }

  /** A reference is transparent to indexed access: the source's recursive
      equation holds on every success. */
  lemma ResolveUnfold(chain: seq<string>, name: string, tt: TypeTable)
    requires |chain| > 0 && ResolveIndexedAccessType(chain, Reference(name), tt).Ok?
    ensures tt.Exists(name)
    ensures ResolveIndexedAccessType(chain, Reference(name), tt) ==
      ResolveIndexedAccessType(chain, tt.Get(name).value.definition, tt)
  {
    var def := tt.Get(name).value.definition;
    ResolveMonotone(chain, def, tt, tt.Names() - {name}, tt.Names());
  }

  /** Resolving `a + b` resolves `a`, then `b` from where `a` ended. */
  lemma {:induction false} ResolveAppend(a: seq<string>, b: seq<string>, t: Type, tt: TypeTable, p: set<string>)
    requires |a| > 0 || p == tt.Names()
    ensures ResolveIn(a + b, t, tt, p) ==
      match ResolveIn(a, t, tt, p)
      case Ok(u) => ResolveIn(b, u, tt, tt.Names())
      case Err(e) => Err(e)
    decreases |a|, |p|
  {
    if |a| == 0 {
      assert a + b == b;
    } else {
      assert (a + b)[0] == a[0] && (a + b)[1..] == a[1..] + b;
      match t
      case Object(props) =>
        var prop := PropertyNamed(props, a[0]);
        if prop.Some? {
          ResolveAppend(a[1..], b, prop.value.propertyType, tt, tt.Names());
        }
      case Reference(name) =>
        if Enter(name, tt, p).Ok? {
          ResolveAppend(a, b, Enter(name, tt, p).value, tt, p - {name});
        }
      case _ =>
    }
  }

  /** `A[k1]...[kn]` resolves one key at a time: a chain is the composition
      of its parts. */
  lemma ResolveChainComposes(a: seq<string>, b: seq<string>, t: Type, tt: TypeTable)
    ensures ResolveIndexedAccessType(a + b, t, tt) ==
      match ResolveIndexedAccessType(a, t, tt)
      case Ok(u) => ResolveIndexedAccessType(b, u, tt)
      case Err(e) => Err(e)
  {
    ResolveAppend(a, b, t, tt, tt.Names());
  }

  /* ----- the table insertion rule ----- */

  /** Parsing a declaration a second time, in the state the first parse left,
      changes nothing and yields the same reference. */
  lemma DeclarationIdempotent(decl: Declaration, s: ParseState)
    requires decl.name !in SpotTypeAliases && ParseDeclaration(decl, s).Ok?
    ensures var later := ParseDeclaration(decl, s).value.1;
      ParseDeclaration(decl, later) == Ok((Reference(decl.name), later))
  {
  }

  /** A second declaration of a registered name at another location fails,
      however much the table has grown meanwhile. */
  lemma DefinedTwiceFails(first: Declaration, second: Declaration, s: ParseState, later: ParseState)
    requires first.name !in SpotTypeAliases && second.name == first.name && second.location != first.location
    requires ParseDeclaration(first, s).Ok? && Grows(ParseDeclaration(first, s).value.1, later)
    ensures ParseDeclaration(second, later) == Err(DefinedMultipleTimes(first.name))
  {
    var registered := ParseDeclaration(first, s).value.1;
    assert registered.table.Exists(first.name);
    assert later.table.Get(first.name) == registered.table.Get(first.name);
  }

  /** The first sight of a declaration registers its parsed body, with the
      trimmed doc comment, under its name and location; nothing else that
      the body's parse registered changes. */
  lemma FirstSightRegisters(decl: Declaration, s: ParseState)
    requires decl.name !in SpotTypeAliases && !s.table.Exists(decl.name)
    requires ParseDeclarationBody(decl, s).Ok? && !ParseDeclarationBody(decl, s).value.1.table.Exists(decl.name)
    ensures var body := ParseDeclarationBody(decl, s).value;
      var r := ParseDeclaration(decl, s);
      r.Ok? && r.value.0 == Reference(decl.name)
      && r.value.1.table.Get(decl.name) == Some(TypeDef(body.0, Description(decl.docs)))
      && r.value.1.loci == body.1.loci[decl.name := decl.location]
      && Extends(r.value.1.table, body.1.table) && r.value.1.table.Size() == body.1.table.Size() + 1
  {
    var body := ParseDeclarationBody(decl, s).value;
    var def := TypeDef(body.0, Description(decl.docs));
    var added := body.1.table.Add(decl.name, def);
    assert added.Ok?;
    assert ParseDeclaration(decl, s) == Ok((Reference(decl.name), ParseState(added.value, body.1.loci[decl.name := decl.location])));
  }

  /* ----- unions and intersections ----- */

  /** A union with a single member left is that member's type. */
  lemma {:induction false} ParseDefinedSingle(nodes: seq<TypeNode>, s: ParseState)
    requires |Defined(nodes)| == 1
    ensures ParseDefined(nodes, s) ==
      match ParseType(Defined(nodes)[0], s)
      case Ok(p) => Ok(([p.0], p.1))
      case Err(e) => Err(e)
  {
    if nodes[0].UndefinedKeyword? {
      assert Defined(nodes) == Defined(nodes[1..]);
      ParseDefinedSingle(nodes[1..], s);
    } else {
      assert Defined(nodes)[0] == nodes[0];
      assert |Defined(nodes[1..])| == 0;
      match ParseType(nodes[0], s)
      case Err(_) =>
      case Ok(p) =>
        ParseDefinedEmpty(nodes[1..], p.1);
        assert [p.0] + [] == [p.0];
    }
  }

  lemma {:induction false} ParseDefinedEmpty(nodes: seq<TypeNode>, s: ParseState)
    requires |Defined(nodes)| == 0
    ensures ParseDefined(nodes, s) == Ok(([], s))
  {
    if |nodes| > 0 {
      assert nodes[0].UndefinedKeyword?;
      ParseDefinedEmpty(nodes[1..], s);
    }
  }

  /** Accepting the members of `a + b` accepts those of `a`, then those of
      `b` from the state `a` left. */
  lemma {:induction false} IntersectionMembersAppend(a: seq<TypeNode>, b: seq<TypeNode>, s: ParseState)
    ensures ParseIntersectionMembers(a + b, s) ==
      match ParseIntersectionMembers(a, s)
      case Err(e) => Err(e)
      case Ok(x) =>
        match ParseIntersectionMembers(b, x.1)
        case Err(e) => Err(e)
        case Ok(y) => Ok((x.0 + y.0, y.1))
  {
    if |a| == 0 {
      assert a + b == b;
      match ParseIntersectionMembers(b, s)
      case Err(_) =>
      case Ok(y) => assert [] + y.0 == y.0;
    } else {
      assert (a + b)[0] == a[0] && (a + b)[1..] == a[1..] + b;
      if a[0].UndefinedKeyword? {
        IntersectionMembersAppend(a[1..], b, s);
      } else {
        match ParseType(a[0], s)
        case Err(_) =>
        case Ok(first) =>
          match PossibleRootTypes(first.0, first.1.table)
          case Err(_) =>
          case Ok(roots) =>
            if AllObjects(roots) {
              IntersectionMembersAppend(a[1..], b, first.1);
              match ParseIntersectionMembers(a[1..], first.1)
              case Err(_) =>
              case Ok(x) =>
                match ParseIntersectionMembers(b, x.1)
                case Err(_) =>
                case Ok(y) => assert [first.0] + (x.0 + y.0) == ([first.0] + x.0) + y.0;
            }
      }
    }
  }

  /** The first member, after the accepted ones, whose roots are not all
      objects fails the intersection with the primitive error. */
  lemma FirstPrimitiveMemberFails(a: seq<TypeNode>, b: seq<TypeNode>, s: ParseState)
    requires ParseIntersectionMembers(a, s).Ok?
    requires |b| > 0 && !b[0].UndefinedKeyword?
    requires var first := ParseType(b[0], ParseIntersectionMembers(a, s).value.1);
      first.Ok? && PossibleRootTypes(first.value.0, first.value.1.table).Ok?
      && !AllObjects(PossibleRootTypes(first.value.0, first.value.1.table).value)
    ensures ParseIntersectionMembers(a + b, s) == Err(PrimitiveInIntersection)
    ensures ParseIntersection(a + b, s) == Err(PrimitiveInIntersection)
  {
    IntersectionMembersAppend(a, b, s);
  }

  /** `undefined` members are dropped before anything else happens. */
  lemma {:induction false} ParseDefinedIgnoresUndefined(nodes: seq<TypeNode>, s: ParseState)
    ensures ParseDefined(Defined(nodes), s) == ParseDefined(nodes, s)
  {
    if |nodes| > 0 {
      var d := Defined(nodes);
      if nodes[0].UndefinedKeyword? {
        assert d == Defined(nodes[1..]);
        ParseDefinedIgnoresUndefined(nodes[1..], s);
      } else {
        assert d[0] == nodes[0] && d[1..] == Defined(nodes[1..]);
        match ParseType(nodes[0], s)
        case Err(_) =>
        case Ok(p) => ParseDefinedIgnoresUndefined(nodes[1..], p.1);
      }
    }
  }

  lemma DefinedIdempotent(nodes: seq<TypeNode>)
    ensures Defined(Defined(nodes)) == Defined(nodes)
  {
    if |nodes| > 0 {
      DefinedIdempotent(nodes[1..]);
      var d := Defined(nodes);
      if !nodes[0].UndefinedKeyword? {
        assert d[0] == nodes[0] && d[1..] == Defined(nodes[1..]);
      } else {
        assert d == Defined(nodes[1..]);
      }
    }
  }

  lemma UnionIgnoresUndefined(members: seq<TypeNode>, s: ParseState)
    ensures ParseUnion(Defined(members), s) == ParseUnion(members, s)
  {
    DefinedIdempotent(members);
    ParseDefinedIgnoresUndefined(members, s);
  }
}
