/** Reference resolution over a type table (lib/src/types.js): `dereferenceType`
    and `possibleRootTypes`.

    The source follows references by plain recursion. A reference cycle makes
    that recursion run until the JavaScript engine throws a `RangeError`; here
    `pending` holds the table names not yet entered on the current resolution
    path. Entering a name removes it, and meeting a name that is already
    entered (no longer in `pending`) fails with the engine's message.
    The lemmas `DereferenceUnfold` and `RootTypesUnfold` show that every
    successful result satisfies the source's own recursive equations. */
module Resolution {
  import opened Util
  import opened Types
  import opened Narrowing

  /** The message of the `RangeError` a runaway recursion ends in. */
  const CallStackExceeded := "Maximum call stack size exceeded"
  const IntersectionNotObjects := "Intersection type does not evaluate only object types"

  /** `typeTable.getOrError(name).type`, entered on a path where only the
      `pending` names have not been entered yet. */
  function Enter(name: string, tt: TypeTable, pending: set<string>): (r: Result<Type, string>)
    ensures r.Ok? <==> tt.Exists(name) && name in pending
    ensures r.Ok? ==> tt.Get(name).Some? && r.value == tt.Get(name).value.definition
    ensures !tt.Exists(name) ==> r == Err(KeyAbsentMessage + name)
  {
    var def :- tt.GetOrError(name);
    if name in pending then Ok(def.definition) else Err(CallStackExceeded)
  }

  /** `dereferenceType` with the open names made explicit. */
  function Deref(t: Type, tt: TypeTable, pending: set<string>): (r: Result<Type, string>)
    decreases |pending|
    ensures r.Ok? ==> !r.value.Reference?
    ensures !t.Reference? ==> r == Ok(t)
  {
    match t
    case Reference(name) =>
      var def :- Enter(name, tt, pending);
      Deref(def, tt, pending - {name})
    case _ => Ok(t)
  }

  /** `dereferenceType(t, typeTable)`: follows references until a non-reference. */
  function Dereference(t: Type, tt: TypeTable): (r: Result<Type, string>)
    ensures r.Ok? ==> !r.value.Reference?
    ensures !t.Reference? ==> r == Ok(t)
    ensures t.Reference? && !tt.Exists(t.name) ==> r == Err(KeyAbsentMessage + t.name)
  {
    Deref(t, tt, tt.Names())
  }

  /** `dereferenceType` is idempotent. */
  lemma DereferenceIdempotent(t: Type, tt: TypeTable)
    requires Dereference(t, tt).Ok?
    ensures Dereference(Dereference(t, tt).value, tt) == Dereference(t, tt)
  {
  }

  /** Opening fewer names never changes a successful dereference. */
  lemma {:induction false} DerefMonotone(t: Type, tt: TypeTable, p: set<string>, q: set<string>)
    requires p <= q && Deref(t, tt, p).Ok?
    ensures Deref(t, tt, q) == Deref(t, tt, p)
    decreases |p|
  {
    if t.Reference? {
      var def := Enter(t.name, tt, p).value;
      DerefMonotone(def, tt, p - {t.name}, q - {t.name});
    }
  }

  /** A successful dereference of a reference is the dereference of its
      definition: the recursive equation of `dereferenceType`. */
  lemma DereferenceUnfold(name: string, tt: TypeTable)
    requires Dereference(Reference(name), tt).Ok?
    ensures tt.Exists(name)
    ensures Dereference(Reference(name), tt) == Dereference(tt.Get(name).value.definition, tt)
  {
    var def := tt.Get(name).value.definition;
    DerefMonotone(def, tt, tt.Names() - {name}, tt.Names());
  }

  /** `possibleRootTypes` with the open names made explicit. */
  function RootsIn(t: Type, tt: TypeTable, pending: set<string>): (r: Result<seq<Type>, string>)
    decreases |pending|, t
    ensures r.Ok? ==> forall i :: 0 <= i < |r.value| ==> IsConcrete(r.value[i])
    ensures IsConcrete(t) ==> r == Ok([t])
    ensures t.Intersection? && r.Ok? ==> |r.value| == 1 && r.value[0].Object?
  {
    match t
    case Reference(name) =>
      var def :- Enter(name, tt, pending);
      RootsIn(def, tt, pending - {name})
    case Union(ts, _) => RootsOfAll(ts, tt, pending)
    case Intersection(ts) =>
      var roots :- RootsOfAll(ts, tt, pending);
      if AllObjects(roots) then Ok(ResolveIntersectionToNarrowestType(roots))
      else Err(IntersectionNotObjects)
    case _ => Ok([t])
  }

  /** The member roots of a union or intersection, concatenated in member order;
      the first failing member decides the failure. */
  function RootsOfAll(ts: seq<Type>, tt: TypeTable, pending: set<string>): (r: Result<seq<Type>, string>)
    decreases |pending|, ts
    ensures r.Ok? ==> forall i :: 0 <= i < |r.value| ==> IsConcrete(r.value[i])
  {
    if |ts| == 0 then Ok([])
    else
      var first :- RootsIn(ts[0], tt, pending);
      var rest :- RootsOfAll(ts[1..], tt, pending);
      Ok(first + rest)
  }

  /** `possibleRootTypes(t, typeTable)` */
  function PossibleRootTypes(t: Type, tt: TypeTable): (r: Result<seq<Type>, string>)
    ensures r.Ok? ==> forall i :: 0 <= i < |r.value| ==> IsConcrete(r.value[i])
    ensures IsConcrete(t) ==> r == Ok([t])
    ensures t.Intersection? && r.Ok? ==> |r.value| == 1 && r.value[0].Object?
    ensures t.Reference? && !tt.Exists(t.name) ==> r == Err(KeyAbsentMessage + t.name)
  {
    RootsIn(t, tt, tt.Names())
  }

  /** The roots of every member, concatenated: `types.reduce((acc, t) => acc.concat(possibleRootTypes(t)), [])`. */
  function PossibleRootTypesOfAll(ts: seq<Type>, tt: TypeTable): (r: Result<seq<Type>, string>)
    ensures r.Ok? ==> forall i :: 0 <= i < |r.value| ==> IsConcrete(r.value[i])
  {
    RootsOfAll(ts, tt, tt.Names())
  }

  /** Roots of a concatenation of member lists are the concatenation of their
      roots, and a failure in the first list wins. */
  lemma {:induction false} RootsOfAllAppend(a: seq<Type>, b: seq<Type>, tt: TypeTable, pending: set<string>)
    ensures RootsOfAll(a + b, tt, pending) ==
      match RootsOfAll(a, tt, pending)
      case Err(e) => Err(e)
      case Ok(x) => (match RootsOfAll(b, tt, pending) case Err(e) => Err(e) case Ok(y) => Ok(x + y))
    decreases a
  {
    if |a| > 0 {
      assert (a + b)[0] == a[0];
      assert (a + b)[1..] == a[1..] + b;
      RootsOfAllAppend(a[1..], b, tt, pending);
      match RootsIn(a[0], tt, pending)
      case Err(_) =>
      case Ok(first) =>
        match RootsOfAll(a[1..], tt, pending)
        case Err(_) =>
        case Ok(rest) =>
          match RootsOfAll(b, tt, pending)
          case Err(_) =>
          case Ok(y) => assert first + (rest + y) == (first + rest) + y;
    } else {
      assert a + b == b;
      match RootsOfAll(b, tt, pending)
      case Err(_) =>
      case Ok(y) => assert [] + y == y;
    }
  }

  /** The roots of a union are the concatenation of its members' roots. */
  lemma UnionRoots(ts: seq<Type>, d: Option<string>, tt: TypeTable)
    ensures PossibleRootTypes(Union(ts, d), tt) == PossibleRootTypesOfAll(ts, tt)
    ensures |ts| == 1 ==> PossibleRootTypes(Union(ts, d), tt) == PossibleRootTypes(ts[0], tt)
  {
    if |ts| == 1 {
      assert ts[1..] == [];
      match PossibleRootTypes(ts[0], tt)
      case Err(_) =>
      case Ok(x) =>
        assert RootsOfAll(ts[1..], tt, tt.Names()) == Ok([]);
        assert x + [] == x;
    }
  }

  /** An intersection fails unless every member root is an object, and then
      yields exactly the narrowed object. */
  lemma IntersectionRoots(ts: seq<Type>, tt: TypeTable)
    requires PossibleRootTypesOfAll(ts, tt).Ok?
    ensures var roots := PossibleRootTypesOfAll(ts, tt).value;
      PossibleRootTypes(Intersection(ts), tt) ==
        if AllObjects(roots) then Ok(ResolveIntersectionToNarrowestType(roots)) else Err(IntersectionNotObjects)
  {
  }

  /** Opening fewer names never changes a successful root computation. */
  lemma {:induction false} RootsMonotone(t: Type, tt: TypeTable, p: set<string>, q: set<string>)
    requires p <= q && RootsIn(t, tt, p).Ok?
    ensures RootsIn(t, tt, q) == RootsIn(t, tt, p)
    decreases |p|, t
  {
    match t
    case Reference(name) =>
      var def := Enter(name, tt, p).value;
      RootsMonotone(def, tt, p - {name}, q - {name});
    case Union(ts, _) => RootsOfAllMonotone(ts, tt, p, q);
    case Intersection(ts) => RootsOfAllMonotone(ts, tt, p, q);
    case _ =>
  }

  lemma {:induction false} RootsOfAllMonotone(ts: seq<Type>, tt: TypeTable, p: set<string>, q: set<string>)
    requires p <= q && RootsOfAll(ts, tt, p).Ok?
    ensures RootsOfAll(ts, tt, q) == RootsOfAll(ts, tt, p)
    decreases |p|, ts
  {
    if |ts| > 0 {
      RootsMonotone(ts[0], tt, p, q);
      RootsOfAllMonotone(ts[1..], tt, p, q);
    }
  }

  /** A successful root computation of a reference is that of its definition:
      the recursive equation of `possibleRootTypes`. */
  lemma RootTypesUnfold(name: string, tt: TypeTable)
    requires PossibleRootTypes(Reference(name), tt).Ok?
    ensures tt.Exists(name)
    ensures PossibleRootTypes(Reference(name), tt) == PossibleRootTypes(tt.Get(name).value.definition, tt)
  {
    var def := tt.Get(name).value.definition;
    RootsMonotone(def, tt, tt.Names() - {name}, tt.Names());
  }
  /** A root computation that succeeds gives the same roots in any table that
      extends the one it ran in. */
  lemma {:induction false} RootsExtend(t: Type, tt: TypeTable, bigger: TypeTable, p: set<string>)
    requires Extends(bigger, tt) && RootsIn(t, tt, p).Ok?
    ensures RootsIn(t, bigger, p) == RootsIn(t, tt, p)
    decreases |p|, t
  {
    match t
    case Reference(name) =>
      var def := Enter(name, tt, p).value;
      assert Enter(name, bigger, p) == Ok(def);
      RootsExtend(def, tt, bigger, p - {name});
    case Union(ts, _) => RootsOfAllExtend(ts, tt, bigger, p);
    case Intersection(ts) => RootsOfAllExtend(ts, tt, bigger, p);
    case _ =>
  }

  lemma {:induction false} RootsOfAllExtend(ts: seq<Type>, tt: TypeTable, bigger: TypeTable, p: set<string>)
    requires Extends(bigger, tt) && RootsOfAll(ts, tt, p).Ok?
    ensures RootsOfAll(ts, bigger, p) == RootsOfAll(ts, tt, p)
    decreases |p|, ts
  {
    if |ts| > 0 {
      RootsExtend(ts[0], tt, bigger, p);
      RootsOfAllExtend(ts[1..], tt, bigger, p);
    }
  }

  /** `possibleRootTypes` is stable under adding declarations to the table. */
  lemma PossibleRootTypesExtend(t: Type, tt: TypeTable, bigger: TypeTable)
    requires Extends(bigger, tt) && PossibleRootTypes(t, tt).Ok?
    ensures PossibleRootTypes(t, bigger) == PossibleRootTypes(t, tt)
  {
    RootsExtend(t, tt, bigger, tt.Names());
    ExtendsNames(bigger, tt);
    RootsMonotone(t, bigger, tt.Names(), bigger.Names());
  }
}
