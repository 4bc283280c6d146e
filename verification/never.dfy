/** `doesInterfaceEvaluatesToNever` (lib/src/types.js): does an intersection
    demand incompatible types of one property? The object roots of the members
    are collected (null and other non-object roots are skipped), every
    property's type is dereferenced and grouped by property name, and a group
    conflicts when, within one scalar family, it holds two different literal
    values, or, outside the families, two different kinds. */
module NeverCheck {
  import opened Util
  import opened Dicts
  import opened SeqSets
  import opened Types
  import opened Narrowing
  import opened Resolution
  import opened Discriminators

  /** `.filter(isObjectType)` */
  function ObjectsOnly(ts: seq<Type>): (r: seq<Type>)
    ensures AllObjects(r) && |r| <= |ts|
    ensures forall i :: 0 <= i < |r| ==> r[i] in ts
  {
    if |ts| == 0 then []
    else (if ts[0].Object? then [ts[0]] else []) + ObjectsOnly(ts[1..])
  }

  /** Every property of the objects with its dereferenced type, keyed by name. */
  function DereferencedProperties(objs: seq<Type>, tt: TypeTable): (r: Result<seq<(string, Type)>, string>)
    requires AllObjects(objs)
    ensures r.Ok? <==> forall i :: 0 <= i < |objs| ==> DereferencedOf(objs[i].properties, tt).Ok?
  {
    if |objs| == 0 then Ok([])
    else
      var here :- DereferencedOf(objs[0].properties, tt);
      var rest :- DereferencedProperties(objs[1..], tt);
      Ok(here + rest)
  }

  function DereferencedOf(props: seq<Property>, tt: TypeTable): (r: Result<seq<(string, Type)>, string>)
    ensures r.Ok? <==> forall i :: 0 <= i < |props| ==> Dereference(props[i].propertyType, tt).Ok?
    ensures r.Ok? ==> |r.value| == |props|
    ensures r.Ok? ==> forall i :: 0 <= i < |props| ==>
      r.value[i].0 == props[i].name && Dereference(props[i].propertyType, tt) == Ok(r.value[i].1)
  {
    if |props| == 0 then Ok([])
    else
      var d :- Dereference(props[0].propertyType, tt);
      var rest :- DereferencedOf(props[1..], tt);
      Ok([(props[0].name, d)] + rest)
  }

  /** The values of the family's literals, in order (`.filter(isXLiteralType).map(v => v.value)`). */
  function FamilyLiteralValues(ts: seq<Type>, f: Family): (vs: seq<LiteralValue>)
    ensures SetOf(vs) == FamilyLiterals(ts, f)
  {
    if |ts| == 0 then []
    else
      var rest := FamilyLiteralValues(ts[1..], f);
      var vs := (if IsFamilyLiteral(ts[0], f) then [LiteralValueOf(ts[0])] else []) + rest;
      assert FamilyLiterals(ts, f) == (if IsFamilyLiteral(ts[0], f) then {LiteralValueOf(ts[0])} else {}) + FamilyLiterals(ts[1..], f) by {
        assert forall j :: 1 <= j < |ts| ==> ts[j] == ts[1..][j - 1];
        forall v | v in FamilyLiterals(ts, f)
          ensures v in (if IsFamilyLiteral(ts[0], f) then {LiteralValueOf(ts[0])} else {}) + FamilyLiterals(ts[1..], f)
        {
          var j :| 0 <= j < |ts| && IsFamilyLiteral(ts[j], f) && v == LiteralValueOf(ts[j]);
          if j > 0 { assert ts[1..][j - 1] == ts[j]; }
        }
      }
      assert SetOf(vs) == SetOf(if IsFamilyLiteral(ts[0], f) then [LiteralValueOf(ts[0])] else []) + SetOf(rest);
      vs
  }

  /** The set of values of the family's literals among `ts`. */
  ghost function FamilyLiterals(ts: seq<Type>, f: Family): set<LiteralValue> {
    set j | 0 <= j < |ts| && IsFamilyLiteral(ts[j], f) :: LiteralValueOf(ts[j])
  }

  function KindsOf(ts: seq<Type>): (ks: seq<Kind>)
    ensures |ks| == |ts| && forall i :: 0 <= i < |ts| ==> ks[i] == KindOf(ts[i])
  {
    seq(|ts|, i requires 0 <= i < |ts| => KindOf(ts[i]))
  }

  /** The test applied to one group of same-named property types. */
  predicate Conflicts(ts: seq<Type>) {
    if AllInFamily(ts, StringFamily) then |SetOf(FamilyLiteralValues(ts, StringFamily))| > 1
    else if AllInFamily(ts, BooleanFamily) then |SetOf(FamilyLiteralValues(ts, BooleanFamily))| > 1
    else if AllInFamily(ts, IntFamily) then |SetOf(FamilyLiteralValues(ts, IntFamily))| > 1
    else if AllInFamily(ts, FloatFamily) then |SetOf(FamilyLiteralValues(ts, FloatFamily))| > 1
    else |SetOf(KindsOf(ts))| > 1
  }

  /** `Array.from(map.values()).some(conflicts)` */
  predicate AnyConflict(groups: Dict<string, seq<Type>>) {
    if |groups| == 0 then false else Conflicts(groups[0].1) || AnyConflict(groups[1..])
  }

  /** `doesInterfaceEvaluatesToNever(types, typeTable)`: fails exactly when a
      root fails to resolve or a property of an object root fails to dereference. */
  function DoesInterfaceEvaluateToNever(types: seq<Type>, tt: TypeTable): (r: Result<bool, string>)
    ensures r.Ok? <==>
      && PossibleRootTypesOfAll(types, tt).Ok?
      && PropertiesDereference(ObjectsOnly(NonNull(PossibleRootTypesOfAll(types, tt).value)), tt)
  {
    var all :- PossibleRootTypesOfAll(types, tt);
    var objs := ObjectsOnly(NonNull(all));
    DereferencedAll(objs, tt);
    var pairs :- DereferencedProperties(objs, tt);
    Ok(AnyConflict(GroupBy(pairs)))
  }

  /** Every property of every object dereferences. */
  predicate PropertiesDereference(objs: seq<Type>, tt: TypeTable)
    requires AllObjects(objs)
  {
    forall i, j :: 0 <= i < |objs| && 0 <= j < |objs[i].properties| ==>
      Dereference(objs[i].properties[j].propertyType, tt).Ok?
  }

  lemma DereferencedAll(objs: seq<Type>, tt: TypeTable)
    requires AllObjects(objs)
    ensures DereferencedProperties(objs, tt).Ok? <==> PropertiesDereference(objs, tt)
  {
  }

  // ----- The conflict, stated directly -----

  /** Two literals of the group carry different values. */
  predicate TwoLiteralValues(ts: seq<Type>) {
    exists i, j :: 0 <= i < |ts| && 0 <= j < |ts| && IsLiteral(ts[i]) && IsLiteral(ts[j])
      && LiteralValueOf(ts[i]) != LiteralValueOf(ts[j])
  }

  /** Two members of the group have different kinds. */
  predicate TwoKinds(ts: seq<Type>) {
    exists i, j :: 0 <= i < |ts| && 0 <= j < |ts| && KindOf(ts[i]) != KindOf(ts[j])
  }

  lemma SetMoreThanOne<T>(s: set<T>)
    ensures |s| > 1 <==> exists a, b :: a in s && b in s && a != b
  {
    if exists a, b :: a in s && b in s && a != b {
      var a, b :| a in s && b in s && a != b;
      assert {a, b} <= s;
      SubsetSize({a, b}, s);
    } else if |s| > 0 {
      var a :| a in s;
      assert s == {a};
    }
  }

  /** Within one family, a literal conflict is two literals with different values. */
  lemma LiteralConflict(ts: seq<Type>, f: Family)
    requires AllInFamily(ts, f)
    ensures |SetOf(FamilyLiteralValues(ts, f))| > 1 <==> TwoLiteralValues(ts)
  {
    var s := FamilyLiterals(ts, f);
    SetMoreThanOne(s);
    if TwoLiteralValues(ts) {
      var i, j :| 0 <= i < |ts| && 0 <= j < |ts| && IsLiteral(ts[i]) && IsLiteral(ts[j])
        && LiteralValueOf(ts[i]) != LiteralValueOf(ts[j]);
      assert InFamily(ts[i], f) && InFamily(ts[j], f);
      assert LiteralValueOf(ts[i]) in s && LiteralValueOf(ts[j]) in s;
    }
    if |s| > 1 {
      var a, b :| a in s && b in s && a != b;
      var i :| 0 <= i < |ts| && IsFamilyLiteral(ts[i], f) && a == LiteralValueOf(ts[i]);
      var j :| 0 <= j < |ts| && IsFamilyLiteral(ts[j], f) && b == LiteralValueOf(ts[j]);
      assert IsLiteral(ts[i]) && IsLiteral(ts[j]);
    }
  }

  lemma KindConflict(ts: seq<Type>)
    ensures |SetOf(KindsOf(ts))| > 1 <==> TwoKinds(ts)
  {
    var ks := KindsOf(ts);
    SetOfMoreThanOne(ks);
    if TwoKinds(ts) {
      var i, j :| 0 <= i < |ts| && 0 <= j < |ts| && KindOf(ts[i]) != KindOf(ts[j]);
      assert ks[i] != ks[j];
    }
  }

  /** A group conflicts iff, when it lies in one scalar family, two of its
      literals differ, and otherwise two of its kinds differ. */
  lemma ConflictsSpec(ts: seq<Type>)
    ensures Conflicts(ts) <==>
      if exists f: Family :: AllInFamily(ts, f) then TwoLiteralValues(ts) else TwoKinds(ts)
  {
    KindConflict(ts);
    var g := FirstFamily(ts);
    if exists f: Family :: AllInFamily(ts, f) {
      var f: Family :| AllInFamily(ts, f);
      assert AllInFamily(ts, g);
      LiteralConflict(ts, g);
    }
  }

  /** The family the source's chain of tests settles on. */
  function FirstFamily(ts: seq<Type>): Family {
    if AllInFamily(ts, StringFamily) then StringFamily
    else if AllInFamily(ts, BooleanFamily) then BooleanFamily
    else if AllInFamily(ts, IntFamily) then IntFamily
    else FloatFamily
  }

  /** A property seen once never conflicts. */
  lemma SingleNeverConflicts(t: Type)
    ensures !Conflicts([t])
  {
    ConflictsSpec([t]);
  }

  lemma {:induction false} AnyConflictSome(groups: Dict<string, seq<Type>>)
    ensures AnyConflict(groups) <==> exists i :: 0 <= i < |groups| && Conflicts(groups[i].1)
  {
    if |groups| > 0 {
      AnyConflictSome(groups[1..]);
      assert forall i :: 1 <= i < |groups| ==> groups[i] == groups[1..][i - 1];
    }
  }

  lemma GroupConflictMentioned(pairs: seq<(string, Type)>, i: nat)
    requires i < |GroupBy(pairs)|
    ensures Mentions(pairs, GroupBy(pairs)[i].0)
    ensures GroupBy(pairs)[i].1 == ValuesOf(pairs, GroupBy(pairs)[i].0)
  {
    var g := GroupBy(pairs);
    GroupByDistinct(pairs);
    GetAt(g, i);
    GroupByGet(pairs, g[i].0);
    GroupByKeysMentioned(pairs, i);
  }

  /** Some group conflicts iff some mentioned name's values conflict. */
  lemma {:induction false} GroupsConflict(pairs: seq<(string, Type)>)
    ensures AnyConflict(GroupBy(pairs)) <==> exists name :: Mentions(pairs, name) && Conflicts(ValuesOf(pairs, name))
  {
    var g := GroupBy(pairs);
    AnyConflictSome(g);
    if AnyConflict(g) {
      var i :| 0 <= i < |g| && Conflicts(g[i].1);
      GroupConflictMentioned(pairs, i);
    }
    if exists name :: Mentions(pairs, name) && Conflicts(ValuesOf(pairs, name)) {
      var name :| Mentions(pairs, name) && Conflicts(ValuesOf(pairs, name));
      GroupByGet(pairs, name);
      assert Has(g, name);
      var i :| 0 <= i < |g| && g[i].0 == name;
      GroupConflictMentioned(pairs, i);
    }
  }

  /** Never iff some property name's dereferenced types conflict. */
  lemma NeverSpec(types: seq<Type>, tt: TypeTable)
    requires DoesInterfaceEvaluateToNever(types, tt).Ok?
    ensures var objs := ObjectsOnly(NonNull(PossibleRootTypesOfAll(types, tt).value));
      var pairs := DereferencedProperties(objs, tt).value;
      DoesInterfaceEvaluateToNever(types, tt).value <==>
        exists name :: Mentions(pairs, name) && Conflicts(ValuesOf(pairs, name))
  {
    var objs := ObjectsOnly(NonNull(PossibleRootTypesOfAll(types, tt).value));
    GroupsConflict(DereferencedProperties(objs, tt).value);
  }
}
