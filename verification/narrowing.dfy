/** `resolveIntersectionToNarrowestType` (lib/src/types.js): the object roots of
    an intersection are merged into one object. Properties are grouped by name
    in order of first occurrence; within the string, boolean, int and float
    families the group becomes its first literal member, or else its first
    primitive member. A group whose types do not all fall into one family
    contributes nothing: the source computes `concat` for it and discards the
    result. */
module Narrowing {
  import opened Util
  import opened Dicts
  import opened Types

  predicate AllObjects(ts: seq<Type>) {
    forall i :: 0 <= i < |ts| ==> ts[i].Object?
  }

  /** A list of properties keyed by their names. */
  function Keyed(props: seq<Property>): (pairs: seq<(string, Property)>)
    ensures |pairs| == |props|
    ensures forall i :: 0 <= i < |pairs| ==> pairs[i] == (props[i].name, props[i])
  {
    seq(|props|, i requires 0 <= i < |props| => (props[i].name, props[i]))
  }

  /** Every property of every object, keyed by name, objects in order. */
  function PropertyPairs(objs: seq<Type>): (pairs: seq<(string, Property)>)
    requires AllObjects(objs)
    ensures forall i :: 0 <= i < |pairs| ==> pairs[i].0 == pairs[i].1.name
  {
    if |objs| == 0 then []
    else PropertyPairs(objs[..|objs| - 1]) + Keyed(objs[|objs| - 1].properties)
  }

  function TypesOf(group: seq<Property>): (ts: seq<Type>)
    ensures |ts| == |group|
    ensures forall i :: 0 <= i < |ts| ==> ts[i] == group[i].propertyType
  {
    seq(|group|, i requires 0 <= i < |group| => group[i].propertyType)
  }

  /** `propertyTypeList.find(p => isLiteral(p.type))` for the family's literal kind. */
  function FirstLiteral(group: seq<Property>, f: Family): (r: Option<Property>)
    ensures r.Some? ==> r.value in group && IsFamilyLiteral(r.value.propertyType, f)
    ensures r.None? <==> forall i :: 0 <= i < |group| ==> !IsFamilyLiteral(group[i].propertyType, f)
  {
    if |group| == 0 then None
    else if IsFamilyLiteral(group[0].propertyType, f) then Some(group[0])
    else
      var r := FirstLiteral(group[1..], f);
      assert forall i :: 1 <= i < |group| ==> group[i] == group[1..][i - 1];
      r
  }

  /** `propertyTypeList.find(p => isPrimitive(p.type))` for the family's primitive kinds. */
  function FirstPrimitive(group: seq<Property>, f: Family): (r: Option<Property>)
    ensures r.Some? ==> r.value in group && IsFamilyPrimitive(r.value.propertyType, f)
    ensures r.None? <==> forall i :: 0 <= i < |group| ==> !IsFamilyPrimitive(group[i].propertyType, f)
  {
    if |group| == 0 then None
    else if IsFamilyPrimitive(group[0].propertyType, f) then Some(group[0])
    else
      var r := FirstPrimitive(group[1..], f);
      assert forall i :: 1 <= i < |group| ==> group[i] == group[1..][i - 1];
      r
  }

  /** `getPrimitiveOrLiteralType`: a member of the group; which one is
      `GetPrimitiveOrLiteralTypeFirst`. */
  function GetPrimitiveOrLiteralType(group: seq<Property>, f: Family): (r: Option<Property>)
    ensures r.Some? ==> r.value in group
  {
    match FirstLiteral(group, f)
    case Some(p) => Some(p)
    case None => FirstPrimitive(group, f)
  }

  /** `find` returns the earliest match: no member before the one returned
      matches its predicate. */
  lemma {:induction false} FirstLiteralIsFirst(group: seq<Property>, f: Family)
    requires FirstLiteral(group, f).Some?
    ensures exists k :: (0 <= k < |group| && group[k] == FirstLiteral(group, f).value
      && forall i :: 0 <= i < k ==> !IsFamilyLiteral(group[i].propertyType, f))
  {
    if !IsFamilyLiteral(group[0].propertyType, f) {
      FirstLiteralIsFirst(group[1..], f);
      var k :| 0 <= k < |group[1..]| && group[1..][k] == FirstLiteral(group, f).value
        && forall i :: 0 <= i < k ==> !IsFamilyLiteral(group[1..][i].propertyType, f);
      assert group[k + 1] == FirstLiteral(group, f).value;
    } else {
      assert group[0] == FirstLiteral(group, f).value;
    }
  }

  lemma {:induction false} FirstPrimitiveIsFirst(group: seq<Property>, f: Family)
    requires FirstPrimitive(group, f).Some?
    ensures exists k :: (0 <= k < |group| && group[k] == FirstPrimitive(group, f).value
      && forall i :: 0 <= i < k ==> !IsFamilyPrimitive(group[i].propertyType, f))
  {
    if !IsFamilyPrimitive(group[0].propertyType, f) {
      FirstPrimitiveIsFirst(group[1..], f);
      var k :| 0 <= k < |group[1..]| && group[1..][k] == FirstPrimitive(group, f).value
        && forall i :: 0 <= i < k ==> !IsFamilyPrimitive(group[1..][i].propertyType, f);
      assert group[k + 1] == FirstPrimitive(group, f).value;
    } else {
      assert group[0] == FirstPrimitive(group, f).value;
    }
  }

  /** Nothing is returned exactly when the group holds neither a literal nor a
      primitive of the family. Otherwise the group's first literal of the family
      is returned, and only when there is no literal, its first primitive. */
  lemma GetPrimitiveOrLiteralTypeFirst(group: seq<Property>, f: Family)
    ensures GetPrimitiveOrLiteralType(group, f).None? <==> forall i :: 0 <= i < |group| ==>
      !IsFamilyLiteral(group[i].propertyType, f) && !IsFamilyPrimitive(group[i].propertyType, f)
    ensures GetPrimitiveOrLiteralType(group, f).Some? ==>
      var p := GetPrimitiveOrLiteralType(group, f).value;
      if exists i :: 0 <= i < |group| && IsFamilyLiteral(group[i].propertyType, f) then
        IsFamilyLiteral(p.propertyType, f)
        && exists k :: 0 <= k < |group| && group[k] == p
             && forall i :: 0 <= i < k ==> !IsFamilyLiteral(group[i].propertyType, f)
      else
        IsFamilyPrimitive(p.propertyType, f)
        && exists k :: 0 <= k < |group| && group[k] == p
             && forall i :: 0 <= i < k ==> !IsFamilyPrimitive(group[i].propertyType, f)
  {
    if FirstLiteral(group, f).Some? {
      FirstLiteralIsFirst(group, f);
    } else if FirstPrimitive(group, f).Some? {
      FirstPrimitiveIsFirst(group, f);
    }
  }

  /** The narrowest property of one same-named group, if the group lies in one family. */
  function PickNarrowest(group: seq<Property>): (r: Option<Property>)
    ensures r.Some? ==> r.value in group
  {
    var ts := TypesOf(group);
    if AllInFamily(ts, StringFamily) then GetPrimitiveOrLiteralType(group, StringFamily)
    else if AllInFamily(ts, BooleanFamily) then GetPrimitiveOrLiteralType(group, BooleanFamily)
    else if AllInFamily(ts, IntFamily) then GetPrimitiveOrLiteralType(group, IntFamily)
    else if AllInFamily(ts, FloatFamily) then GetPrimitiveOrLiteralType(group, FloatFamily)
    else None
  }

  /** The narrowed property of every group that has one, groups in order. */
  function NarrowedProperties(groups: Dict<string, seq<Property>>): (props: seq<Property>)
    ensures |props| <= |groups|
  {
    if |groups| == 0 then []
    else
      NarrowedProperties(groups[..|groups| - 1])
        + match PickNarrowest(groups[|groups| - 1].1) case Some(p) => [p] case None => []
  }

  /** `resolveIntersectionToNarrowestType(types)`: always a single object. */
  function ResolveIntersectionToNarrowestType(objs: seq<Type>): (r: seq<Type>)
    requires AllObjects(objs)
    ensures |r| == 1 && r[0].Object?
  {
    [Object(NarrowedProperties(GroupBy(PropertyPairs(objs))))]
  }

  /** The first property named `name`, if any. */
  function PropertyNamed(props: seq<Property>, name: string): (r: Option<Property>)
    ensures r.Some? ==> r.value in props && r.value.name == name
    ensures r.None? <==> forall i :: 0 <= i < |props| ==> props[i].name != name
  {
    if |props| == 0 then None
    else if props[0].name == name then Some(props[0])
    else
      var r := PropertyNamed(props[1..], name);
      assert forall i :: 1 <= i < |props| ==> props[i] == props[1..][i - 1];
      r
  }

  /** No two properties share a name. */
  predicate DistinctPropertyNames(props: seq<Property>) {
    forall i, j :: 0 <= i < j < |props| ==> props[i].name != props[j].name
  }

  /** The index of the first literal-typed member of a group, of any family. */
  function FirstLiteralIndex(group: seq<Property>): (r: Option<nat>)
    ensures r.Some? ==> r.value < |group| && IsLiteral(group[r.value].propertyType)
    ensures r.Some? ==> forall i :: 0 <= i < r.value ==> !IsLiteral(group[i].propertyType)
    ensures r.None? ==> forall i :: 0 <= i < |group| ==> !IsLiteral(group[i].propertyType)
  {
    if |group| == 0 then None
    else if IsLiteral(group[0].propertyType) then Some(0)
    else
      match FirstLiteralIndex(group[1..])
      case Some(i) =>
        assert forall j :: 1 <= j < |group| ==> group[j] == group[1..][j - 1];
        Some(i + 1)
      case None =>
        assert forall j :: 1 <= j < |group| ==> group[j] == group[1..][j - 1];
        None
  }

  /** The types of a group all lie in one scalar family. */
  predicate InOneFamily(group: seq<Property>) {
    exists f: Family :: AllInFamily(TypesOf(group), f)
  }

  lemma FirstLiteralInFamily(group: seq<Property>, f: Family)
    requires AllInFamily(TypesOf(group), f)
    ensures FirstLiteral(group, f) == match FirstLiteralIndex(group) case Some(i) => Some(group[i]) case None => None
  {
    if |group| > 0 {
      assert InFamily(TypesOf(group)[0], f);
      assert AllInFamily(TypesOf(group[1..]), f) by {
        forall i | 0 <= i < |group[1..]| ensures InFamily(TypesOf(group[1..])[i], f) {
          assert TypesOf(group[1..])[i] == TypesOf(group)[i + 1];
        }
      }
      FirstLiteralInFamily(group[1..], f);
    }
  }

  /** Narrowing a group, stated without the family-by-family search: the group
      lies in one family, and then the result is its first literal member, or
      its first member when it has no literal. */
  lemma PickNarrowestSpec(group: seq<Property>)
    requires |group| > 0
    ensures PickNarrowest(group).Some? <==> InOneFamily(group)
    ensures InOneFamily(group) ==>
      PickNarrowest(group) == Some(match FirstLiteralIndex(group) case Some(i) => group[i] case None => group[0])
  {
    var ts := TypesOf(group);
    if f: Family :| AllInFamily(ts, f) {
      FirstLiteralInFamily(group, f);
      assert InFamily(ts[0], f);
      FamilyMembers(ts[0], f, f);
      var g: Family :| (g == StringFamily && AllInFamily(ts, StringFamily))
        || (g == BooleanFamily && !AllInFamily(ts, StringFamily) && AllInFamily(ts, BooleanFamily))
        || (g == IntFamily && !AllInFamily(ts, StringFamily) && !AllInFamily(ts, BooleanFamily) && AllInFamily(ts, IntFamily))
        || (g == FloatFamily && !AllInFamily(ts, StringFamily) && !AllInFamily(ts, BooleanFamily) && !AllInFamily(ts, IntFamily))
        by {
          if !AllInFamily(ts, StringFamily) && !AllInFamily(ts, BooleanFamily) && !AllInFamily(ts, IntFamily) {
            FamilyMembers(ts[0], f, StringFamily);
            FamilyMembers(ts[0], f, BooleanFamily);
            FamilyMembers(ts[0], f, IntFamily);
            assert f == FloatFamily;
          }
        }
      FamilyMembers(ts[0], f, g);
      assert g == f;
      assert GetPrimitiveOrLiteralType(group, f) == PickNarrowest(group);
      if FirstLiteralIndex(group).None? {
        assert !IsFamilyLiteral(ts[0], f);
        assert FirstPrimitive(group, f) == Some(group[0]);
      }
    } else {
      assert PickNarrowest(group) == None;
    }
  }

  /** In a grouping of keyed properties, every member of a group carries its key. */
  predicate GroupsNamedByKey(groups: Dict<string, seq<Property>>) {
    forall i, j :: 0 <= i < |groups| && 0 <= j < |groups[i].1| ==> groups[i].1[j].name == groups[i].0
  }

  lemma {:induction false} GroupByNamedByKey(pairs: seq<(string, Property)>)
    requires forall i :: 0 <= i < |pairs| ==> pairs[i].0 == pairs[i].1.name
    ensures GroupsNamedByKey(GroupBy(pairs))
  {
    var g := GroupBy(pairs);
    forall i, j | 0 <= i < |g| && 0 <= j < |g[i].1| ensures g[i].1[j].name == g[i].0 {
      GroupMemberNamed(pairs, i, j);
    }
  }

  lemma {:induction false} GroupMemberNamed(pairs: seq<(string, Property)>, i: nat, j: nat)
    requires forall i :: 0 <= i < |pairs| ==> pairs[i].0 == pairs[i].1.name
    requires i < |GroupBy(pairs)| && j < |GroupBy(pairs)[i].1|
    ensures GroupBy(pairs)[i].1[j].name == GroupBy(pairs)[i].0
  {
    var g := GroupBy(pairs);
    var key := g[i].0;
    GroupByDistinct(pairs);
    GetAt(g, i);
    GroupByGet(pairs, key);
    assert g[i].1 == ValuesOf(pairs, key);
    ValuesOfFrom(pairs, key, j);
    var k :| 0 <= k < |pairs| && pairs[k] == (key, g[i].1[j]);
  }

  /** Looking a name up among the narrowed properties is looking up its group
      and narrowing it. */
  lemma {:induction false} NarrowedLookup(groups: Dict<string, seq<Property>>, name: string)
    requires DistinctKeys(groups) && GroupsNamedByKey(groups)
    ensures PropertyNamed(NarrowedProperties(groups), name) ==
      match Dicts.Get(groups, name) case Some(g) => PickNarrowest(g) case None => None
    ensures forall i :: 0 <= i < |NarrowedProperties(groups)| ==> Has(groups, NarrowedProperties(groups)[i].name)
  {
    if |groups| > 0 {
      var init := groups[..|groups| - 1];
      var last := groups[|groups| - 1];
      assert groups == init + [last];
      NarrowedLookup(init, name);
      GetSnoc(init, last, name);
      var a := NarrowedProperties(init);
      var tail: seq<Property> := match PickNarrowest(last.1) case Some(p) => [p] case None => [];
      assert NarrowedProperties(groups) == a + tail;
      PickNarrowestNamed(groups, |groups| - 1);
      PropertyNamedAppend(a, tail, name);
      if Has(init, name) {
        var k :| 0 <= k < |init| && init[k].0 == name;
        assert last.0 != name;
        assert PropertyNamed(tail, name) == None;
      } else if last.0 == name {
        assert PropertyNamed(a, name) == None;
      } else {
        assert PropertyNamed(tail, name) == None;
      }
    }
    assert forall i :: 0 <= i < |NarrowedProperties(groups)| ==> Has(groups, NarrowedProperties(groups)[i].name) by {
      NarrowedKeyed(groups);
    }
  }

  /** A group's narrowed property carries the group's key. */
  lemma PickNarrowestNamed(groups: Dict<string, seq<Property>>, k: nat)
    requires GroupsNamedByKey(groups) && k < |groups|
    ensures PickNarrowest(groups[k].1).Some? ==> PickNarrowest(groups[k].1).value.name == groups[k].0
  {
    if PickNarrowest(groups[k].1).Some? {
      var j :| 0 <= j < |groups[k].1| && groups[k].1[j] == PickNarrowest(groups[k].1).value;
    }
  }

  /** Every narrowed property is named by one of the keys. */
  lemma {:induction false} NarrowedKeyed(groups: Dict<string, seq<Property>>)
    requires GroupsNamedByKey(groups)
    ensures forall i :: 0 <= i < |NarrowedProperties(groups)| ==> Has(groups, NarrowedProperties(groups)[i].name)
  {
    if |groups| > 0 {
      var init := groups[..|groups| - 1];
      var last := groups[|groups| - 1];
      assert GroupsNamedByKey(init) by {
        forall i, j | 0 <= i < |init| && 0 <= j < |init[i].1| ensures init[i].1[j].name == init[i].0 {
          assert init[i] == groups[i];
        }
      }
      NarrowedKeyed(init);
      var a := NarrowedProperties(init);
      var tail: seq<Property> := match PickNarrowest(last.1) case Some(p) => [p] case None => [];
      assert NarrowedProperties(groups) == a + tail;
      PickNarrowestNamed(groups, |groups| - 1);
      forall i | 0 <= i < |a + tail| ensures Has(groups, (a + tail)[i].name) {
        if i < |a| {
          var k :| 0 <= k < |init| && init[k].0 == a[i].name;
          assert groups[k].0 == a[i].name;
        } else {
          assert groups[|groups| - 1].0 == (a + tail)[i].name;
        }
      }
    }
  }

  lemma PropertyNamedAppend(a: seq<Property>, b: seq<Property>, name: string)
    ensures PropertyNamed(a + b, name) == if PropertyNamed(a, name).Some? then PropertyNamed(a, name) else PropertyNamed(b, name)
  {
    if |a| > 0 {
      assert (a + b)[1..] == a[1..] + b;
      PropertyNamedAppend(a[1..], b, name);
    } else {
      assert a + b == b;
    }
  }

  /** The narrowed object holds each name once. */
  lemma {:induction false} NarrowedDistinct(groups: Dict<string, seq<Property>>)
    requires DistinctKeys(groups) && GroupsNamedByKey(groups)
    ensures DistinctPropertyNames(NarrowedProperties(groups))
  {
    if |groups| > 0 {
      var init := groups[..|groups| - 1];
      var last := groups[|groups| - 1];
      NarrowedDistinct(init);
      NarrowedLookup(init, last.0);
      var a := NarrowedProperties(init);
      if PickNarrowest(last.1).Some? {
        var p := PickNarrowest(last.1).value;
        var j :| 0 <= j < |last.1| && last.1[j] == p;
        assert p.name == last.0;
        forall i | 0 <= i < |a| ensures a[i].name != p.name {
          var k :| 0 <= k < |init| && init[k].0 == a[i].name;
          assert groups[k].0 == a[i].name;
        }
      }
    }
  }

  /** The narrowed intersection: each property name once; a name is kept iff
      its group lies in one scalar family, and then it is narrowed as
      `PickNarrowestSpec` describes; names keep their first-occurrence order. */
  lemma NarrowestType(objs: seq<Type>, name: string)
    requires AllObjects(objs)
    ensures var pairs := PropertyPairs(objs);
      var props := ResolveIntersectionToNarrowestType(objs)[0].properties;
      && DistinctPropertyNames(props)
      && PropertyNamed(props, name) == (if Mentions(pairs, name) then PickNarrowest(ValuesOf(pairs, name)) else None)
      && Keys(GroupBy(pairs)) == FirstOccurrences(Keys(pairs))
  {
    var pairs := PropertyPairs(objs);
    var g := GroupBy(pairs);
    GroupByDistinct(pairs);
    GroupByNamedByKey(pairs);
    NarrowedDistinct(g);
    NarrowedLookup(g, name);
    GroupByGet(pairs, name);
    GroupByKeysOrder(pairs);
  }
}
