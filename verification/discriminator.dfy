/** `inferDiscriminator` (lib/src/types.js): the property that tells the object
    members of a union apart. Null roots are ignored; any other non-object root
    means there is no discriminator. Each required property whose dereferenced
    type is a string literal records its value under the property name; a name
    qualifies when its set of values is as large as the number of roots, and
    the discriminator is the only qualifying name, if there is exactly one. */
module Discriminators {
  import opened Util
  import opened Dicts
  import opened SeqSets
  import opened Types
  import opened Narrowing
  import opened Resolution

  /** `.filter(isNotNullType)` */
  function NonNull(ts: seq<Type>): (r: seq<Type>)
    ensures |r| <= |ts|
    ensures forall i :: 0 <= i < |r| ==> !r[i].Null? && r[i] in ts
    ensures forall i :: 0 <= i < |ts| && !ts[i].Null? ==> ts[i] in r
  {
    if |ts| == 0 then []
    else (if ts[0].Null? then [] else [ts[0]]) + NonNull(ts[1..])
  }

  /** The string-literal values of the required properties of one object, keyed
      by property name, in declaration order. Properties are visited in order,
      so the first required property whose dereference fails decides the error
      (`LiteralPropertiesFirstFailure`). */
  function LiteralProperties(props: seq<Property>, tt: TypeTable): (r: Result<seq<(string, string)>, string>)
    ensures r.Ok? <==> forall i :: 0 <= i < |props| && !props[i].optional ==> Dereference(props[i].propertyType, tt).Ok?
  {
    if |props| == 0 then Ok([])
    else if props[0].optional then
      LiteralProperties(props[1..], tt)
    else
      var d :- Dereference(props[0].propertyType, tt);
      var rest :- LiteralProperties(props[1..], tt);
      if d.StringLiteral? then Ok([(props[0].name, d.stringValue)] + rest) else Ok(rest)
  }

  /** The loop over the roots: `None` when a non-object root ends it early. */
  function Collect(roots: seq<Type>, tt: TypeTable): (r: Result<Option<seq<(string, string)>>, string>)
    ensures r.Ok? && r.value.Some? <==>
      forall i :: 0 <= i < |roots| ==> roots[i].Object? && LiteralProperties(roots[i].properties, tt).Ok?
    ensures r.Ok? && r.value.None? ==> exists i :: 0 <= i < |roots| && !roots[i].Object?
    ensures r.Err? ==> exists i :: 0 <= i < |roots| && roots[i].Object? && LiteralProperties(roots[i].properties, tt).Err?
  {
    if |roots| == 0 then Ok(Some([]))
    else if !roots[0].Object? then Ok(None)
    else
      var here :- LiteralProperties(roots[0].properties, tt);
      var rest :- Collect(roots[1..], tt);
      Ok(match rest case None => None case Some(ps) => Some(here + ps))
  }

  /** The names whose set of values has exactly `n` elements, in insertion order. */
  function Candidates(groups: Dict<string, seq<string>>, n: nat): (c: seq<string>)
    ensures |c| <= |groups|
  {
    if |groups| == 0 then []
    else (if |SetOf(groups[0].1)| == n then [groups[0].0] else []) + Candidates(groups[1..], n)
  }

  /** `inferDiscriminator(types, typeTable)` */
  function InferDiscriminator(types: seq<Type>, tt: TypeTable): (r: Result<Option<string>, string>)
    ensures r.Ok? && r.value.Some? ==>
      && PossibleRootTypesOfAll(types, tt).Ok?
      && var roots := NonNull(PossibleRootTypesOfAll(types, tt).value);
        |roots| > 0 && AllObjects(roots)
    ensures r.Err? && PossibleRootTypesOfAll(types, tt).Ok? ==>
      var roots := NonNull(PossibleRootTypesOfAll(types, tt).value);
      exists i :: 0 <= i < |roots| && roots[i].Object? && LiteralProperties(roots[i].properties, tt).Err?
  {
    var all :- PossibleRootTypesOfAll(types, tt);
    var roots := NonNull(all);
    var collected := Collect(roots, tt);
    if collected.Err? then Err(collected.error)
    else match collected.value
    case None => Ok(None)
    case Some(pairs) =>
      var candidates := Candidates(GroupBy(pairs), |roots|);
      Ok(if |candidates| == 1 then Some(candidates[0]) else None)
  }

  // ----- The discriminator, stated per object -----

  /** The discriminating value an object offers under name `p`: `p` is a
      required property whose type dereferences to a string literal. */
  function OfferedValue(props: seq<Property>, p: string, tt: TypeTable): Option<string> {
    match PropertyNamed(props, p)
    case Some(prop) =>
      if prop.optional then None
      else (match Dereference(prop.propertyType, tt) case Ok(StringLiteral(v)) => Some(v) case _ => None)
    case None => None
  }

  /** `p` is required and string-literal on every root, with pairwise different values. */
  predicate IsDiscriminatorOf(roots: seq<Type>, p: string, tt: TypeTable)
    requires AllObjects(roots)
  {
    && |roots| > 0
    && (forall i :: 0 <= i < |roots| ==> OfferedValue(roots[i].properties, p, tt).Some?)
    && (forall i, j :: 0 <= i < j < |roots| ==>
          OfferedValue(roots[i].properties, p, tt) != OfferedValue(roots[j].properties, p, tt))
  }

  /** Every object root has its property names once. */
  predicate DistinctNamesInAll(roots: seq<Type>)
    requires AllObjects(roots)
  {
    forall i :: 0 <= i < |roots| ==> DistinctPropertyNames(roots[i].properties)
  }

  /** The values offered under `p`, roots in order, skipping roots that offer none. */
  function Offered(roots: seq<Type>, p: string, tt: TypeTable): (vs: seq<string>)
    requires AllObjects(roots)
    ensures |vs| <= |roots|
  {
    if |roots| == 0 then []
    else
      (match OfferedValue(roots[0].properties, p, tt) case Some(v) => [v] case None => [])
        + Offered(roots[1..], p, tt)
  }

  // ----- Proof -----

  lemma {:induction false} ValuesOfAppend<K, V>(a: seq<(K, V)>, b: seq<(K, V)>, k: K)
    ensures ValuesOf(a + b, k) == ValuesOf(a, k) + ValuesOf(b, k)
  {
    if |b| == 0 {
      assert a + b == a;
    } else {
      var b0 := b[..|b| - 1];
      assert (a + b)[..|a + b| - 1] == a + b0;
      assert (a + b)[|a + b| - 1] == b[|b| - 1];
      ValuesOfAppend(a, b0, k);
    }
  }

  /** When every required property before `k` dereferences and `k`'s does not,
      the error is `k`'s: later properties are never looked at. */
  lemma {:induction false} LiteralPropertiesFirstFailure(props: seq<Property>, tt: TypeTable, k: nat)
    requires k < |props| && !props[k].optional && Dereference(props[k].propertyType, tt).Err?
    requires forall i :: 0 <= i < k && !props[i].optional ==> Dereference(props[i].propertyType, tt).Ok?
    ensures LiteralProperties(props, tt) == Err(Dereference(props[k].propertyType, tt).error)
  {
    if k > 0 {
      assert forall i :: 0 <= i < k - 1 ==> props[1..][i] == props[i + 1];
      LiteralPropertiesFirstFailure(props[1..], tt, k - 1);
    }
  }

  lemma {:induction false} LiteralPropertiesValues(props: seq<Property>, tt: TypeTable, p: string)
    requires DistinctPropertyNames(props) && LiteralProperties(props, tt).Ok?
    ensures ValuesOf(LiteralProperties(props, tt).value, p) ==
      match OfferedValue(props, p, tt) case Some(v) => [v] case None => []
  {
    if |props| > 0 {
      var rest := LiteralProperties(props[1..], tt).value;
      assert DistinctPropertyNames(props[1..]) by {
        forall i, j | 0 <= i < j < |props[1..]| ensures props[1..][i].name != props[1..][j].name {
          assert props[1..][i] == props[i + 1] && props[1..][j] == props[j + 1];
        }
      }
      LiteralPropertiesValues(props[1..], tt, p);
      if props[0].name == p {
        assert OfferedValue(props[1..], p, tt) == None by {
          forall i | 0 <= i < |props[1..]| ensures props[1..][i].name != p {
            assert props[1..][i] == props[i + 1];
          }
        }
      } else {
        assert OfferedValue(props, p, tt) == OfferedValue(props[1..], p, tt);
      }
      if !props[0].optional {
        var d := Dereference(props[0].propertyType, tt).value;
        if d.StringLiteral? {
          ValuesOfAppend([(props[0].name, d.stringValue)], rest, p);
          assert ValuesOf([(props[0].name, d.stringValue)], p) ==
            ValuesOf([], p) + (if props[0].name == p then [d.stringValue] else []);
        }
      }
    }
  }

  lemma {:induction false} CollectValues(roots: seq<Type>, tt: TypeTable, p: string)
    requires AllObjects(roots) && DistinctNamesInAll(roots)
    requires Collect(roots, tt).Ok? && Collect(roots, tt).value.Some?
    ensures ValuesOf(Collect(roots, tt).value.value, p) == Offered(roots, p, tt)
  {
    if |roots| > 0 {
      var here := LiteralProperties(roots[0].properties, tt).value;
      CollectValues(roots[1..], tt, p);
      LiteralPropertiesValues(roots[0].properties, tt, p);
      ValuesOfAppend(here, Collect(roots[1..], tt).value.value, p);
    }
  }

  /** A root that offers nothing under `p` leaves `Offered` shorter than the roots. */
  lemma {:induction false} OfferedFull(roots: seq<Type>, p: string, tt: TypeTable)
    requires AllObjects(roots)
    ensures |Offered(roots, p, tt)| == |roots| <==>
      forall i :: 0 <= i < |roots| ==> OfferedValue(roots[i].properties, p, tt).Some?
    ensures |Offered(roots, p, tt)| == |roots| ==>
      forall i :: 0 <= i < |roots| ==> Offered(roots, p, tt)[i] == OfferedValue(roots[i].properties, p, tt).value
  {
    if |roots| > 0 {
      OfferedFull(roots[1..], p, tt);
      assert forall i :: 1 <= i < |roots| ==> roots[i] == roots[1..][i - 1];
    }
  }

  /** A name qualifies as a candidate exactly when it is a discriminator. */
  lemma Qualifies(roots: seq<Type>, tt: TypeTable, p: string)
    requires AllObjects(roots) && DistinctNamesInAll(roots)
    requires Collect(roots, tt).Ok? && Collect(roots, tt).value.Some?
    ensures var pairs := Collect(roots, tt).value.value;
      (Mentions(pairs, p) && |SetOf(ValuesOf(pairs, p))| == |roots|) <==> IsDiscriminatorOf(roots, p, tt)
  {
    var pairs := Collect(roots, tt).value.value;
    var vs := ValuesOf(pairs, p);
    CollectValues(roots, tt, p);
    ValuesOfEmpty(pairs, p);
    SetOfSize(vs);
    OfferedFull(roots, p, tt);
    if IsDiscriminatorOf(roots, p, tt) {
      assert NoDuplicates(vs) by {
        forall i, j | 0 <= i < j < |vs| ensures vs[i] != vs[j] {
          assert OfferedValue(roots[i].properties, p, tt) != OfferedValue(roots[j].properties, p, tt);
        }
      }
    }
    if Mentions(pairs, p) && |SetOf(vs)| == |roots| {
      forall i, j | 0 <= i < j < |roots|
        ensures OfferedValue(roots[i].properties, p, tt) != OfferedValue(roots[j].properties, p, tt)
      {
        assert vs[i] != vs[j];
      }
    }
  }

  lemma {:induction false} CandidatesMembers(groups: Dict<string, seq<string>>, n: nat, k: string)
    requires DistinctKeys(groups)
    ensures k in Candidates(groups, n) <==> Has(groups, k) && |SetOf(Get(groups, k).value)| == n
    ensures NoDuplicates(Candidates(groups, n))
  {
    if |groups| > 0 {
      assert DistinctKeys(groups[1..]) by {
        forall i, j | 0 <= i < j < |groups[1..]| ensures groups[1..][i].0 != groups[1..][j].0 {
          assert groups[1..][i] == groups[i + 1] && groups[1..][j] == groups[j + 1];
        }
      }
      CandidatesMembers(groups[1..], n, k);
      assert Has(groups, k) <==> groups[0].0 == k || Has(groups[1..], k) by {
        if Has(groups, k) {
          var i :| 0 <= i < |groups| && groups[i].0 == k;
          if i > 0 { assert groups[1..][i - 1].0 == k; }
        }
        if Has(groups[1..], k) {
          var i :| 0 <= i < |groups[1..]| && groups[1..][i].0 == k;
          assert groups[i + 1].0 == k;
        }
      }
      CandidatesMembers(groups[1..], n, groups[0].0);
      assert !Has(groups[1..], groups[0].0);
    }
  }

  /** A duplicate-free list is `[p]` iff `p` is in it and nothing else is. */
  lemma SingletonList(c: seq<string>, p: string)
    requires NoDuplicates(c)
    ensures (|c| == 1 && c[0] == p) <==> (p in c && forall q :: q in c ==> q == p)
  {
    if p in c && (forall q :: q in c ==> q == p) && |c| != 1 {
      assert |c| >= 2;
      assert c[0] in c && c[1] in c;
    }
  }

  /** Roots with a non-object (after dropping nulls) never have a discriminator. */
  lemma NoDiscriminatorWithNonObject(types: seq<Type>, tt: TypeTable)
    requires PossibleRootTypesOfAll(types, tt).Ok?
    requires var roots := NonNull(PossibleRootTypesOfAll(types, tt).value);
      exists i :: 0 <= i < |roots| && !roots[i].Object?
    ensures InferDiscriminator(types, tt).Ok? ==> InferDiscriminator(types, tt).value.None?
  {
    var roots := NonNull(PossibleRootTypesOfAll(types, tt).value);
    var i :| 0 <= i < |roots| && !roots[i].Object?;
    CollectNone(roots, tt, i);
  }

  lemma {:induction false} CollectNone(roots: seq<Type>, tt: TypeTable, i: nat)
    requires i < |roots| && !roots[i].Object?
    ensures Collect(roots, tt).Ok? ==> Collect(roots, tt).value.None?
  {
    if i > 0 && roots[0].Object? {
      CollectNone(roots[1..], tt, i - 1);
    }
  }

  /** When every non-null root is an object with distinct property names,
      `inferDiscriminator` returns `p` exactly when `p` is the one and only
      discriminator: required, string-literal after dereference, present on
      every root, with pairwise different values. */
  lemma InferDiscriminatorSpec(types: seq<Type>, tt: TypeTable, p: string)
    requires PossibleRootTypesOfAll(types, tt).Ok?
    requires var roots := NonNull(PossibleRootTypesOfAll(types, tt).value);
      AllObjects(roots) && DistinctNamesInAll(roots)
    requires InferDiscriminator(types, tt).Ok?
    ensures var roots := NonNull(PossibleRootTypesOfAll(types, tt).value);
      InferDiscriminator(types, tt).value == Some(p) <==>
        IsDiscriminatorOf(roots, p, tt) && forall q :: IsDiscriminatorOf(roots, q, tt) ==> q == p
  {
    var roots := NonNull(PossibleRootTypesOfAll(types, tt).value);
    assert Collect(roots, tt).Ok?;
    CollectSome(roots, tt);
    var pairs := Collect(roots, tt).value.value;
    var g := GroupBy(pairs);
    var c := Candidates(g, |roots|);
    GroupByDistinct(pairs);
    CandidatesMembers(g, |roots|, p);
    SingletonList(c, p);
    forall q ensures q in c <==> IsDiscriminatorOf(roots, q, tt) {
      CandidatesMembers(g, |roots|, q);
      GroupByGet(pairs, q);
      ValuesOfEmpty(pairs, q);
      Qualifies(roots, tt, q);
    }
  }

  lemma {:induction false} CollectSome(roots: seq<Type>, tt: TypeTable)
    requires AllObjects(roots) && Collect(roots, tt).Ok?
    ensures Collect(roots, tt).value.Some?
  {
    if |roots| > 0 {
      CollectSome(roots[1..], tt);
    }
  }
}
