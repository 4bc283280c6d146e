/** Insertion-ordered dictionaries: the model of a JavaScript `Map`, and of a
    plain object used as a string-keyed record (`acc[key] = value`). Setting an
    existing key replaces its value in place; setting a new key appends it. */
module Dicts {
  import opened Util

  type Dict<K, V> = seq<(K, V)>

  function Keys<K, V>(d: Dict<K, V>): (ks: seq<K>)
  {
    seq(|d|, i requires 0 <= i < |d| => d[i].0)
  }

  /** No key occurs twice. */
  predicate DistinctKeys<K(==), V>(d: Dict<K, V>) {
    forall i, j :: 0 <= i < j < |d| ==> d[i].0 != d[j].0
  }

  /** `map.has(k)` */
  predicate Has<K(==), V>(d: Dict<K, V>, k: K) {
    exists i :: 0 <= i < |d| && d[i].0 == k
  }

  /** `map.get(k)`: the value of the first entry with key `k`. */
  function Get<K(==), V>(d: Dict<K, V>, k: K): (r: Option<V>)
    ensures r.Some? <==> Has(d, k)
    ensures r.Some? ==> exists i :: 0 <= i < |d| && d[i] == (k, r.value)
  {
    if |d| == 0 then None
    else if d[0].0 == k then Some(d[0].1)
    else
      var r := Get(d[1..], k);
      assert Has(d, k) ==> d[0].0 == k || Has(d[1..], k) by {
        if Has(d, k) {
          var i :| 0 <= i < |d| && d[i].0 == k;
          if i > 0 { assert d[1..][i - 1].0 == k; }
        }
      }
      assert Has(d[1..], k) ==> Has(d, k) by {
        if Has(d[1..], k) {
          var i :| 0 <= i < |d[1..]| && d[1..][i].0 == k;
          assert d[i + 1].0 == k;
        }
      }
      if r.Some? then
        assert exists i :: 0 <= i < |d| && d[i] == (k, r.value) by {
          var i :| 0 <= i < |d[1..]| && d[1..][i] == (k, r.value);
          assert d[i + 1] == (k, r.value);
        }
        r
      else r
  }

  /** With distinct keys, the entry at index `i` is what `Get` returns for its key. */
  lemma GetAt<K, V>(d: Dict<K, V>, i: nat)
    requires DistinctKeys(d) && i < |d|
    ensures Get(d, d[i].0) == Some(d[i].1)
  {
    if i > 0 {
      GetAt(d[1..], i - 1);
    }
  }

  /** `map.set(k, v)` */
  function Put<K(==), V>(d: Dict<K, V>, k: K, v: V): (r: Dict<K, V>)
    ensures Has(d, k) ==> |r| == |d|
    ensures !Has(d, k) ==> r == d + [(k, v)]
  {
    if |d| == 0 then [(k, v)]
    else if d[0].0 == k then [(k, v)] + d[1..]
    else
      assert !Has(d, k) ==> !Has(d[1..], k) by {
        if Has(d[1..], k) {
          var i :| 0 <= i < |d[1..]| && d[1..][i].0 == k;
          assert d[i + 1].0 == k;
        }
      }
      assert Has(d, k) ==> Has(d[1..], k) by {
        if Has(d, k) {
          var i :| 0 <= i < |d| && d[i].0 == k;
          assert d[1..][i - 1].0 == k;
        }
      }
      [d[0]] + Put(d[1..], k, v)
  }

  /** After `set(k, v)`, `get(k)` is `v` and every other key reads as before. */
  lemma PutGet<K, V>(d: Dict<K, V>, k: K, v: V, k': K)
    ensures Get(Put(d, k, v), k') == if k' == k then Some(v) else Get(d, k')
  {
    if |d| > 0 && d[0].0 != k {
      PutGet(d[1..], k, v, k');
    }
  }

  /** Setting a present key keeps every key in its place. */
  lemma PutKeysInPlace<K, V>(d: Dict<K, V>, k: K, v: V, i: nat)
    requires Has(d, k) && i < |d|
    ensures Put(d, k, v)[i].0 == d[i].0
  {
    if d[0].0 != k {
      assert Has(d[1..], k) by {
        var j :| 0 <= j < |d| && d[j].0 == k;
        assert d[1..][j - 1].0 == k;
      }
      if i > 0 {
        PutKeysInPlace(d[1..], k, v, i - 1);
      }
    }
  }

  /** Setting a key never reorders or drops the other keys. */
  lemma PutKeys<K, V>(d: Dict<K, V>, k: K, v: V)
    ensures Keys(Put(d, k, v)) == if Has(d, k) then Keys(d) else Keys(d) + [k]
  {
    var r := Put(d, k, v);
    if Has(d, k) {
      forall i | 0 <= i < |d|
        ensures Keys(r)[i] == Keys(d)[i]
      {
        PutKeysInPlace(d, k, v, i);
      }
    } else {
      assert r == d + [(k, v)];
    }
  }

  lemma PutKeepsDistinct<K, V>(d: Dict<K, V>, k: K, v: V)
    requires DistinctKeys(d)
    ensures DistinctKeys(Put(d, k, v))
  {
    var r := Put(d, k, v);
    if Has(d, k) {
      forall i, j | 0 <= i < j < |r|
        ensures r[i].0 != r[j].0
      {
        PutKeysInPlace(d, k, v, i);
        PutKeysInPlace(d, k, v, j);
      }
    } else {
      forall i, j | 0 <= i < j < |r|
        ensures r[i].0 != r[j].0
      {
        if j == |d| {
          assert d[i].0 != k;
        }
      }
    }
  }

  /** The values paired with key `k`, in order. */
  function ValuesOf<K(==), V>(pairs: seq<(K, V)>, k: K): (vs: seq<V>)
    ensures |vs| <= |pairs|
  {
    if |pairs| == 0 then []
    else
      var last := pairs[|pairs| - 1];
      ValuesOf(pairs[..|pairs| - 1], k) + (if last.0 == k then [last.1] else [])
  }

  /** `k` is the key of some pair. */
  predicate Mentions<K(==), V>(pairs: seq<(K, V)>, k: K) {
    exists i :: 0 <= i < |pairs| && pairs[i].0 == k
  }

  lemma ValuesOfEmpty<K, V>(pairs: seq<(K, V)>, k: K)
    ensures |ValuesOf(pairs, k)| > 0 <==> Mentions(pairs, k)
  {
    if |pairs| > 0 {
      var init := pairs[..|pairs| - 1];
      ValuesOfEmpty(init, k);
      if Mentions(pairs, k) && pairs[|pairs| - 1].0 != k {
        var i :| 0 <= i < |pairs| && pairs[i].0 == k;
        assert init[i].0 == k;
      }
      if Mentions(init, k) {
        var i :| 0 <= i < |init| && init[i].0 == k;
        assert pairs[i].0 == k;
      }
    }
  }

  /** Group the values of `pairs` by key, keys in order of first occurrence
      (the `map.set(k, (map.get(k) ?? []).concat(v))` loop of the source). */
  function GroupBy<K(==), V>(pairs: seq<(K, V)>): (g: Dict<K, seq<V>>)
  {
    if |pairs| == 0 then []
    else
      var g0 := GroupBy(pairs[..|pairs| - 1]);
      var last := pairs[|pairs| - 1];
      Put(g0, last.0, Get(g0, last.0).GetOr([]) + [last.1])
  }

  /** A grouping holds each key once. */
  lemma GroupByDistinct<K, V>(pairs: seq<(K, V)>)
    ensures DistinctKeys(GroupBy(pairs))
  {
    if |pairs| > 0 {
      var g0 := GroupBy(pairs[..|pairs| - 1]);
      var last := pairs[|pairs| - 1];
      GroupByDistinct(pairs[..|pairs| - 1]);
      PutKeepsDistinct(g0, last.0, Get(g0, last.0).GetOr([]) + [last.1]);
    }
  }

  lemma MentionsSnoc<K, V>(pairs: seq<(K, V)>, k: K)
    requires |pairs| > 0
    ensures Mentions(pairs, k) <==> Mentions(pairs[..|pairs| - 1], k) || pairs[|pairs| - 1].0 == k
  {
    var init := pairs[..|pairs| - 1];
    if Mentions(pairs, k) && pairs[|pairs| - 1].0 != k {
      var i :| 0 <= i < |pairs| && pairs[i].0 == k;
      assert init[i].0 == k;
    }
    if Mentions(init, k) {
      var i :| 0 <= i < |init| && init[i].0 == k;
      assert pairs[i].0 == k;
    }
  }

  /** The group of `k` is exactly the values paired with `k`, in order; unmentioned keys have none. */
  lemma {:induction false} GroupBySnoc<K, V>(pairs: seq<(K, V)>)
    requires |pairs| > 0
    ensures var g0 := GroupBy(pairs[..|pairs| - 1]);
            var last := pairs[|pairs| - 1];
            GroupBy(pairs) == Put(g0, last.0, Get(g0, last.0).GetOr([]) + [last.1])
  {
  }

  lemma {:induction false} ValuesOfSnoc<K, V>(pairs: seq<(K, V)>, k: K)
    requires |pairs| > 0
    ensures ValuesOf(pairs, k) == ValuesOf(pairs[..|pairs| - 1], k) + (if pairs[|pairs| - 1].0 == k then [pairs[|pairs| - 1].1] else [])
  {
  }

  /** The group of `k` is exactly the values paired with `k`, in order; unmentioned keys have none. */
  lemma {:induction false} GroupByGet<K, V>(pairs: seq<(K, V)>, k: K)
    ensures Get(GroupBy(pairs), k) == if Mentions(pairs, k) then Some(ValuesOf(pairs, k)) else None
  {
    if |pairs| > 0 {
      var init := pairs[..|pairs| - 1];
      var last := pairs[|pairs| - 1];
      var g0 := GroupBy(init);
      var v := Get(g0, last.0).GetOr([]) + [last.1];
      GroupBySnoc(pairs);
      ValuesOfSnoc(pairs, k);
      GroupByGet(init, k);
      PutGet(g0, last.0, v, k);
      MentionsSnoc(pairs, k);
      if k == last.0 {
        ValuesOfEmpty(init, k);
        assert Get(g0, k).GetOr([]) == ValuesOf(init, k);
        assert Get(GroupBy(pairs), k) == Some(v);
        assert v == ValuesOf(pairs, k);
      } else {
        assert ValuesOf(pairs, k) == ValuesOf(init, k);
      }
    }
  }

  /** Every key of a grouping is the key of some pair. */
  lemma GroupByKeysMentioned<K, V>(pairs: seq<(K, V)>, i: nat)
    requires i < |GroupBy(pairs)|
    ensures Mentions(pairs, GroupBy(pairs)[i].0)
  {
    var g := GroupBy(pairs);
    assert Has(g, g[i].0);
    GroupByGet(pairs, g[i].0);
  }

  /** Looking up in a dictionary extended by one entry. */
  lemma GetSnoc<K, V>(d: Dict<K, V>, e: (K, V), k: K)
    ensures Get(d + [e], k) == if Has(d, k) then Get(d, k) else if e.0 == k then Some(e.1) else None
  {
    if |d| > 0 {
      assert (d + [e])[1..] == d[1..] + [e];
      GetSnoc(d[1..], e, k);
      if d[0].0 != k {
        assert Has(d, k) <==> Has(d[1..], k) by {
          if Has(d, k) {
            var i :| 0 <= i < |d| && d[i].0 == k;
            assert d[1..][i - 1].0 == k;
          }
          if Has(d[1..], k) {
            var i :| 0 <= i < |d[1..]| && d[1..][i].0 == k;
            assert d[i + 1].0 == k;
          }
        }
      }
    } else {
      assert d + [e] == [e];
    }
  }

  /** Every value grouped under `k` comes from a pair with key `k`. */
  lemma {:induction false} ValuesOfFrom<K, V>(pairs: seq<(K, V)>, k: K, j: nat)
    requires j < |ValuesOf(pairs, k)|
    ensures exists i :: 0 <= i < |pairs| && pairs[i] == (k, ValuesOf(pairs, k)[j])
  {
    var init := pairs[..|pairs| - 1];
    var last := pairs[|pairs| - 1];
    var vs := ValuesOf(pairs, k);
    assert vs == ValuesOf(init, k) + (if last.0 == k then [last.1] else []);
    if j < |ValuesOf(init, k)| {
      ValuesOfFrom(init, k, j);
      var i :| 0 <= i < |init| && init[i] == (k, ValuesOf(init, k)[j]);
      assert pairs[i] == init[i];
    } else {
      assert pairs[|pairs| - 1] == (k, vs[j]);
    }
  }

  /** The keys of `s` in order of first occurrence, each once. */
  function FirstOccurrences<K(==)>(s: seq<K>): (r: seq<K>)
  {
    if |s| == 0 then []
    else
      var init := FirstOccurrences(s[..|s| - 1]);
      if s[|s| - 1] in s[..|s| - 1] then init else init + [s[|s| - 1]]
  }

  /** The keys of a grouping are the pair keys in order of first occurrence. */
  lemma {:induction false} GroupByKeysOrder<K, V>(pairs: seq<(K, V)>)
    ensures Keys(GroupBy(pairs)) == FirstOccurrences(Keys(pairs))
  {
    if |pairs| > 0 {
      var init := pairs[..|pairs| - 1];
      var last := pairs[|pairs| - 1];
      var g0 := GroupBy(init);
      var v := Get(g0, last.0).GetOr([]) + [last.1];
      GroupBySnoc(pairs);
      GroupByKeysOrder(init);
      PutKeys(g0, last.0, v);
      GroupByGet(init, last.0);
      assert Keys(pairs)[..|pairs| - 1] == Keys(init);
      assert Has(g0, last.0) <==> Mentions(init, last.0);
      assert Mentions(init, last.0) <==> last.0 in Keys(init) by {
        if last.0 in Keys(init) {
          var i :| 0 <= i < |init| && Keys(init)[i] == last.0;
          assert init[i].0 == last.0;
        }
        if Mentions(init, last.0) {
          var i :| 0 <= i < |init| && init[i].0 == last.0;
          assert Keys(init)[i] == last.0;
        }
      }
    }
  }

  /** The object a `reduce((acc, x) => { acc[k] = v; return acc }, {})` builds
      from `pairs`: each key once, in order of first occurrence, holding the
      value of its last pair. */
  function FromPairs<K(==), V>(pairs: seq<(K, V)>): (d: Dict<K, V>)
    ensures DistinctKeys(d)
  {
    if |pairs| == 0 then []
    else
      var d0 := FromPairs(pairs[..|pairs| - 1]);
      var last := pairs[|pairs| - 1];
      PutKeepsDistinct(d0, last.0, last.1);
      Put(d0, last.0, last.1)
  }

  /** The value of the last pair with key `k`. */
  function LastValueOf<K(==), V>(pairs: seq<(K, V)>, k: K): (r: Option<V>)
    ensures r.Some? <==> Mentions(pairs, k)
  {
    if |pairs| == 0 then None
    else
      MentionsSnoc(pairs, k);
      if pairs[|pairs| - 1].0 == k then Some(pairs[|pairs| - 1].1)
      else LastValueOf(pairs[..|pairs| - 1], k)
  }

  /** `LastValueOf` is the value of a pair with key `k` that no later pair overrides. */
  lemma {:induction false} LastValueIsLast<K, V>(pairs: seq<(K, V)>, k: K)
    requires Mentions(pairs, k)
    ensures exists i ::
      0 <= i < |pairs| && pairs[i] == (k, LastValueOf(pairs, k).value) && (forall j :: i < j < |pairs| ==> pairs[j].0 != k)
  {
    var n := |pairs| - 1;
    var init := pairs[..n];
    MentionsSnoc(pairs, k);
    if pairs[n].0 != k {
      assert LastValueOf(pairs, k) == LastValueOf(init, k);
      LastValueIsLast(init, k);
      var i :| 0 <= i < |init| && init[i] == (k, LastValueOf(init, k).value)
        && (forall j :: i < j < |init| ==> init[j].0 != k);
      assert pairs[i] == init[i];
      assert forall j :: i < j < n ==> pairs[j] == init[j];
      assert pairs[i] == (k, LastValueOf(pairs, k).value) && forall j :: i < j < |pairs| ==> pairs[j].0 != k;
    } else {
      assert LastValueOf(pairs, k) == Some(pairs[n].1);
      assert pairs[n] == (k, LastValueOf(pairs, k).value);
    }
  }

  /** The pair no later pair overrides supplies `LastValueOf`. */
  lemma {:induction false} LastValueAt<K, V>(pairs: seq<(K, V)>, k: K, i: nat)
    requires i < |pairs| && pairs[i].0 == k
    requires forall j :: i < j < |pairs| ==> pairs[j].0 != k
    ensures LastValueOf(pairs, k) == Some(pairs[i].1)
  {
    var n := |pairs|;
    if i < n - 1 {
      var init := pairs[..n - 1];
      assert forall j :: i < j < |init| ==> init[j] == pairs[j];
      LastValueAt(init, k, i);
    }
  }

  /** The last pair with key `k` wins; a key without pairs is absent. */
  lemma {:induction false} FromPairsGet<K, V>(pairs: seq<(K, V)>, k: K)
    ensures Get(FromPairs(pairs), k) == LastValueOf(pairs, k)
  {
    if |pairs| > 0 {
      var init := pairs[..|pairs| - 1];
      var last := pairs[|pairs| - 1];
      FromPairsGet(init, k);
      PutGet(FromPairs(init), last.0, last.1, k);
    }
  }

  /** The object has exactly the keys of the pairs. */
  lemma FromPairsHas<K, V>(pairs: seq<(K, V)>, k: K)
    ensures Has(FromPairs(pairs), k) <==> Mentions(pairs, k)
  {
    FromPairsGet(pairs, k);
  }

  /** The object built from pairs: its keys, and for each key the value of
      the last pair that mentions it. */
  lemma FromPairsLast<K, V>(pairs: seq<(K, V)>, k: K)
    ensures Has(FromPairs(pairs), k) <==> exists i :: 0 <= i < |pairs| && pairs[i].0 == k
    ensures forall i :: 0 <= i < |pairs| && pairs[i].0 == k && (forall j :: i < j < |pairs| ==> pairs[j].0 != k) ==>
      Get(FromPairs(pairs), k) == Some(pairs[i].1)
  {
    FromPairsHas(pairs, k);
    FromPairsGet(pairs, k);
    forall i | 0 <= i < |pairs| && pairs[i].0 == k && (forall j :: i < j < |pairs| ==> pairs[j].0 != k)
      ensures LastValueOf(pairs, k) == Some(pairs[i].1)
    {
      LastValueAt(pairs, k, i);
    }
  }

  /** Without repeated keys the object holds the pairs themselves, in order. */
  lemma {:induction false} FromPairsDistinct<K, V>(pairs: seq<(K, V)>)
    requires DistinctKeys(pairs)
    ensures FromPairs(pairs) == pairs
  {
    if |pairs| > 0 {
      var init := pairs[..|pairs| - 1];
      var last := pairs[|pairs| - 1];
      FromPairsDistinct(init);
      assert !Has(init, last.0);
      assert init + [last] == pairs;
    }
  }

  /** The dictionary with every value mapped by `f`, keys in place. */
  function MapValues<K, V, W>(d: Dict<K, V>, f: V -> W): (r: Dict<K, W>)
    ensures |r| == |d| && forall i :: 0 <= i < |d| ==> r[i] == (d[i].0, f(d[i].1))
  {
    seq(|d|, i requires 0 <= i < |d| => (d[i].0, f(d[i].1)))
  }

  lemma {:induction false} MapValuesGet<K, V, W>(d: Dict<K, V>, f: V -> W, k: K)
    ensures Get(MapValues(d, f), k) == if Has(d, k) then Some(f(Get(d, k).value)) else None
  {
    if |d| > 0 {
      MapValuesGet(d[1..], f, k);
      assert MapValues(d, f)[1..] == MapValues(d[1..], f);
    }
  }

  lemma {:induction false} MapValuesPut<K, V, W>(d: Dict<K, V>, f: V -> W, k: K, v: V)
    ensures MapValues(Put(d, k, v), f) == Put(MapValues(d, f), k, f(v))
  {
    if |d| > 0 && d[0].0 != k {
      MapValuesPut(d[1..], f, k, v);
      assert MapValues(d, f)[1..] == MapValues(d[1..], f);
      assert MapValues(Put(d, k, v), f) == [(d[0].0, f(d[0].1))] + MapValues(Put(d[1..], k, v), f);
    }
  }

  /** The nested object `reduce((acc, x) => { acc[k] = acc[k] ?? {}; acc[k][k2] = v; return acc }, {})`
      builds from pairs `(k, (k2, v))`. */
  function Nest<K(==), K2(==), V>(pairs: seq<(K, (K2, V))>): (d: Dict<K, Dict<K2, V>>)
  {
    if |pairs| == 0 then []
    else
      var d0 := Nest(pairs[..|pairs| - 1]);
      var last := pairs[|pairs| - 1];
      Put(d0, last.0, Put(Get(d0, last.0).GetOr([]), last.1.0, last.1.1))
  }

  /** Extending the pairs by one sets one more key. */
  lemma FromPairsSnoc<K, V>(pairs: seq<(K, V)>, x: (K, V))
    ensures FromPairs(pairs + [x]) == Put(FromPairs(pairs), x.0, x.1)
  {
    assert (pairs + [x])[..|pairs|] == pairs;
  }

  /** The nested object is the grouping of the pairs by outer key, each group
      folded into an object of its own. */
  lemma {:induction false} NestGrouped<K, K2, V>(pairs: seq<(K, (K2, V))>)
    ensures Nest(pairs) == MapValues(GroupBy(pairs), (g: seq<(K2, V)>) => FromPairs(g))
  {
    var fp := (g: seq<(K2, V)>) => FromPairs(g);
    if |pairs| > 0 {
      var init := pairs[..|pairs| - 1];
      var last := pairs[|pairs| - 1];
      var g0 := GroupBy(init);
      var n0 := Nest(init);
      NestGrouped(init);
      var group := Get(g0, last.0).GetOr([]);
      GroupBySnoc(pairs);
      MapValuesPut(g0, fp, last.0, group + [last.1]);
      FromPairsSnoc(group, last.1);
      MapValuesGet(g0, fp, last.0);
      assert Get(n0, last.0).GetOr([]) == FromPairs(group);
    }
  }

  /** Every outer key of the pairs appears once, in order of first occurrence,
      holding the object of the inner pairs given for it. */
  lemma NestSpec<K, K2, V>(pairs: seq<(K, (K2, V))>, k: K)
    ensures Keys(Nest(pairs)) == FirstOccurrences(Keys(pairs))
    ensures Get(Nest(pairs), k) == if Mentions(pairs, k) then Some(FromPairs(ValuesOf(pairs, k))) else None
  {
    var fp := (g: seq<(K2, V)>) => FromPairs(g);
    NestGrouped(pairs);
    GroupByKeysOrder(pairs);
    GroupByGet(pairs, k);
    MapValuesGet(GroupBy(pairs), fp, k);
  }

  /** The value of the last pair `(k, (k2, v))`. */
  function LastNestedValueOf<K(==), K2(==), V>(pairs: seq<(K, (K2, V))>, k: K, k2: K2): (r: Option<V>)
    ensures r.Some? ==> exists i :: 0 <= i < |pairs| && pairs[i] == (k, (k2, r.value))
  {
    if |pairs| == 0 then None
    else
      var last := pairs[|pairs| - 1];
      if last.0 == k && last.1.0 == k2 then Some(last.1.1)
      else
        var r := LastNestedValueOf(pairs[..|pairs| - 1], k, k2);
        if r.Some? then
          assert exists i :: 0 <= i < |pairs| && pairs[i] == (k, (k2, r.value)) by {
            var i :| 0 <= i < |pairs| - 1 && pairs[..|pairs| - 1][i] == (k, (k2, r.value));
            assert pairs[i] == (k, (k2, r.value));
          }
          r
        else r
  }

  /** The last pair for `(k, k2)` supplies the nested value. */
  lemma {:induction false} LastNestedAt<K, K2, V>(pairs: seq<(K, (K2, V))>, k: K, k2: K2, i: nat)
    requires i < |pairs| && pairs[i].0 == k && pairs[i].1.0 == k2
    requires forall j :: i < j < |pairs| ==> !(pairs[j].0 == k && pairs[j].1.0 == k2)
    ensures LastNestedValueOf(pairs, k, k2) == Some(pairs[i].1.1)
  {
    var n := |pairs|;
    if i < n - 1 {
      var init := pairs[..n - 1];
      assert forall j :: i < j < |init| ==> init[j] == pairs[j];
      LastNestedAt(init, k, k2, i);
    }
  }

  /** Reading `acc[k][k2]` back from the nested object gives the last value set for it. */
  lemma {:induction false} NestGet<K, K2, V>(pairs: seq<(K, (K2, V))>, k: K, k2: K2)
    ensures Get(Get(Nest(pairs), k).GetOr([]), k2) == LastNestedValueOf(pairs, k, k2)
  {
    if |pairs| > 0 {
      var init := pairs[..|pairs| - 1];
      var last := pairs[|pairs| - 1];
      var d0 := Nest(init);
      var inner := Get(d0, last.0).GetOr([]);
      NestGet(init, k, k2);
      PutGet(d0, last.0, Put(inner, last.1.0, last.1.1), k);
      PutGet(inner, last.1.0, last.1.1, k2);
    }
  }
}
