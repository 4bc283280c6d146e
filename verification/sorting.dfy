/** `array.sort(cmp)` with the comparator `(a, b) => (b > a ? -1 : 1)` that the
    endpoint parser uses for tags and responses. The comparator never answers 0,
    so it is consistent only on elements that are pairwise comparable; the
    parser sorts only after rejecting duplicates, and on such input every
    correct sorting algorithm yields the one ascending arrangement. The model
    sorts by insertion and proves that arrangement is reached. */
module Sorting {

  /** Each element comes strictly before the next one. */
  predicate Ascending<T>(s: seq<T>, less: (T, T) -> bool) {
    forall i :: 0 <= i < |s| - 1 ==> less(s[i], s[i + 1])
  }

  /** Any two distinct positions hold elements the order tells apart. */
  predicate Comparable<T>(s: seq<T>, less: (T, T) -> bool) {
    forall i, j :: 0 <= i < j < |s| ==> less(s[i], s[j]) || less(s[j], s[i])
  }

  /** `x` is told apart from every element of `s`. */
  predicate ComparableWith<T>(x: T, s: seq<T>, less: (T, T) -> bool) {
    forall k :: 0 <= k < |s| ==> less(s[k], x) || less(x, s[k])
  }

  /** Insert `x` before the first element it is not after. */
  function Insert<T>(x: T, s: seq<T>, less: (T, T) -> bool): (r: seq<T>)
    ensures multiset(r) == multiset(s) + multiset{x}
    ensures |r| == |s| + 1
    ensures |s| > 0 ==> r[0] == s[0] || r[0] == x
  {
    if |s| == 0 then [x]
    else if less(s[0], x) then
      assert s == [s[0]] + s[1..];
      [s[0]] + Insert(x, s[1..], less)
    else [x] + s
  }

  lemma {:induction false} InsertAscending<T>(x: T, s: seq<T>, less: (T, T) -> bool)
    requires Ascending(s, less) && ComparableWith(x, s, less)
    ensures Ascending(Insert(x, s, less), less)
  {
    if |s| > 0 && less(s[0], x) {
      var rest := Insert(x, s[1..], less);
      InsertAscending(x, s[1..], less);
      assert |s| > 1 ==> less(s[0], s[1]);
      assert less(s[0], rest[0]);
    }
  }

  /** The elements sorted ascending. */
  function SortBy<T>(xs: seq<T>, less: (T, T) -> bool): (r: seq<T>)
    ensures multiset(r) == multiset(xs) && |r| == |xs|
  {
    if |xs| == 0 then []
    else
      assert xs == [xs[0]] + xs[1..];
      Insert(xs[0], SortBy(xs[1..], less), less)
  }

  /** Sorting comparable elements puts each strictly before the next. */
  lemma {:induction false} SortAscending<T>(xs: seq<T>, less: (T, T) -> bool)
    requires Comparable(xs, less)
    ensures Ascending(SortBy(xs, less), less)
  {
    if |xs| > 0 {
      var tail := xs[1..];
      assert Comparable(tail, less) by {
        forall i, j | 0 <= i < j < |tail| ensures less(tail[i], tail[j]) || less(tail[j], tail[i]) {
          assert tail[i] == xs[i + 1] && tail[j] == xs[j + 1];
        }
      }
      SortAscending(tail, less);
      var sorted := SortBy(tail, less);
      forall k | 0 <= k < |sorted| ensures less(sorted[k], xs[0]) || less(xs[0], sorted[k]) {
        assert sorted[k] in multiset(tail);
        var j :| 0 <= j < |tail| && tail[j] == sorted[k];
        assert xs[j + 1] == sorted[k];
      }
      InsertAscending(xs[0], sorted, less);
    }
  }

  /** A strict order: never both ways, and transitive. */
  ghost predicate StrictOrder<T(!new)>(less: (T, T) -> bool) {
    (forall a, b :: less(a, b) ==> !less(b, a))
    && (forall a, b, c :: less(a, b) && less(b, c) ==> less(a, c))
  }

  /** In an ascending sequence the first element comes before every later one. */
  lemma {:induction false} AscendingHead<T(!new)>(s: seq<T>, less: (T, T) -> bool, k: nat)
    requires StrictOrder(less) && Ascending(s, less) && 0 < k < |s|
    ensures less(s[0], s[k])
  {
    if k > 1 {
      AscendingHead(s, less, k - 1);
    }
  }

  /** Under a strict order there is only one ascending arrangement of a
      multiset of elements: the sorted result is determined by its input. */
  lemma {:induction false} AscendingUnique<T(!new)>(a: seq<T>, b: seq<T>, less: (T, T) -> bool)
    requires StrictOrder(less) && Ascending(a, less) && Ascending(b, less)
    requires multiset(a) == multiset(b)
    ensures a == b
  {
    if |a| > 0 {
      SameLength(a, b);
      SameHead(a, b, less);
      MultisetTail(a);
      MultisetTail(b);
      AscendingTail(a, less);
      AscendingTail(b, less);
      AscendingUnique(a[1..], b[1..], less);
      assert a == [a[0]] + a[1..] && b == [b[0]] + b[1..];
    }
  }

  /** Two ascending arrangements of one multiset start alike. */
  lemma SameHead<T(!new)>(a: seq<T>, b: seq<T>, less: (T, T) -> bool)
    requires StrictOrder(less) && Ascending(a, less) && Ascending(b, less)
    requires multiset(a) == multiset(b) && |a| > 0 && |b| > 0
    ensures a[0] == b[0]
  {
    assert a[0] in multiset(b) && b[0] in multiset(a);
    var i :| 0 <= i < |b| && b[i] == a[0];
    var j :| 0 <= j < |a| && a[j] == b[0];
    if i > 0 {
      AscendingHead(b, less, i);
      if j > 0 {
        AscendingHead(a, less, j);
      }
    }
  }

  lemma SameLength<T>(a: seq<T>, b: seq<T>)
    requires multiset(a) == multiset(b)
    ensures |a| == |b|
  {
    assert |a| == |multiset(a)| && |b| == |multiset(b)|;
  }

  lemma AscendingTail<T>(s: seq<T>, less: (T, T) -> bool)
    requires Ascending(s, less) && |s| > 0
    ensures Ascending(s[1..], less)
  {
    forall i | 0 <= i < |s| - 2 ensures less(s[1..][i], s[1..][i + 1]) {
      assert s[1..][i] == s[i + 1] && s[1..][i + 1] == s[i + 2];
    }
  }

  lemma MultisetTail<T>(s: seq<T>)
    requires |s| > 0
    ensures multiset(s[1..]) == multiset(s) - multiset{s[0]}
  {
    assert s == [s[0]] + s[1..];
  }

  /** The sort yields the one ascending arrangement of its input. */
  lemma SortIsTheAscendingArrangement<T(!new)>(xs: seq<T>, ys: seq<T>, less: (T, T) -> bool)
    requires StrictOrder(less) && Comparable(xs, less)
    requires Ascending(ys, less) && multiset(ys) == multiset(xs)
    ensures SortBy(xs, less) == ys
  {
    SortAscending(xs, less);
    AscendingUnique(SortBy(xs, less), ys, less);
  }
}
