/** `new Set(list).size`: the number of distinct elements of a sequence, and
    how it relates to duplicates. */
module SeqSets {

  function SetOf<T>(s: seq<T>): set<T> {
    set x | x in s
  }

  /** No element occurs twice. */
  predicate NoDuplicates<T(==)>(s: seq<T>) {
    forall i, j :: 0 <= i < j < |s| ==> s[i] != s[j]
  }

  /** Two positions hold different elements. */
  predicate HasTwoDistinct<T(==)>(s: seq<T>) {
    exists i, j :: 0 <= i < |s| && 0 <= j < |s| && s[i] != s[j]
  }

  lemma SetOfSnoc<T>(s: seq<T>)
    requires |s| > 0
    ensures SetOf(s) == SetOf(s[..|s| - 1]) + {s[|s| - 1]}
  {
    var init := s[..|s| - 1];
    assert s == init + [s[|s| - 1]];
    forall x | x in SetOf(s) ensures x in SetOf(init) + {s[|s| - 1]} {
      var i :| 0 <= i < |s| && s[i] == x;
      if i < |s| - 1 { assert init[i] == x; }
    }
  }

  /** A sequence has at most as many distinct elements as positions, and exactly
      as many iff it has no duplicates. */
  lemma {:induction false} SetOfSize<T>(s: seq<T>)
    ensures |SetOf(s)| <= |s|
    ensures |SetOf(s)| == |s| <==> NoDuplicates(s)
  {
    if |s| > 0 {
      var init := s[..|s| - 1];
      var last := s[|s| - 1];
      SetOfSize(init);
      SetOfSnoc(s);
      if last in SetOf(init) {
        var k :| 0 <= k < |init| && init[k] == last;
        assert s[k] == s[|s| - 1];
      } else {
        assert NoDuplicates(s) <==> NoDuplicates(init) by {
          if NoDuplicates(init) {
            forall i, j | 0 <= i < j < |s| ensures s[i] != s[j] {
              if j < |s| - 1 { assert init[i] == s[i] && init[j] == s[j]; }
              else { assert s[i] == init[i] && init[i] in SetOf(init); }
            }
          }
          if NoDuplicates(s) {
            forall i, j | 0 <= i < j < |init| ensures init[i] != init[j] {
              assert init[i] == s[i] && init[j] == s[j];
            }
          }
        }
      }
    }
  }

  /** More than one distinct element iff two positions differ. */
  lemma SetOfMoreThanOne<T>(s: seq<T>)
    ensures |SetOf(s)| > 1 <==> HasTwoDistinct(s)
  {
    if HasTwoDistinct(s) {
      var i, j :| 0 <= i < |s| && 0 <= j < |s| && s[i] != s[j];
      assert {s[i], s[j]} <= SetOf(s);
      assert |{s[i], s[j]}| == 2;
      SubsetSize({s[i], s[j]}, SetOf(s));
    } else if |s| > 0 {
      assert SetOf(s) == {s[0]};
    } else {
      assert SetOf(s) == {};
    }
  }

  lemma SubsetSize<T>(a: set<T>, b: set<T>)
    requires a <= b
    ensures |a| <= |b|
  {
    assert b == a + (b - a);
  }

  /** Some element occurs at two positions of `s` and equals `x`. */
  predicate Twice<T(==)>(s: seq<T>, x: T) {
    exists i, j :: 0 <= i < j < |s| && s[i] == x && s[j] == x
  }

  /** `[...new Set(s.filter((x, i) => s.indexOf(x) !== i))]`: every element
      that occurs more than once, listed once. */
  function Repeated<T(==,!new)>(s: seq<T>): (r: seq<T>)
    ensures NoDuplicates(r)
    ensures forall x :: x in r <==> Twice(s, x)
  {
    if |s| == 0 then []
    else
      var init := s[..|s| - 1];
      var last := s[|s| - 1];
      var r := Repeated(init);
      TwiceSnoc(s);
      if last in init && last !in r then r + [last] else r
  }

  lemma TwiceSnoc<T>(s: seq<T>)
    requires |s| > 0
    ensures forall x :: Twice(s, x) <==> Twice(s[..|s| - 1], x) || (x == s[|s| - 1] && x in s[..|s| - 1])
  {
    var init := s[..|s| - 1];
    forall x ensures Twice(s, x) <==> Twice(init, x) || (x == s[|s| - 1] && x in init) {
      if Twice(s, x) {
        var i, j :| 0 <= i < j < |s| && s[i] == x && s[j] == x;
        if j < |s| - 1 { assert init[i] == x && init[j] == x; }
        else { assert init[i] == x; }
      }
      if Twice(init, x) {
        var i, j :| 0 <= i < j < |init| && init[i] == x && init[j] == x;
        assert s[i] == x && s[j] == x;
      }
      if x == s[|s| - 1] && x in init {
        var i :| 0 <= i < |init| && init[i] == x;
        assert s[i] == x;
      }
    }
  }

  /** Nothing is repeated exactly when there are no duplicates. */
  lemma RepeatedEmpty<T(!new)>(s: seq<T>)
    ensures |Repeated(s)| == 0 <==> NoDuplicates(s)
  {
    if !NoDuplicates(s) {
      var i, j :| 0 <= i < j < |s| && s[i] == s[j];
      assert Twice(s, s[i]);
    }
  }
}
