/** Insertion sort by any order; stands for the library sorts the source calls. */
module Sorting {
  /** Each element comes before all later ones. */
  ghost predicate Ordered<T>(s: seq<T>, before: (T, T) -> bool) {
    forall i, j :: 0 <= i < j < |s| ==> before(s[i], s[j])
  }

  /** Goes in front of the first element it comes before, so behind all equal ones: the sort is stable. */
  function Insert<T(!new)>(x: T, s: seq<T>, before: (T, T) -> bool): (r: seq<T>)
    ensures multiset(r) == multiset(s) + multiset{x}
    ensures |r| == |s| + 1 && forall y :: y in r <==> y == x || y in s
  {
    if s == [] || before(x, s[0]) then [x] + s
    else
      assert s == [s[0]] + s[1..];
      [s[0]] + Insert(x, s[1..], before)
  }

  function Sort<T(!new)>(s: seq<T>, before: (T, T) -> bool): (r: seq<T>)
    ensures multiset(r) == multiset(s)
    ensures |r| == |s| && forall y :: y in r <==> y in s
  {
    if s == [] then []
    else
      assert s == s[..|s| - 1] + [s[|s| - 1]];
      Insert(s[|s| - 1], Sort(s[..|s| - 1], before), before)
  }

  ghost predicate Transitive<T(!new)>(before: (T, T) -> bool) {
    forall x, y, z :: before(x, y) && before(y, z) ==> before(x, z)
  }

  /** An element that is comparable with all others takes its place among them. */
  lemma {:induction false} InsertOrders<T(!new)>(x: T, s: seq<T>, before: (T, T) -> bool)
    requires Ordered(s, before) && Transitive(before) && forall y :: y in s ==> before(x, y) || before(y, x)
    ensures Ordered(Insert(x, s, before), before)
  {
    if s != [] {
      assert s[0] in s;
      if before(x, s[0]) {
        forall i | 0 < i < |s| ensures before(x, s[i]) { assert before(s[0], s[i]); }
      } else {
        InsertOrders(x, s[1..], before);
        var rest := Insert(x, s[1..], before);
        forall i | 0 <= i < |rest| ensures before(s[0], rest[i]) { assert rest[i] in rest; }
      }
    }
  }

  /** Pairwise comparable elements are put in order. */
  lemma {:induction false} SortOrders<T(!new)>(s: seq<T>, before: (T, T) -> bool)
    requires Transitive(before) && forall i, j :: 0 <= i < j < |s| ==> before(s[i], s[j]) || before(s[j], s[i])
    ensures Ordered(Sort(s, before), before)
  {
    if s != [] {
      var init, x := s[..|s| - 1], s[|s| - 1];
      SortOrders(init, before);
      forall y | y in Sort(init, before) ensures before(x, y) || before(y, x) {
        var i :| 0 <= i < |init| && init[i] == y;
        assert s[i] == y;
      }
      InsertOrders(x, Sort(init, before), before);
    }
  }

  /** An element that comes before no other goes last. */
  lemma {:induction false} InsertLast<T(!new)>(x: T, s: seq<T>, before: (T, T) -> bool)
    requires forall y :: y in s ==> !before(x, y)
    ensures Insert(x, s, before) == s + [x]
  {
    if s != [] {
      assert s[0] in s;
      InsertLast(x, s[1..], before);
      assert s + [x] == [s[0]] + (s[1..] + [x]);
    }
  }

  /** Sorting leaves an ordered list alone. */
  lemma {:induction false} SortedAlready<T(!new)>(s: seq<T>, before: (T, T) -> bool)
    requires forall i, j :: 0 <= i < j < |s| ==> !before(s[j], s[i])
    ensures Sort(s, before) == s
  {
    if s != [] {
      var init, x := s[..|s| - 1], s[|s| - 1];
      SortedAlready(init, before);
      InsertLast(x, init, before);
    }
  }
}
