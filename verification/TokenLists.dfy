/** Sorted lists of vehicle token ids. */
module TokenLists {
  import opened Wrappers
  import Sorting

  ghost predicate StrictlyAscending(s: seq<int>) {
    forall i, j :: 0 <= i < j < |s| ==> s[i] < s[j]
  }

  ghost predicate Ascending(s: seq<int>) {
    forall i, j :: 0 <= i < j < |s| ==> s[i] <= s[j]
  }

  predicate NoLarger(a: int, b: int) {
    a <= b
  }

  function Sort(s: seq<int>): (r: seq<int>)
    ensures Ascending(r) && multiset(r) == multiset(s)
    ensures forall y :: y in r <==> y in s
  {
    Sorting.SortOrders(s, NoLarger);
    Sorting.Sort(s, NoLarger)
  }

  /** Drops repeated neighbours. */
  function Compact(s: seq<int>): (r: seq<int>)
    ensures forall y :: y in r <==> y in s
    ensures s != [] ==> r != [] && r[|r| - 1] == s[|s| - 1]
  {
    if s == [] then []
    else
      var rest, last := Compact(s[..|s| - 1]), s[|s| - 1];
      assert s == s[..|s| - 1] + [last];
      if rest != [] && rest[|rest| - 1] == last then rest else rest + [last]
  }

  lemma {:induction false} CompactAscends(s: seq<int>)
    requires Ascending(s)
    ensures StrictlyAscending(Compact(s))
  {
    if s != [] {
      var init, rest := s[..|s| - 1], Compact(s[..|s| - 1]);
      CompactAscends(init);
      forall i | 0 <= i < |rest| ensures rest[i] <= s[|s| - 1] { assert rest[i] in init; }
      assert forall i :: 0 <= i < |rest| ==> rest[i] <= rest[|rest| - 1];
    }
  }

  /** The members of s, each once, ascending. */
  function SortedSet(s: seq<int>): (r: seq<int>)
    ensures StrictlyAscending(r) && forall y :: y in r <==> y in s
  {
    CompactAscends(Sort(s));
    Compact(Sort(s))
  }

  /** A strictly ascending list is determined by its members, and as long as they are many. */
  lemma {:induction false} AscendingUnique(a: seq<int>, b: seq<int>)
    requires StrictlyAscending(a) && StrictlyAscending(b) && forall y :: y in a <==> y in b
    ensures a == b
  {
    assert a == [] || a[0] in a;
    assert b == [] || b[0] in b;
    if a != [] && b != [] {
      TailMembers(a);
      TailMembers(b);
      AscendingUnique(a[1..], b[1..]);
      assert a == [a[0]] + a[1..] && b == [b[0]] + b[1..];
    }
  }

  lemma TailMembers(a: seq<int>)
    requires StrictlyAscending(a) && a != []
    ensures forall y :: y in a ==> y >= a[0]
    ensures forall y :: y in a[1..] <==> y in a && y != a[0]
  {
    assert a == [a[0]] + a[1..];
  }

  lemma {:induction false} AscendingCount(a: seq<int>, members: set<int>)
    requires StrictlyAscending(a) && forall y :: y in a <==> y in members
    ensures |a| == |members|
  {
    if a == [] {
      if members != {} { var y := SomeMember(members); }
    } else {
      TailMembers(a);
      assert a[0] in a;
      AscendingCount(a[1..], members - {a[0]});
    }
  }
}
