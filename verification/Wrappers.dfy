/** Optional values, used for the source's nil pointers, zero times and failed calls, and members of sets. */
module Wrappers {
  datatype Option<+T> = None | Some(value: T)

  /** Some element; the source's unordered row sets and maps are walked in an order nobody relies on. */
  method PickAny<T>(s: set<T>) returns (x: T)
    requires s != {}
    ensures x in s
  {
    x :| x in s;
  }

  lemma SomeMember<T>(s: set<T>) returns (x: T)
    requires s != {}
    ensures x in s
  {
    x :| x in s;
  }

  lemma TakeNext<T>(s: seq<T>, i: nat)
    requires i < |s|
    ensures s[..i + 1] == s[..i] + [s[i]] && s[..i + 1][..i] == s[..i]
    ensures s[..|s|] == s
  {
  }
}
