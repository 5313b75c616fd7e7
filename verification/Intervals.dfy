/** Half-open time intervals, their union, and the two list algorithms both scan ledgers are built on. */
module Intervals {
  import Sorting

  datatype Interval = Interval(from: int, to: int)

  ghost predicate Contains(iv: Interval, t: int) {
    iv.from <= t < iv.to
  }

  /** t lies in the union of the intervals. */
  ghost predicate Covers(ivs: seq<Interval>, t: int) {
    exists i :: 0 <= i < |ivs| && Contains(ivs[i], t)
  }

  ghost predicate SameUnion(a: seq<Interval>, b: seq<Interval>) {
    forall t :: Covers(a, t) <==> Covers(b, t)
  }

  ghost predicate Proper(ivs: seq<Interval>) {
    forall i :: 0 <= i < |ivs| ==> ivs[i].from < ivs[i].to
  }

  /** In order, and apart: neither overlapping nor touching. */
  ghost predicate Separated(ivs: seq<Interval>) {
    forall i, j :: 0 <= i < j < |ivs| ==> ivs[i].to < ivs[j].from
  }

  /** The one list of maximal non-empty intervals with a given union (see CanonicalUnique). */
  ghost predicate Canonical(ivs: seq<Interval>) {
    Proper(ivs) && Separated(ivs)
  }

  ghost predicate SortedByFrom(ivs: seq<Interval>) {
    forall i, j :: 0 <= i < j < |ivs| ==> ivs[i].from <= ivs[j].from
  }

  lemma CoversConcat(a: seq<Interval>, b: seq<Interval>, t: int)
    ensures Covers(a + b, t) <==> Covers(a, t) || Covers(b, t)
  {
    forall i | 0 <= i < |a| && Contains(a[i], t) ensures Covers(a + b, t) { assert (a + b)[i] == a[i]; }
    forall i | 0 <= i < |b| && Contains(b[i], t) ensures Covers(a + b, t) { assert (a + b)[|a| + i] == b[i]; }
  }

  lemma CanonicalTail(a: seq<Interval>, t: int)
    requires Canonical(a) && a != []
    ensures Canonical(a[1..])
    ensures Covers(a[1..], t) <==> Covers(a, t) && t >= a[0].to
  {
    assert a == a[..1] + a[1..];
    CoversConcat(a[..1], a[1..], t);
    assert Covers(a[..1], t) <==> Contains(a[0], t);
  }

  /** Lists in canonical form are equal as soon as their unions are. */
  lemma {:induction false} CanonicalUnique(a: seq<Interval>, b: seq<Interval>)
    requires Canonical(a) && Canonical(b) && SameUnion(a, b)
    ensures a == b
  {
    if a != [] { CanonicalEdges(a, 0); }
    if b != [] { CanonicalEdges(b, 0); }
    if a != [] && b != [] {
      FirstIntervalAgrees(a, b);
      FirstIntervalAgrees(b, a);
      forall t ensures Covers(a[1..], t) <==> Covers(b[1..], t) {
        CanonicalTail(a, t);
        CanonicalTail(b, t);
      }
      CanonicalTail(a, 0);
      CanonicalTail(b, 0);
      CanonicalUnique(a[1..], b[1..]);
      assert a == [a[0]] + a[1..] && b == [b[0]] + b[1..];
    }
  }

  lemma FirstIntervalAgrees(a: seq<Interval>, b: seq<Interval>)
    requires Canonical(a) && Canonical(b) && SameUnion(a, b) && a != [] && b != []
    ensures a[0].from >= b[0].from
    ensures a[0].from == b[0].from ==> a[0].to <= b[0].to
  {
    assert Contains(a[0], a[0].from);
    assert Covers(b, a[0].from);
    CanonicalEdges(b, 0);
    assert !Covers(a, b[0].to);
    assert !Contains(a[0], b[0].to);
  }

  /** Where a canonical list starts and ends is a matter of its union alone. */
  lemma CanonicalEdges(ivs: seq<Interval>, i: nat)
    requires Canonical(ivs) && i < |ivs|
    ensures Covers(ivs, ivs[i].from) && !Covers(ivs, ivs[i].from - 1)
    ensures Covers(ivs, ivs[i].to - 1) && !Covers(ivs, ivs[i].to)
  {
    assert Contains(ivs[i], ivs[i].from) && Contains(ivs[i], ivs[i].to - 1);
    forall j | 0 <= j < |ivs|
      ensures !Contains(ivs[j], ivs[i].from - 1) && !Contains(ivs[j], ivs[i].to)
    {
      if j < i { assert ivs[j].to < ivs[i].from; }
      if i < j { assert ivs[i].to < ivs[j].from; }
    }
  }

  predicate StartsNoLater(a: Interval, b: Interval) {
    a.from <= b.from
  }

  function SortByFrom(ivs: seq<Interval>): (r: seq<Interval>)
    ensures multiset(r) == multiset(ivs) && SortedByFrom(r)
  {
    Sorting.SortOrders(ivs, StartsNoLater);
    Sorting.Sort(ivs, StartsNoLater)
  }

  lemma SortKeepsUnion(ivs: seq<Interval>)
    ensures SameUnion(SortByFrom(ivs), ivs)
    ensures Proper(ivs) ==> Proper(SortByFrom(ivs))
  {
    var r := SortByFrom(ivs);
    forall x ensures x in r <==> x in ivs { assert x in multiset(r) <==> x in multiset(ivs); }
    forall t ensures Covers(r, t) <==> Covers(ivs, t) {
      if Covers(r, t) { var i :| 0 <= i < |r| && Contains(r[i], t); assert r[i] in ivs; }
      if Covers(ivs, t) { var i :| 0 <= i < |ivs| && Contains(ivs[i], t); assert ivs[i] in r; }
    }
    forall i | Proper(ivs) && 0 <= i < |r| ensures r[i].from < r[i].to { assert r[i] in ivs; }
  }

  /** Sorts by start and merges overlapping or touching intervals, extending the last output in place. */
  method Coalesce(ivs: seq<Interval>) returns (out: seq<Interval>)
    ensures SameUnion(out, ivs)
    ensures Proper(ivs) ==> Canonical(out)
    ensures Canonical(ivs) ==> out == ivs
  {
    if |ivs| <= 1 {
      return ivs;
    }
    var sorted := SortByFrom(ivs);
    SortKeepsUnion(ivs);
    out := [sorted[0]];
    for k := 1 to |sorted|
      invariant 1 <= |out|
      invariant out[|out| - 1].from <= sorted[k - 1].from
      invariant forall t :: Covers(out, t) <==> Covers(sorted[..k], t)
      invariant Proper(ivs) ==> Canonical(out)
    {
      var iv := sorted[k];
      ghost var before := out;
      var init, last := out[..|out| - 1], out[|out| - 1];
      assert out == init + [last];
      assert sorted[..k + 1] == sorted[..k] + [iv];
      if iv.from <= last.to {
        if iv.to > last.to {
          out := init + [last.(to := iv.to)];
        }
      } else {
        out := out + [iv];
      }
      forall t ensures Covers(out, t) <==> Covers(sorted[..k + 1], t) {
        MergeStep(init, last, iv, out, t);
        CoversConcat(sorted[..k], [iv], t);
      }
      if Proper(ivs) {
        assert Canonical(before);
        assert sorted[k].from < sorted[k].to;
        assert forall i :: 0 <= i < |init| ==> before[i] == init[i] && init[i].to < last.from;
      }
    }
    assert sorted[..|sorted|] == sorted;
    if Canonical(ivs) {
      CanonicalUnique(out, ivs);
    }
  }

  lemma MergeStep(init: seq<Interval>, last: Interval, iv: Interval, out: seq<Interval>, t: int)
    requires last.from <= iv.from
    requires out == if iv.from > last.to then init + [last] + [iv]
                    else if iv.to > last.to then init + [last.(to := iv.to)] else init + [last]
    ensures Covers(out, t) <==> Covers(init + [last], t) || Covers([iv], t)
  {
    CoversConcat(init, [last], t);
    CoversConcat(init, [last.(to := iv.to)], t);
    CoversConcat(init + [last], [iv], t);
    assert forall x: Interval :: Covers([x], t) <==> Contains([x][0], t);
  }

  /** The gaps of a window are its points outside the union, as maximal non-empty intervals. */
  ghost predicate IsGapsOf(gaps: seq<Interval>, covered: seq<Interval>, from: int, to: int) {
    && Canonical(gaps)
    && forall t :: Covers(gaps, t) <==> from <= t < to && !Covers(covered, t)
  }

  /** Walks the covered intervals with a cursor and reports what they leave of [from, to). */
  method ComputeGaps(covered: seq<Interval>, from: int, to: int) returns (gaps: seq<Interval>)
    requires Canonical(covered)
    ensures IsGapsOf(gaps, covered, from, to)
  {
    gaps := [];
    var cur := from;
    var i := 0;
    while i < |covered|
      invariant 0 <= i <= |covered|
      invariant cur >= from
      invariant Canonical(gaps) && (forall g :: 0 <= g < |gaps| ==> gaps[g].to < cur)
      invariant forall t :: Covers(gaps, t) <==> from <= t < cur && t < to && !Covers(covered, t)
      invariant forall j :: 0 <= j < i ==> covered[j].to <= cur
      decreases |covered| - i
    {
      var iv := covered[i];
      if iv.to <= cur {
        i := i + 1;
        continue;
      }
      if iv.from >= to {
        break;
      }
      ghost var was, oldCur := gaps, cur;
      if iv.from > cur {
        var end := iv.from;
        if end > to {
          end := to;
        }
        gaps := gaps + [Interval(cur, end)];
      }
      if iv.to > cur {
        cur := iv.to;
      }
      forall t ensures Covers(gaps, t) <==> from <= t < cur && t < to && !Covers(covered, t) {
        CursorStep(covered, i, oldCur, t);
        if iv.from > oldCur { CoversConcat(was, [Interval(oldCur, iv.from)], t); SingletonCovers(Interval(oldCur, iv.from), t); }
      }
      if cur >= to {
        break;
      }
      i := i + 1;
    }
    ghost var was := gaps;
    if cur < to {
      gaps := gaps + [Interval(cur, to)];
      forall t ensures Covers(gaps, t) <==> from <= t < to && !Covers(covered, t) {
        TailUncovered(covered, i, cur, to, t);
        CoversConcat(was, [Interval(cur, to)], t);
        SingletonCovers(Interval(cur, to), t);
      }
    }
  }

  lemma SingletonCovers(iv: Interval, t: int)
    ensures Covers([iv], t) <==> Contains(iv, t)
  {
    assert [iv][0] == iv;
  }

  /** Between the cursor and the next covered interval nothing is covered. */
  lemma CursorStep(covered: seq<Interval>, i: nat, cur: int, t: int)
    requires Canonical(covered) && i < |covered| && covered[i].to > cur
    requires forall j :: 0 <= j < i ==> covered[j].to <= cur
    ensures cur <= t < covered[i].to ==> (Covers(covered, t) <==> covered[i].from <= t)
  {
    if cur <= t < covered[i].to {
      if covered[i].from <= t { assert Contains(covered[i], t); }
      forall j | 0 <= j < |covered| && j != i ensures !Contains(covered[j], t) {
        assert i < j ==> covered[i].to < covered[j].from;
      }
    }
  }

  lemma TailUncovered(covered: seq<Interval>, i: nat, cur: int, to: int, t: int)
    requires Canonical(covered) && i <= |covered|
    requires forall j :: 0 <= j < i ==> covered[j].to <= cur
    requires i < |covered| ==> covered[i].from >= to
    ensures cur <= t < to ==> !Covers(covered, t)
  {
    forall j | 0 <= j < |covered| && cur <= t < to ensures !Contains(covered[j], t) {
      assert i < j ==> covered[i].from < covered[i].to < covered[j].from;
    }
  }

  /** Every gap runs from the window start or the end of covered time, to the window end or a covered start. */
  lemma GapEdges(gaps: seq<Interval>, covered: seq<Interval>, from: int, to: int, k: nat)
    requires IsGapsOf(gaps, covered, from, to) && k < |gaps|
    ensures from <= gaps[k].from < gaps[k].to <= to
    ensures forall t :: gaps[k].from <= t < gaps[k].to ==> !Covers(covered, t)
    ensures gaps[k].from == from || Covers(covered, gaps[k].from - 1)
    ensures gaps[k].to == to || (Covers(covered, gaps[k].to) && !Covers(covered, gaps[k].to - 1))
  {
    CanonicalEdges(gaps, k);
    forall t | gaps[k].from <= t < gaps[k].to ensures !Covers(covered, t) { assert Contains(gaps[k], t); assert Covers(gaps, t); }
  }

  /** Once the window is added to the coverage, it has no gap left. */
  lemma NoGapsAfterMerge(gaps: seq<Interval>, merged: seq<Interval>, covered: seq<Interval>, from: int, to: int)
    requires forall t :: Covers(merged, t) <==> Covers(covered, t) || from <= t < to
    requires IsGapsOf(gaps, merged, from, to)
    ensures gaps == []
  {
    if gaps != [] {
      CanonicalEdges(gaps, 0);
    }
  }
}
