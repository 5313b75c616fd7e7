/**
 What the charging tables mean and what one recorded gap does to that meaning. The tables hold one vehicle's
 stored sessions, keyed by start, and its scanned time ranges, keyed by their start.
 */
module LedgerTheory {
  import opened Wrappers
  import opened Intervals
  import opened ChargingDetection
  import opened Detector
  import opened Charges

  datatype Row = Row(startedAt: int, endedAt: Option<int>, addedEnergyKwh: Option<real>)

  function Record(d: Detected): Row {
    Row(d.startedAt, d.endedAt, d.AddedEnergyKwh())
  }

  type Sessions = map<int, Row>
  type Coverage = map<int, int>

  ghost predicate Covered(cov: Coverage, t: int) {
    exists f :: f in cov && f <= t < cov[f]
  }

  /** Disjoint, non-touching, non-empty ranges. */
  ghost predicate Tidy(cov: Coverage) {
    && (forall f :: f in cov ==> f < cov[f])
    && (forall f, g :: f in cov && g in cov && f < g ==> cov[f] < g)
  }

  /** A session worth storing: one of all readings that will ever arrive, and no noise. */
  ghost predicate Kept(all: Readings, a: int, b: int) {
    IsSession(all, a, b) && !Segment(all, a, b).IsNoise()
  }

  ghost predicate StartsAt(all: Readings, e: int) {
    exists b :: Kept(all, e, b)
  }

  /** row is the session of all readings that starts at a. */
  ghost predicate IsRowOf(all: Readings, a: int, row: Row) {
    exists b :: Kept(all, a, b) && row == Record(Segment(all, a, b))
  }

  /** The stored sessions are exactly the sessions starting in covered time, each in its final form. */
  ghost predicate Exact(all: Readings, rows: Sessions, cov: Coverage) {
    && (forall a :: a in rows ==> Covered(cov, a) && IsRowOf(all, a, rows[a]))
    && (forall a :: Covered(cov, a) && StartsAt(all, a) ==> a in rows)
  }

  /**
   The same from the readings alone: a row for a start in covered time exactly when a charged session starts there,
   with that session's end and the energy its counter tells.
   */
  ghost predicate StoresCharges(all: Readings, rows: Sessions, cov: Coverage) {
    && (forall a :: a in rows <==> Covered(cov, a) && exists b :: Charged(all, a, b))
    && (forall a, b :: a in rows && Charged(all, a, b) ==>
          rows[a].startedAt == a && rows[a].endedAt == Some(b) && EnergyIs(all, a, b, rows[a].addedEnergyKwh))
  }

  lemma RecordIsCharge(all: Readings, a: int, b: int)
    ensures Kept(all, a, b) <==> Charged(all, a, b)
    ensures EnergyIs(all, a, b, Record(Segment(all, a, b)).addedEnergyKwh)
  {
    SegmentEnergy(all, a, b);
  }

  lemma ExactStoresCharges(all: Readings, rows: Sessions, cov: Coverage)
    requires Exact(all, rows, cov)
    ensures StoresCharges(all, rows, cov)
  {
    forall a, b | a in rows && Charged(all, a, b)
      ensures rows[a].startedAt == a && rows[a].endedAt == Some(b) && EnergyIs(all, a, b, rows[a].addedEnergyKwh)
    {
      var c :| Kept(all, a, c) && rows[a] == Record(Segment(all, a, c));
      SessionsMeet(all, a, b, a, c);
      RecordIsCharge(all, a, b);
    }
    forall a ensures a in rows <==> Covered(cov, a) && exists b :: Charged(all, a, b) {
      if a in rows {
        var c :| Kept(all, a, c) && rows[a] == Record(Segment(all, a, c));
        RecordIsCharge(all, a, c);
      } else if b :| Charged(all, a, b) {
        RecordIsCharge(all, a, b);
        assert StartsAt(all, a);
      }
    }
  }

  /** No session is cut by the start or end of a covered range, and none starts exactly where a range starts. */
  ghost predicate EdgesClear(all: Readings, cov: Coverage) {
    forall f :: f in cov ==> !Spanned(all, f) && !StartsAt(all, f) && !Spanned(all, cov[f])
  }

  /** Nothing after the cutoff is covered. */
  ghost predicate CoveredUpTo(cov: Coverage, cutoff: int) {
    forall f :: f in cov ==> cov[f] <= cutoff
  }

  ghost predicate Inv(all: Readings, rows: Sessions, cov: Coverage, cutoff: int) {
    Tidy(cov) && Exact(all, rows, cov) && EdgesClear(all, cov) && CoveredUpTo(cov, cutoff)
  }

  // ---- one recorded gap ----

  function RowsOf(sessions: seq<Detected>): Sessions {
    if sessions == [] then map[]
    else RowsOf(sessions[..|sessions| - 1])[sessions[|sessions| - 1].startedAt := Record(sessions[|sessions| - 1])]
  }

  /** The delete covers both ends of the gap; the gap's final sessions go in. */
  function Replace(rows: Sessions, gap: Interval, sessions: seq<Detected>): Sessions {
    (map a | a in rows && !(gap.from <= a <= gap.to) :: rows[a]) + RowsOf(sessions)
  }

  ghost predicate Extends(cov: Coverage, cov': Coverage, from: int, to: int) {
    Tidy(cov') && forall t :: Covered(cov', t) <==> Covered(cov, t) || from <= t < to
  }

  /** What storing the outcome of a scan of the gap at `now` makes of the tables. */
  ghost predicate Recorded(rows: Sessions, cov: Coverage, rows': Sessions, cov': Coverage,
                           gap: Interval, segs: seq<Detected>, now: int) {
    && rows' == Replace(rows, gap, WithoutNoise(Final(segs, gap, now)))
    && Extends(cov, cov', gap.from, CoveredTo(segs, gap, now))
  }

  /** segs is an answer to a query of the gap at `now`, and the gap's edges cut no session. */
  ghost predicate Scan(all: Readings, seen: Readings, gap: Interval, segs: seq<Detected>, now: int) {
    && gap.from < gap.to
    && View(all, seen, now - LATENESS)
    && Detects(Window(seen, gap.from, gap.to), segs)
    && !Spanned(all, gap.from)
    && EndsClear(all, gap.to, now - LATENESS)
  }

  lemma {:induction false} RowsOfMembers(sessions: seq<Detected>)
    requires InOrder(sessions)
    ensures forall d :: d in sessions ==> d.startedAt in RowsOf(sessions) && RowsOf(sessions)[d.startedAt] == Record(d)
    ensures forall a :: a in RowsOf(sessions) ==> exists d :: d in sessions && d.startedAt == a
  {
    if sessions != [] {
      var init, last := sessions[..|sessions| - 1], sessions[|sessions| - 1];
      RowsOfMembers(init);
      assert sessions == init + [last];
      assert forall d :: d in init ==> d.startedAt < last.startedAt;
      forall a | a in RowsOf(sessions) ensures exists d :: d in sessions && d.startedAt == a {
        if a in RowsOf(init) { var d :| d in init && d.startedAt == a; assert d in sessions; }
      }
    }
  }

  /** Every session a gap ends up storing is final, as all readings will have it, and starts before coveredTo. */
  lemma FinalIsTrue(all: Readings, seen: Readings, gap: Interval, segs: seq<Detected>, now: int, d: Detected)
    requires Scan(all, seen, gap, segs, now) && d in Final(segs, gap, now)
    ensures d.endedAt.Some? && d.endedAt.value <= now - SETTLE_MARGIN
    ensures IsSession(all, d.startedAt, d.endedAt.value) && d == Segment(all, d.startedAt, d.endedAt.value)
    ensures gap.from <= d.startedAt < CoveredTo(segs, gap, now)
  {
    WindowIsTrue(all, seen, now - LATENESS, gap.from, gap.to, d.startedAt, d.endedAt.value);
  }

  /** A session that had ended by the cutoff and starts in the gap starts before coveredTo. */
  lemma SettledStartsEarly(all: Readings, seen: Readings, gap: Interval, segs: seq<Detected>, now: int, a: int, b: int)
    requires Scan(all, seen, gap, segs, now)
    requires IsSession(all, a, b) && b <= now - SETTLE_MARGIN && gap.from <= a < gap.to
    ensures a < CoveredTo(segs, gap, now)
  {
    var w := Window(seen, gap.from, gap.to);
    WindowIsStartKeyed(all, seen, now, gap.from, gap.to, a, b);
    var limit := Limit(segs, now - SETTLE_MARGIN);
    if gap.to > now - SETTLE_MARGIN && limit != now - SETTLE_MARGIN {
      var u :| u in segs && u.Open(now - SETTLE_MARGIN) && u.startedAt == limit;
      SessionsMeet(w, u.startedAt, u.endedAt.value, a, b);
    }
  }

  /** Up to the cutoff, the next reading of a running session is in the window. */
  lemma NextReadingSeen(all: Readings, seen: Readings, gap: Interval, segs: seq<Detected>, now: int, a: int, b: int, e: int)
    requires Scan(all, seen, gap, segs, now)
    requires IsSession(all, a, b) && gap.from <= a <= e < b && e <= now - SETTLE_MARGIN < gap.to
    ensures Continues(Window(seen, gap.from, gap.to), e)
  {
    assert Continues(all, e);
    var t :| t in all && e < t <= e + FOLD_GAP;
    assert b <= gap.to || t <= gap.to by { assert a < gap.to < b ==> Spanned(all, gap.to); }
    var u := if t <= b then t else b;
    assert u in Window(seen, gap.from, gap.to) && e < u <= e + FOLD_GAP;
  }

  /** A session that runs past the cutoff from before it is seen to do so. */
  lemma RunningIsSeen(all: Readings, seen: Readings, gap: Interval, segs: seq<Detected>, now: int, a: int, b: int)
    returns (d: Detected)
    requires Scan(all, seen, gap, segs, now)
    requires IsSession(all, a, b) && gap.from <= a < now - SETTLE_MARGIN < b && now - SETTLE_MARGIN < gap.to
    ensures d in segs && d.startedAt == a && d.Open(now - SETTLE_MARGIN)
  {
    var w := Window(seen, gap.from, gap.to);
    assert a in w;
    var e := ChainEnd(w, a);
    forall x | a <= x <= now - SETTLE_MARGIN ensures Continues(w, x) {
      NextReadingSeen(all, seen, gap, segs, now, a, b, x);
    }
    assert Continues(w, a - FOLD_GAP - 1) ==> Continues(all, a - FOLD_GAP - 1);
    assert IsSession(w, a, e);
    d := Segment(w, a, e);
  }

  /** Every session starting in the part of the gap that becomes covered is final now. */
  lemma StartsBeforeCoveredTo(all: Readings, seen: Readings, gap: Interval, segs: seq<Detected>, now: int, a: int, b: int)
    requires Scan(all, seen, gap, segs, now)
    requires IsSession(all, a, b) && gap.from <= a < CoveredTo(segs, gap, now)
    ensures b <= now - SETTLE_MARGIN && Segment(all, a, b) in Final(segs, gap, now)
  {
    var cutoff := now - SETTLE_MARGIN;
    if gap.to <= cutoff {
      assert a < gap.to < b ==> Spanned(all, gap.to);
    } else if b > cutoff {
      var d := RunningIsSeen(all, seen, gap, segs, now, a, b);
    }
    WindowIsStartKeyed(all, seen, now, gap.from, gap.to, a, b);
    WindowIsTrue(all, seen, now - LATENESS, gap.from, gap.to, a, b);
  }

  /** Coverage never stops in the middle of a session. */
  lemma CoveredToIsClear(all: Readings, seen: Readings, gap: Interval, segs: seq<Detected>, now: int)
    requires Scan(all, seen, gap, segs, now)
    ensures !Spanned(all, CoveredTo(segs, gap, now))
  {
    var t := CoveredTo(segs, gap, now);
    SegmentationsAreNonOverlapping(Window(seen, gap.from, gap.to), segs);
    CoveredToCutsNoSession(segs, gap, now);
    forall a, b | IsSession(all, a, b) && a < t ensures b <= t {
      if a >= gap.from {
        StartsBeforeCoveredTo(all, seen, gap, segs, now, a, b);
        assert Segment(all, a, b) in segs;
      } else {
        assert gap.from < b ==> Spanned(all, gap.from);
      }
    }
  }

  /** The rows a gap inserts are the sessions starting in the part of it that becomes covered. */
  lemma InsertedRows(all: Readings, seen: Readings, gap: Interval, segs: seq<Detected>, now: int, a: int)
    requires Scan(all, seen, gap, segs, now)
    ensures InOrder(Final(segs, gap, now)) && InOrder(WithoutNoise(Final(segs, gap, now)))
    ensures var ins := RowsOf(WithoutNoise(Final(segs, gap, now)));
            && (a in ins <==> gap.from <= a < CoveredTo(segs, gap, now) && StartsAt(all, a))
            && (a in ins ==> IsRowOf(all, a, ins[a]))
  {
    var final := Final(segs, gap, now);
    SettlePartitions(segs, gap, now);
    PartsInOrder(final, InProgress(segs, gap, now));
    WithoutNoiseKeepsOrder(final);
    RowsOfMembers(WithoutNoise(final));
    if a in RowsOf(WithoutNoise(final)) {
      var d :| d in WithoutNoise(final) && d.startedAt == a;
      FinalIsTrue(all, seen, gap, segs, now, d);
      assert Kept(all, a, d.endedAt.value);
    }
    if gap.from <= a < CoveredTo(segs, gap, now) && StartsAt(all, a) {
      var b :| Kept(all, a, b);
      StartsBeforeCoveredTo(all, seen, gap, segs, now, a, b);
      assert Segment(all, a, b) in WithoutNoise(final);
    }
  }

  /**
   * Recording a gap keeps the tables exact if and only if no stored row starts between coveredTo and the end of
   * the gap: the delete takes such a row away, the scan does not put it back, and its time stays marked scanned.
   */
  lemma RecordedIsExactIff(all: Readings, seen: Readings, gap: Interval, segs: seq<Detected>, now: int,
                           rows: Sessions, cov: Coverage, rows': Sessions, cov': Coverage)
    requires Scan(all, seen, gap, segs, now) && Exact(all, rows, cov)
    requires Recorded(rows, cov, rows', cov', gap, segs, now)
    ensures Exact(all, rows', cov') <==> forall a :: a in rows ==> !(CoveredTo(segs, gap, now) <= a <= gap.to)
  {
    var t := CoveredTo(segs, gap, now);
    SettlePartitions(segs, gap, now);
    forall a
      ensures a in rows' <==> (a in rows && !(gap.from <= a <= gap.to)) || (gap.from <= a < t && StartsAt(all, a))
      ensures a in rows' ==> IsRowOf(all, a, rows'[a])
    {
      InsertedRows(all, seen, gap, segs, now, a);
    }
    forall a | a in rows && t <= a <= gap.to ensures a !in rows' && Covered(cov', a) && StartsAt(all, a) { }
  }

  /** A covered session ended before the range it starts in does. */
  lemma CoveredSessionsEnded(all: Readings, cov: Coverage, cutoff: int, a: int, b: int)
    requires EdgesClear(all, cov) && CoveredUpTo(cov, cutoff) && IsSession(all, a, b) && Covered(cov, a)
    ensures b <= cutoff
  {
    var f :| f in cov && f <= a < cov[f];
    assert cov[f] < b ==> Spanned(all, cov[f]);
  }

  lemma RangeEdges(cov: Coverage, f: int)
    requires Tidy(cov) && f in cov
    ensures Covered(cov, f) && !Covered(cov, f - 1) && Covered(cov, cov[f] - 1) && !Covered(cov, cov[f])
  {
    assert forall g :: g in cov && g < f ==> cov[g] < f;
    assert forall g :: g in cov && f < g ==> cov[f] < g;
  }

  lemma NewEdges(cov: Coverage, cov': Coverage, from: int, to: int, f: int)
    requires Tidy(cov) && Extends(cov, cov', from, to) && f in cov'
    ensures f in cov || (from < to && f == from && !Covered(cov, from - 1))
    ensures (from < to && cov'[f] == to) || exists g :: g in cov && cov[g] == cov'[f]
  {
    RangeEdges(cov', f);
    if Covered(cov, f) {
      var g :| g in cov && g <= f < cov[g];
      assert g < f ==> Covered(cov, f - 1);
    }
    var e := cov'[f];
    if Covered(cov, e - 1) {
      var g :| g in cov && g <= e - 1 < cov[g];
      assert e < cov[g] ==> Covered(cov, e);
    }
  }

  lemma RowStartsOutside(all: Readings, seen: Readings, gap: Interval, segs: seq<Detected>, now: int,
                         rows: Sessions, cov: Coverage, cutoff: int, a: int)
    requires Inv(all, rows, cov, cutoff) && cutoff <= now - SETTLE_MARGIN && a in rows
    requires Scan(all, seen, gap, segs, now) && (gap.to > now - SETTLE_MARGIN || !StartsAt(all, gap.to))
    ensures !(CoveredTo(segs, gap, now) <= a <= gap.to)
  {
    SettlePartitions(segs, gap, now);
    var b :| Kept(all, a, b);
    CoveredSessionsEnded(all, cov, cutoff, a, b);
    if gap.from <= a < gap.to { SettledStartsEarly(all, seen, gap, segs, now, a, b); }
  }

  lemma EdgesStayClear(all: Readings, cov: Coverage, cov': Coverage, from: int, t: int, cutoff: int, cutoff': int)
    requires Tidy(cov) && EdgesClear(all, cov) && CoveredUpTo(cov, cutoff) && Extends(cov, cov', from, t)
    requires cutoff <= cutoff' && (from < t ==> t <= cutoff')
    requires !Spanned(all, from) && !Spanned(all, t) && (Covered(cov, from - 1) || !StartsAt(all, from))
    ensures EdgesClear(all, cov') && CoveredUpTo(cov', cutoff')
  {
    forall f | f in cov'
      ensures !Spanned(all, f) && !StartsAt(all, f) && !Spanned(all, cov'[f]) && cov'[f] <= cutoff'
    {
      NewEdges(cov, cov', from, t, f);
    }
  }

  /**
   * A gap recorded in order keeps the whole invariant: its cutoff is no older than any recorded before it, a start
   * that is not the end of covered time is clear, and so is an end at or before the cutoff.
   */
  lemma RecordKeepsInv(all: Readings, seen: Readings, gap: Interval, segs: seq<Detected>, now: int,
                       rows: Sessions, cov: Coverage, rows': Sessions, cov': Coverage, cutoff: int)
    requires Inv(all, rows, cov, cutoff) && cutoff <= now - SETTLE_MARGIN
    requires Scan(all, seen, gap, segs, now)
    requires Covered(cov, gap.from - 1) || !StartsAt(all, gap.from)
    requires gap.to > now - SETTLE_MARGIN || !StartsAt(all, gap.to)
    requires Recorded(rows, cov, rows', cov', gap, segs, now)
    ensures Inv(all, rows', cov', now - SETTLE_MARGIN)
  {
    forall a | a in rows ensures !(CoveredTo(segs, gap, now) <= a <= gap.to) {
      RowStartsOutside(all, seen, gap, segs, now, rows, cov, cutoff, a);
    }
    RecordedIsExactIff(all, seen, gap, segs, now, rows, cov, rows', cov');
    CoveredToIsClear(all, seen, gap, segs, now);
    EdgesStayClear(all, cov, cov', gap.from, CoveredTo(segs, gap, now), cutoff, now - SETTLE_MARGIN);
  }

  // ---- coverage tables as lists ----

  ghost predicate SameCover(ivs: seq<Interval>, cov: Coverage) {
    forall t :: Covers(ivs, t) <==> Covered(cov, t)
  }

  lemma ListedCover(merged: seq<Interval>, cov: Coverage, t: int)
    requires forall f :: f in cov <==> exists i :: 0 <= i < |merged| && merged[i].from == f
    requires forall i :: 0 <= i < |merged| ==> merged[i].from in cov && cov[merged[i].from] == merged[i].to
    ensures Covers(merged, t) <==> Covered(cov, t)
  {
    if Covers(merged, t) { var i :| 0 <= i < |merged| && Contains(merged[i], t); }
    if Covered(cov, t) {
      var f :| f in cov && f <= t < cov[f];
      var i :| 0 <= i < |merged| && merged[i].from == f;
      assert Contains(merged[i], t);
    }
  }

  lemma CanonicalIsTidy(merged: seq<Interval>, cov: Coverage)
    requires Canonical(merged)
    requires forall f :: f in cov <==> exists i :: 0 <= i < |merged| && merged[i].from == f
    requires forall i :: 0 <= i < |merged| ==> merged[i].from in cov && cov[merged[i].from] == merged[i].to
    ensures Tidy(cov) && SameCover(merged, cov)
  {
    forall t ensures Covers(merged, t) <==> Covered(cov, t) { ListedCover(merged, cov, t); }
    forall f, g | f in cov && g in cov && f < g ensures cov[f] < g {
      var i :| 0 <= i < |merged| && merged[i].from == f;
      var j :| 0 <= j < |merged| && merged[j].from == g;
      ListedInOrder(merged, i, j);
    }
    forall f | f in cov ensures f < cov[f] {
      var i :| 0 <= i < |merged| && merged[i].from == f;
      ListedInOrder(merged, i, i);
    }
  }

  lemma ListedInOrder(merged: seq<Interval>, i: nat, j: nat)
    requires Canonical(merged) && i < |merged| && j < |merged|
    ensures merged[i].from < merged[i].to
    ensures merged[i].from < merged[j].from ==> merged[i].to < merged[j].from
  {
  }

  /** The union of a coalesced list extended by one range. */
  lemma MergedCover(existing: seq<Interval>, merged: seq<Interval>, cov: Coverage, from: int, to: int)
    requires SameCover(existing, cov) && SameUnion(merged, existing + [Interval(from, to)])
    ensures forall t :: Covers(merged, t) <==> Covered(cov, t) || from <= t < to
  {
    forall t ensures Covers(merged, t) <==> Covered(cov, t) || from <= t < to {
      CoversConcat(existing, [Interval(from, to)], t);
      SingletonCovers(Interval(from, to), t);
    }
  }

  /** The table holding a coalesced list. */
  ghost function TableOf(list: seq<Interval>): (cov: Coverage)
    requires Canonical(list)
    ensures Tidy(cov) && SameCover(list, cov)
    ensures forall j :: 0 <= j < |list| ==> list[j].from in cov && cov[list[j].from] == list[j].to
    ensures forall f :: f in cov ==> exists j :: 0 <= j < |list| && list[j].from == f
  {
    assert forall x, y :: x in list && y in list && x.from == y.from ==> x == y by { StartsAreKeys(list); }
    var cov := map iv | iv in list :: iv.from := iv.to;
    CanonicalIsTidy(list, cov);
    cov
  }

  lemma StartsAreKeys(list: seq<Interval>)
    requires Canonical(list)
    ensures forall x, y :: x in list && y in list && x.from == y.from ==> x == y
  {
    assert forall i, j :: 0 <= i < j < |list| ==> list[i].from < list[i].to < list[j].from;
  }
}
