/** The charging detection service for one tenant's vehicle: its two tables and the requests against them. */
module ChargingLedger {
  import opened Wrappers
  import Sorting
  import opened Intervals
  import opened ChargingDetection
  import opened Detector
  import opened Charges
  import opened RechargeSegments
  import opened LedgerTheory
  import opened LedgerRuns
  import opened LedgerReads

  /** The part of the coverage table already walked. */
  ghost predicate CoveredBy(cov: Coverage, keys: set<int>, t: int) {
    exists f :: f in cov && f in keys && f <= t < cov[f]
  }

  function StartingWithin(rows: seq<SessionRow>, from: int, to: int): (out: seq<SessionRow>)
    ensures (forall r :: r in rows ==> from <= r.session.startedAt <= to) ==> out == rows
  {
    if rows == [] then []
    else
      var init, r := rows[..|rows| - 1], rows[|rows| - 1];
      assert rows == init + [r];
      if from <= r.session.startedAt <= to then StartingWithin(init, from, to) + [r] else StartingWithin(init, from, to)
  }

  lemma NextWithin(rows: seq<SessionRow>, k: nat, from: int, to: int)
    requires k < |rows|
    ensures StartingWithin(rows[..k + 1], from, to)
            == if from <= rows[k].session.startedAt <= to then StartingWithin(rows[..k], from, to) + [rows[k]]
               else StartingWithin(rows[..k], from, to)
  {
    TakeNext(rows, k);
  }

  /** Appends the live rows that start in the window. */
  method AddLive(stored: seq<SessionRow>, live: seq<SessionRow>, from: int, to: int) returns (out: seq<SessionRow>)
    ensures out == stored + StartingWithin(live, from, to)
  {
    out := stored;
    for k := 0 to |live|
      invariant out == stored + StartingWithin(live[..k], from, to)
    {
      NextWithin(live, k, from, to);
      if from <= live[k].session.startedAt <= to {
        out := out + [live[k]];
      }
    }
    assert live[..|live|] == live;
  }

  lemma LiveStartsInside(live: seq<SessionRow>, seen: Readings, from: int, to: int, cutoff: int)
    requires LiveDirect(live, Window(seen, from, to), cutoff)
    ensures forall r :: r in live ==> from <= r.session.startedAt <= to
  {
    forall r | r in live ensures from <= r.session.startedAt <= to {
      var a, b :| Kept(Window(seen, from, to), a, b) && b > cutoff && r == DirectRow(Window(seen, from, to), a, b, cutoff);
    }
  }

  /** What a request relies on when it fetches a gap: on-time readings, honest pages, no session at a chunk boundary. */
  ghost predicate Fetches(fetch: PageFetch, seen: Readings, all: Readings, gap: Interval, now: int) {
    && View(all, seen, now - LATENESS) && Answers(fetch, seen)
    && ChunksClear(seen, gap)
  }

  /** The gap's fetch and its transaction both get through. */
  ghost predicate GapScans(gap: Interval, fetch: Interval -> PageFetch, commits: Interval -> bool, views: Interval -> Readings) {
    commits(gap) && !FetchFails(fetch(gap), views(gap), gap.from, gap.to)
  }

  ghost predicate AllScan(gaps: seq<Interval>, n: nat, fetch: Interval -> PageFetch, commits: Interval -> bool,
                          views: Interval -> Readings)
    requires n <= |gaps|
  {
    forall i :: 0 <= i < n ==> GapScans(gaps[i], fetch, commits, views)
  }

  /** scan is what some gap's fetch saw; with no fetch made, any view will do. */
  ghost predicate ScanView(scan: Readings, all: Readings, gaps: seq<Interval>, views: Interval -> Readings, now: int) {
    View(all, scan, now - LATENESS) && (scan == all || exists gap :: gap in gaps && scan == views(gap))
  }

  /** After the first n gaps; past says that one of them reached past the cutoff, which only the last can. */
  ghost predicate Scanned(all: Readings, cov: Coverage, gaps: seq<Interval>, n: nat, views: Interval -> Readings,
                          live: seq<SessionRow>, scan: Readings, past: bool, from: int, to: int, now: int)
    requires n <= |gaps|
  {
    && ScanView(scan, all, gaps, views, now)
    && GapsSettled(all, cov, gaps, n, now - SETTLE_MARGIN)
    && (!past ==> live == [] && EndBy(gaps, n, now - SETTLE_MARGIN))
    && (past ==> n == |gaps| && LiveDirect(live, Window(scan, from, to), now - SETTLE_MARGIN))
    && GapsReached(cov, gaps, n, past, Window(scan, from, to), now - SETTLE_MARGIN)
  }

  /** The first n gaps are covered whole, but for the last of them when it reaches past the cutoff. */
  ghost predicate GapsReached(cov: Coverage, gaps: seq<Interval>, n: nat, past: bool, w: Readings, cutoff: int)
    requires n <= |gaps|
  {
    && (forall j :: 0 <= j < n && !(past && j == n - 1) ==> Whole(cov, gaps[j]))
    && (past ==> n > 0 && Reached(cov, gaps[n - 1], w, cutoff))
  }

  lemma GapsReachedStep(before: Coverage, after: Coverage, gaps: seq<Interval>, n: nat, reaches: bool, w: Readings, w': Readings, cutoff: int)
    requires n < |gaps| && GapsReached(before, gaps, n, false, w, cutoff) && SubCoverage(before, after)
    requires if reaches then Reached(after, gaps[n], w', cutoff) else Whole(after, gaps[n])
    ensures GapsReached(after, gaps, n + 1, reaches, w', cutoff)
  {
  }

  /** The coverage of the window after all its gaps. */
  lemma WindowReached(all: Readings, scan: Readings, cov0: Coverage, cov: Coverage, from: int, to: int, now: int,
                      gaps: seq<Interval>, past: bool)
    requires View(all, scan, now - LATENESS) && SubCoverage(cov0, cov)
    requires EdgesClear(all, cov) && CoveredUpTo(cov, now - SETTLE_MARGIN)
    requires forall t :: Covers(gaps, t) <==> from <= t < to && !Covered(cov0, t)
    requires GapsReached(cov, gaps, |gaps|, past, Window(scan, from, to), now - SETTLE_MARGIN)
    ensures CoversSettled(cov, Window(scan, from, to), from, to, now - SETTLE_MARGIN)
  {
    var w, cutoff := Window(scan, from, to), now - SETTLE_MARGIN;
    forall t | from <= t < to ensures Covered(cov, t) <==> t < cutoff && !RunningSince(w, t, cutoff) {
      if Covered(cov, t) {
        RunningIsUncovered(all, scan, now - LATENESS, from, to, cov, cutoff, t);
      } else if t < cutoff {
        assert Covers(gaps, t);
        var j :| 0 <= j < |gaps| && Contains(gaps[j], t);
        assert !Whole(cov, gaps[j]);
      }
    }
  }

  lemma NextScanned(all: Readings, cov0: Coverage, before: Coverage, after: Coverage, gaps: seq<Interval>, i: nat,
                    views: Interval -> Readings, live: seq<SessionRow>, scan: Readings, past: bool,
                    from: int, to: int, now: int, segs: seq<Detected>, rows: seq<SessionRow>)
    requires i < |gaps| && Canonical(gaps) && forall gap :: gap in gaps ==> IsGap(cov0, from, to, gap)
    requires ClearWindow(all, from, to, now) && EdgesClear(all, cov0) && CoveredUpTo(cov0, now - SETTLE_MARGIN)
    requires Scanned(all, before, gaps, i, views, live, scan, past, from, to, now)
    requires Scan(all, views(gaps[i]), gaps[i], segs, now)
    requires Extends(before, after, gaps[i].from, CoveredTo(segs, gaps[i], now))
    requires rows == LiveRows(InProgress(segs, gaps[i], now), now)
    ensures var reaches := gaps[i].to > now - SETTLE_MARGIN;
            Scanned(all, after, gaps, i + 1, views, live + rows, if reaches then views(gaps[i]) else scan, past || reaches,
                    from, to, now)
  {
    var gap := gaps[i];
    assert gap in gaps;
    GapSettles(all, views(gap), gap, segs, now, before, after);
    GapsSettledStep(all, before, after, gaps, i, now - SETTLE_MARGIN);
    SettledGapHasNothingLive(gaps, i, segs, now);
    EarlierGapEndsInside(gaps, i, cov0, from, to);
    assert live + rows == rows;
    if gap.to > now - SETTLE_MARGIN {
      GapIsReached(all, views(gap), from, to, now, cov0, gap, segs, before, after);
    }
    GapsReachedStep(before, after, gaps, i, gap.to > now - SETTLE_MARGIN, Window(scan, from, to),
                    Window(if gap.to > now - SETTLE_MARGIN then views(gap) else scan, from, to), now - SETTLE_MARGIN);
    if gap.to > now - SETTLE_MARGIN {
      LiveGapIsDirect(all, views(gap), from, to, now, cov0, gap, segs, rows);
    }
  }

  /** There is no other maximal uncovered range than the ones listed. */
  lemma GapIsListed(gaps: seq<Interval>, cov: Coverage, from: int, to: int, gap: Interval)
    requires Canonical(gaps) && forall t :: Covers(gaps, t) <==> from <= t < to && !Covered(cov, t)
    requires IsGap(cov, from, to, gap)
    ensures gap in gaps
  {
    assert Covers(gaps, gap.from);
    var j :| 0 <= j < |gaps| && Contains(gaps[j], gap.from);
    CanonicalEdges(gaps, j);
    assert Contains(gaps[j], gap.from - 1) ==> Covers(gaps, gap.from - 1);
    assert Contains(gaps[j], gap.to) ==> Covers(gaps, gap.to);
    assert gaps[j] == gap;
  }

  /** The unsettled part of the direct scan. */
  ghost predicate LiveDirect(live: seq<SessionRow>, w: Readings, cutoff: int) {
    && ByStart(live)
    && (forall r :: r in live ==> exists a, b :: Kept(w, a, b) && b > cutoff && r == DirectRow(w, a, b, cutoff))
    && (forall a, b :: Kept(w, a, b) && b > cutoff ==> DirectRow(w, a, b, cutoff) in live)
  }

  /** The settled part of the direct scan. */
  ghost predicate StoredDirect(stored: seq<SessionRow>, w: Readings, cutoff: int) {
    && ByStart(stored)
    && (forall r :: r in stored ==> exists a, b :: Kept(w, a, b) && b <= cutoff && r == DirectRow(w, a, b, cutoff))
    && (forall a, b :: Kept(w, a, b) && b <= cutoff ==> DirectRow(w, a, b, cutoff) in stored)
  }

  lemma InsertsFit(all: Readings, seen: Readings, gap: Interval, segs: seq<Detected>, now: int)
    requires Scan(all, seen, gap, segs, now)
    ensures InOrder(WithoutNoise(Final(segs, gap, now)))
    ensures forall d :: d in WithoutNoise(Final(segs, gap, now)) ==> gap.from <= d.startedAt <= gap.to
  {
    InsertedRows(all, seen, gap, segs, now, gap.from);
    SettlePartitions(segs, gap, now);
    forall d | d in WithoutNoise(Final(segs, gap, now)) ensures gap.from <= d.startedAt <= gap.to {
      FinalIsTrue(all, seen, gap, segs, now, d);
    }
  }

  ghost predicate GapsSettled(all: Readings, cov: Coverage, gaps: seq<Interval>, n: nat, cutoff: int)
    requires n <= |gaps|
  {
    forall j :: 0 <= j < n ==> SettledCovered(all, cov, gaps[j].from, gaps[j].to, cutoff)
  }

  lemma GapsSettledStep(all: Readings, cov: Coverage, cov': Coverage, gaps: seq<Interval>, n: nat, cutoff: int)
    requires n < |gaps| && GapsSettled(all, cov, gaps, n, cutoff) && SubCoverage(cov, cov')
    requires SettledCovered(all, cov', gaps[n].from, gaps[n].to, cutoff)
    ensures GapsSettled(all, cov', gaps, n + 1, cutoff)
  {
  }

  lemma GapSettles(all: Readings, seen: Readings, gap: Interval, segs: seq<Detected>, now: int, cov: Coverage, cov': Coverage)
    requires Scan(all, seen, gap, segs, now) && Extends(cov, cov', gap.from, CoveredTo(segs, gap, now))
    ensures SettledCovered(all, cov', gap.from, gap.to, now - SETTLE_MARGIN)
  {
    forall a, b | IsSession(all, a, b) && b <= now - SETTLE_MARGIN && gap.from <= a < gap.to ensures Covered(cov', a) {
      SettledStartsEarly(all, seen, gap, segs, now, a, b);
    }
  }

  lemma WindowSettles(all: Readings, cov0: Coverage, cov: Coverage, from: int, to: int, cutoff: int, gaps: seq<Interval>)
    requires SubCoverage(cov0, cov)
    requires forall t :: Covers(gaps, t) <==> from <= t < to && !Covered(cov0, t)
    requires GapsSettled(all, cov, gaps, |gaps|, cutoff)
    ensures SettledCovered(all, cov, from, to, cutoff)
  {
    forall a, b | IsSession(all, a, b) && b <= cutoff && from <= a < to ensures Covered(cov, a) {
      if Covers(gaps, a) {
        var j :| 0 <= j < |gaps| && Contains(gaps[j], a);
      }
    }
  }

  lemma LiveGapIsDirect(all: Readings, seen: Readings, from: int, to: int, now: int, cov: Coverage,
                        gap: Interval, segs: seq<Detected>, live: seq<SessionRow>)
    requires ClearWindow(all, from, to, now) && Scan(all, seen, gap, segs, now)
    requires IsGap(cov, from, to, gap) && EdgesClear(all, cov) && CoveredUpTo(cov, now - SETTLE_MARGIN)
    requires gap.to > now - SETTLE_MARGIN
    requires live == LiveRows(InProgress(segs, gap, now), now)
    ensures LiveDirect(live, Window(seen, from, to), now - SETTLE_MARGIN) && gap.to == to
  {
    LiveGapIsLast(cov, from, to, now - SETTLE_MARGIN, gap);
    LiveRowsOfGap(Window(seen, gap.from, gap.to), gap, segs, now);
    LiveRowsAreDirect(all, seen, from, to, now, cov, gap, segs, live);
  }

  /** The first n gaps end by the cutoff. */
  ghost predicate EndBy(gaps: seq<Interval>, n: nat, cutoff: int)
    requires n <= |gaps|
  {
    forall j :: 0 <= j < n ==> gaps[j].to <= cutoff
  }

  lemma EarlierGapEndsInside(gaps: seq<Interval>, i: nat, cov: Coverage, from: int, to: int)
    requires Canonical(gaps) && i < |gaps| && forall gap :: gap in gaps ==> IsGap(cov, from, to, gap)
    ensures i + 1 < |gaps| ==> gaps[i].to < to
  {
    if i + 1 < |gaps| {
      assert gaps[i + 1] in gaps;
      assert gaps[i].to < gaps[i + 1].from < gaps[i + 1].to;
    }
  }

  lemma SettledGapHasNothingLive(gaps: seq<Interval>, i: nat, segs: seq<Detected>, now: int)
    requires i < |gaps|
    ensures gaps[i].to <= now - SETTLE_MARGIN ==> LiveRows(InProgress(segs, gaps[i], now), now) == []
    ensures gaps[i].to <= now - SETTLE_MARGIN && EndBy(gaps, i, now - SETTLE_MARGIN) ==> EndBy(gaps, i + 1, now - SETTLE_MARGIN)
  {
  }

  lemma NothingIsLive(seen: Readings, from: int, to: int, cutoff: int, cov: Coverage, gaps: seq<Interval>)
    requires forall t :: Covers(gaps, t) <==> from <= t < to && !Covered(cov, t)
    requires EndBy(gaps, |gaps|, cutoff) && CoveredUpTo(cov, cutoff)
    ensures LiveDirect([], Window(seen, from, to), cutoff)
  {
    forall a, b | Kept(Window(seen, from, to), a, b) ensures b <= cutoff {
      NothingLive(seen, from, to, cutoff, cov, gaps, a, b);
    }
  }

  lemma LiveRowsAreDirect(all: Readings, seen: Readings, from: int, to: int, now: int, cov: Coverage,
                          gap: Interval, segs: seq<Detected>, live: seq<SessionRow>)
    requires ClearWindow(all, from, to, now) && Scan(all, seen, gap, segs, now)
    requires IsGap(cov, from, to, gap) && EdgesClear(all, cov) && CoveredUpTo(cov, now - SETTLE_MARGIN)
    requires gap.to > now - SETTLE_MARGIN
    requires LiveOf(live, Window(seen, gap.from, gap.to), CoveredTo(segs, gap, now))
    ensures LiveDirect(live, Window(seen, from, to), now - SETTLE_MARGIN)
  {
    var w, w0, cutoff, t := Window(seen, gap.from, gap.to), Window(seen, from, to), now - SETTLE_MARGIN, CoveredTo(segs, gap, now);
    SettlePartitions(segs, gap, now);
    forall a, b ensures Kept(w, a, b) && a >= t <==> Kept(w0, a, b) && b > cutoff
                ensures Kept(w, a, b) && a >= t ==> SessionRow(Record(Segment(w, a, b)), true) == DirectRow(w0, a, b, cutoff)
    {
      LiveIsDirect(all, seen, from, to, now, cov, gap, segs, a, b);
    }
  }

  lemma StoredRowsAreDirect(all: Readings, seen: Readings, from: int, to: int, now: int,
                            rows: Sessions, cov: Coverage, stored: seq<SessionRow>)
    requires Inv(all, rows, cov, now - SETTLE_MARGIN) && ClearWindow(all, from, to, now) && View(all, seen, now - LATENESS)
    requires SettledCovered(all, cov, from, to, now - SETTLE_MARGIN)
    requires ByStart(stored)
    requires forall r :: r in stored <==> exists a :: a in rows && from <= a <= to && r == SessionRow(rows[a], false)
    ensures StoredDirect(stored, Window(seen, from, to), now - SETTLE_MARGIN)
  {
    var w, cutoff := Window(seen, from, to), now - SETTLE_MARGIN;
    forall r | r in stored ensures exists a, b :: Kept(w, a, b) && b <= cutoff && r == DirectRow(w, a, b, cutoff) {
      var a :| a in rows && from <= a <= to && r == SessionRow(rows[a], false);
      StoredIsDirect(all, seen, from, to, now, rows, cov, a);
    }
    forall a, b | Kept(w, a, b) && b <= cutoff ensures DirectRow(w, a, b, cutoff) in stored {
      StoredIsDirect(all, seen, from, to, now, rows, cov, a);
    }
  }

  /** A session with no end yet has its latest reading now. */
  function Ended(d: Detected, now: int): Detected {
    if d.endedAt.None? then d.(endedAt := Some(now)) else d
  }

  method LiveSessions(inProgress: seq<Detected>, now: int) returns (live: seq<SessionRow>)
    ensures live == LiveRows(inProgress, now)
  {
    live := [];
    for k := 0 to |inProgress|
      invariant live == LiveRows(inProgress[..k], now)
    {
      var d := inProgress[k];
      TakeNext(inProgress, k);
      if d.endedAt.None? {
        d := d.(endedAt := Some(now));
      }
      if d.IsNoise() {
        continue;
      }
      live := live + [SessionRow(Record(d), true)];
    }
    assert inProgress[..|inProgress|] == inProgress;
  }

  /** What a gap's sessions in progress contribute to the answer. */
  function LiveRows(inProgress: seq<Detected>, now: int): (live: seq<SessionRow>) {
    if inProgress == [] then []
    else
      var d, rest := Ended(inProgress[|inProgress| - 1], now), LiveRows(inProgress[..|inProgress| - 1], now);
      if d.IsNoise() then rest else rest + [SessionRow(Record(d), true)]
  }

  /** The row of a session in progress: without an end it runs until now. */
  ghost predicate IsLiveRow(r: SessionRow, d: Detected, now: int) {
    && r.inProgress && r.session.startedAt == d.startedAt
    && r.session.endedAt == Some(if d.endedAt.Some? then d.endedAt.value else now)
    && r.session.addedEnergyKwh == d.AddedEnergyKwh()
  }

  /** Worth showing: five minutes and more, measured until now when it has no end, or its counter went up. */
  ghost predicate Shown(d: Detected, now: int) {
    || (if d.endedAt.Some? then d.endedAt.value else now) - d.startedAt >= 300
    || (d.firstEnergyKwh.Some? && d.lastEnergyKwh.Some? && d.lastEnergyKwh.value > d.firstEnergyKwh.value)
  }

  lemma {:induction false} LiveRowsAre(inProgress: seq<Detected>, now: int)
    ensures forall r :: r in LiveRows(inProgress, now) ==> exists d :: d in inProgress && Shown(d, now) && IsLiveRow(r, d, now)
    ensures forall d :: d in inProgress && Shown(d, now) ==> exists r :: r in LiveRows(inProgress, now) && IsLiveRow(r, d, now)
  {
    if inProgress != [] {
      var init, d := inProgress[..|inProgress| - 1], inProgress[|inProgress| - 1];
      LiveRowsAre(init, now);
      assert inProgress == init + [d];
      NoiseIff(Ended(d, now));
      var row := SessionRow(Record(Ended(d, now)), true);
      assert Ended(d, now).AddedEnergyKwh() == d.AddedEnergyKwh();
      assert IsLiveRow(row, d, now);
      forall r | r in LiveRows(inProgress, now)
        ensures exists e :: e in inProgress && Shown(e, now) && IsLiveRow(r, e, now)
      {
        if r in LiveRows(init, now) {
          var e :| e in init && Shown(e, now) && IsLiveRow(r, e, now);
          assert e in inProgress;
        }
      }
      forall e | e in inProgress && Shown(e, now)
        ensures exists r :: r in LiveRows(inProgress, now) && IsLiveRow(r, e, now)
      {
        if e in init {
          var r :| r in LiveRows(init, now) && IsLiveRow(r, e, now);
          assert r in LiveRows(inProgress, now);
        } else {
          assert row in LiveRows(inProgress, now);
        }
      }
    }
  }

  /** live is the non-noise sessions of w that start at coveredTo or later, by start. */
  ghost predicate LiveOf(live: seq<SessionRow>, w: Readings, coveredTo: int) {
    && ByStart(live)
    && (forall r :: r in live ==> exists a, b :: Kept(w, a, b) && a >= coveredTo && r == SessionRow(Record(Segment(w, a, b)), true))
    && (forall a, b :: Kept(w, a, b) && a >= coveredTo ==> SessionRow(Record(Segment(w, a, b)), true) in live)
  }

  lemma {:induction false} LiveRowsMembers(inProgress: seq<Detected>, now: int)
    requires InOrder(inProgress) && forall d :: d in inProgress ==> d.endedAt.Some?
    ensures ByStart(LiveRows(inProgress, now))
    ensures forall r :: r in LiveRows(inProgress, now) ==> exists d :: d in inProgress && !d.IsNoise() && r == SessionRow(Record(d), true)
    ensures forall d :: d in inProgress && !d.IsNoise() ==> SessionRow(Record(d), true) in LiveRows(inProgress, now)
  {
    if inProgress != [] {
      var init, d := inProgress[..|inProgress| - 1], inProgress[|inProgress| - 1];
      LiveRowsMembers(init, now);
      assert inProgress == init + [d];
      assert forall e :: e in init ==> e.startedAt < d.startedAt;
      var rest := LiveRows(init, now);
      forall i | 0 <= i < |rest| ensures rest[i].session.startedAt < d.startedAt { assert rest[i] in rest; }
      forall r | r in LiveRows(inProgress, now)
        ensures exists e :: e in inProgress && !e.IsNoise() && r == SessionRow(Record(e), true)
      {
        if r in rest {
          var e :| e in init && !e.IsNoise() && r == SessionRow(Record(e), true);
          assert e in inProgress;
        } else {
          assert d in inProgress;
        }
      }
    }
  }

  lemma LiveRowsOfGap(w: Readings, gap: Interval, segs: seq<Detected>, now: int)
    requires Detects(w, segs) && gap.from <= gap.to && gap.to > now - SETTLE_MARGIN
    ensures LiveOf(LiveRows(InProgress(segs, gap, now), now), w, CoveredTo(segs, gap, now))
  {
    var inProgress := InProgress(segs, gap, now);
    SettlePartitions(segs, gap, now);
    PartsInOrder(Final(segs, gap, now), inProgress);
    LiveRowsMembers(inProgress, now);
    forall r | r in LiveRows(inProgress, now)
      ensures exists a, b :: Kept(w, a, b) && a >= CoveredTo(segs, gap, now) && r == SessionRow(Record(Segment(w, a, b)), true)
    {
      var d :| d in inProgress && !d.IsNoise() && r == SessionRow(Record(d), true);
      assert Kept(w, d.startedAt, d.endedAt.value);
    }
    forall a, b | Kept(w, a, b) && a >= CoveredTo(segs, gap, now)
      ensures SessionRow(Record(Segment(w, a, b)), true) in LiveRows(inProgress, now)
    {
      assert Segment(w, a, b) in inProgress;
    }
  }

  /** The stored rows of the window followed by the live ones are the direct scan. */
  lemma AssembleDirect(w: Readings, cutoff: int, stored: seq<SessionRow>, live: seq<SessionRow>)
    requires StoredDirect(stored, w, cutoff) && LiveDirect(live, w, cutoff)
    ensures DirectScan(stored + live, w, cutoff)
  {
    forall i, j | 0 <= i < |stored| && 0 <= j < |live| ensures stored[i].session.startedAt < live[j].session.startedAt {
      assert stored[i] in stored && live[j] in live;
      var a, b :| Kept(w, a, b) && b <= cutoff && stored[i] == DirectRow(w, a, b, cutoff);
      var a', b' :| Kept(w, a', b') && b' > cutoff && live[j] == DirectRow(w, a', b', cutoff);
      SessionsMeet(w, a, b, a', b');
    }
  }

  predicate StartsBefore(a: SessionRow, b: SessionRow) {
    a.session.startedAt < b.session.startedAt
  }

  lemma StartsDiffer(sessions: seq<Detected>, i: nat)
    requires i < |sessions|
    ensures InOrder(sessions) ==> sessions[i].startedAt !in RowsOf(sessions[..i])
  {
    if InOrder(sessions) { RowsOfMembers(sessions[..i]); }
  }

  class Tables {
    /** Stored sessions by start: the primary key within one vehicle. */
    var rows: Sessions
    /** Scanned ranges, end by start. */
    var coverage: Coverage

    constructor ()
      ensures rows == map[] && coverage == map[]
    {
      rows, coverage := map[], map[];
    }

    /** The coverage table as a coalesced list. */
    method CoverageIntervals() returns (ivs: seq<Interval>)
      requires Tidy(coverage)
      ensures Canonical(ivs) && SameCover(ivs, coverage)
    {
      var list: seq<Interval> := [];
      var todo := coverage.Keys;
      while todo != {}
        invariant todo <= coverage.Keys
        invariant Proper(list)
        invariant forall t :: Covers(list, t) <==> CoveredBy(coverage, coverage.Keys - todo, t)
        decreases todo
      {
        var f := PickAny(todo);
        ghost var was := list;
        list := list + [Interval(f, coverage[f])];
        forall t ensures Covers(list, t) <==> CoveredBy(coverage, coverage.Keys - (todo - {f}), t) {
          CoversConcat(was, [Interval(f, coverage[f])], t);
          SingletonCovers(Interval(f, coverage[f]), t);
        }
        todo := todo - {f};
      }
      assert forall t :: CoveredBy(coverage, coverage.Keys - todo, t) <==> Covered(coverage, t);
      ivs := Coalesce(list);
    }

    method UncoveredGaps(from: int, to: int) returns (gaps: seq<Interval>)
      requires Tidy(coverage)
      ensures Canonical(gaps)
      ensures forall t :: Covers(gaps, t) <==> from <= t < to && !Covered(coverage, t)
      ensures forall gap :: gap in gaps <==> IsGap(coverage, from, to, gap)
    {
      var existing := CoverageIntervals();
      gaps := ComputeGaps(existing, from, to);
      forall gap | gap in gaps ensures IsGap(coverage, from, to, gap) {
        var i :| 0 <= i < |gaps| && gaps[i] == gap;
        GapEdges(gaps, existing, from, to, i);
      }
      forall gap | IsGap(coverage, from, to, gap) ensures gap in gaps {
        GapIsListed(gaps, coverage, from, to, gap);
      }
    }

    /** Rewrites the coverage table with [from, to) added; fails on a duplicate key, which never happens. */
    method MergeCoverage(from: int, to: int) returns (ok: bool)
      requires Tidy(coverage) && from < to
      modifies this`coverage
      ensures ok && Extends(old(coverage), coverage, from, to)
    {
      var existing := CoverageIntervals();
      var merged := Coalesce(existing + [Interval(from, to)]);
      MergedCover(existing, merged, coverage, from, to);
      var table: Coverage := map[];
      for i := 0 to |merged|
        invariant forall f :: f in table <==> exists j :: 0 <= j < i && merged[j].from == f
        invariant forall j :: 0 <= j < i ==> merged[j].from in table && table[merged[j].from] == merged[j].to
      {
        var iv := merged[i];
        if iv.from in table {
          return false;
        }
        table := table[iv.from := iv.to];
      }
      CanonicalIsTidy(merged, table);
      coverage := table;
      ok := true;
    }

    /** Replaces the rows starting in [from, to], both ends included; fails on a duplicate start. */
    method PersistSessions(sessions: seq<Detected>, from: int, to: int) returns (ok: bool)
      modifies this`rows
      ensures ok ==> rows == Replace(old(rows), Interval(from, to), sessions)
      ensures InOrder(sessions) && (forall d :: d in sessions ==> from <= d.startedAt <= to) ==> ok
    {
      rows := map a | a in rows && !(from <= a <= to) :: rows[a];
      ghost var kept := rows;
      for i := 0 to |sessions|
        invariant rows == kept + RowsOf(sessions[..i])
      {
        var d := sessions[i];
        TakeNext(sessions, i);
        StartsDiffer(sessions, i);
        if d.startedAt in rows {
          return false;
        }
        rows := rows[d.startedAt := Record(d)];
      }
      assert sessions[..|sessions|] == sessions;
      ok := true;
    }

    /** One transaction under the vehicle's lock: both tables change, or neither does. */
    method RecordGap(gap: Interval, final: seq<Detected>, coveredTo: int, commits: bool) returns (ok: bool)
      requires Tidy(coverage)
      modifies this
      ensures !ok ==> rows == old(rows) && coverage == old(coverage)
      ensures ok ==> rows == Replace(old(rows), gap, final) && Extends(old(coverage), coverage, gap.from, coveredTo)
      ensures ok ==> commits
      ensures commits && InOrder(final) && (forall d :: d in final ==> gap.from <= d.startedAt <= gap.to) ==> ok
    {
      var rowsBefore, coverageBefore := rows, coverage;
      ok := PersistSessions(final, gap.from, gap.to);
      if ok && coveredTo > gap.from {
        ok := MergeCoverage(gap.from, coveredTo);
      }
      if !ok || !commits {
        rows, coverage := rowsBefore, coverageBefore;
        return false;
      }
    }

    /** The stored sessions starting in [from, to], by start. */
    method ReadSessions(from: int, to: int) returns (out: seq<SessionRow>)
      requires forall a :: a in rows ==> rows[a].startedAt == a
      ensures ByStart(out)
      ensures forall r :: r in out <==> exists a :: a in rows && from <= a <= to && r == SessionRow(rows[a], false)
    {
      out := [];
      var todo := rows.Keys;
      while todo != {}
        invariant todo <= rows.Keys && ByStart(out)
        invariant forall r :: r in out <==> exists a :: a in rows && a !in todo && from <= a <= to && r == SessionRow(rows[a], false)
        decreases todo
      {
        var a := PickAny(todo);
        todo := todo - {a};
        if from <= a <= to {
          Sorting.InsertOrders(SessionRow(rows[a], false), out, StartsBefore);
          out := Sorting.Insert(SessionRow(rows[a], false), out, StartsBefore);
        }
      }
    }

    /** Fetches one gap, settles it and records it; live is what the gap has in progress. */
    method ScanGap(gap: Interval, now: int, fetch: PageFetch, commits: bool, ghost all: Readings, ghost seen: Readings)
      returns (ok: bool, live: seq<SessionRow>, ghost segs: seq<Detected>)
      requires Inv(all, rows, coverage, now - SETTLE_MARGIN) && Fetches(fetch, seen, all, gap, now)
      requires gap.from < gap.to && !Spanned(all, gap.from) && EndsClear(all, gap.to, now - LATENESS)
      requires Covered(coverage, gap.from - 1) || !StartsAt(all, gap.from)
      requires gap.to > now - SETTLE_MARGIN || !StartsAt(all, gap.to)
      modifies this
      ensures Inv(all, rows, coverage, now - SETTLE_MARGIN)
      ensures ok <==> commits && !FetchFails(fetch, seen, gap.from, gap.to)
      ensures !ok ==> rows == old(rows) && coverage == old(coverage)
      ensures ok ==> Scan(all, seen, gap, segs, now) && live == LiveRows(InProgress(segs, gap, now), now)
      ensures ok ==> Recorded(old(rows), old(coverage), rows, coverage, gap, segs, now)
    {
      live, segs := [], [];
      var segments := Fetch(fetch, gap.from, gap.to, seen);
      if segments.None? {
        return false, live, segs;
      }
      segs := segments.value;
      ChunkedIsWhole(seen, gap.from, gap.to, segs);
      var final, inProgress, coveredTo := SettleGap(segments.value, gap, now);
      InsertsFit(all, seen, gap, segs, now);
      ok := RecordGap(gap, WithoutNoise(final), coveredTo, commits);
      if !ok {
        return;
      }
      RecordKeepsInv(all, seen, gap, segs, now, old(rows), old(coverage), rows, coverage, now - SETTLE_MARGIN);
      live := LiveSessions(inProgress, now);
    }

    /**
     One request. Every gap is fetched and recorded in turn; a failure leaves what was recorded so far, which is
     a valid state. On success the answer is the direct scan of [from, to] over the readings the last fetch saw.
     */
    method Sessions(from: int, to: int, now: int, fetch: Interval -> PageFetch, commits: Interval -> bool,
                    ghost all: Readings, ghost views: Interval -> Readings, ghost cutoff: int)
      returns (out: Option<seq<SessionRow>>, ghost scan: Readings)
      requires Inv(all, rows, coverage, cutoff) && cutoff <= now - SETTLE_MARGIN
      requires ClearWindow(all, from, to, now)
      requires forall gap :: IsGap(coverage, from, to, gap) ==> Fetches(fetch(gap), views(gap), all, gap, now)
      modifies this
      ensures Inv(all, rows, coverage, now - SETTLE_MARGIN)
      ensures SubCoverage(old(coverage), coverage)
      ensures View(all, scan, now - LATENESS)
      ensures scan == all || exists gap :: IsGap(old(coverage), from, to, gap) && scan == views(gap)
      ensures out.Some? ==> DirectScan(out.value, Window(scan, from, to), now - SETTLE_MARGIN)
      ensures StoresCharges(all, rows, coverage)
      ensures out.Some? ==> ReportsCharges(out.value, Window(scan, from, to), now)
      ensures out.Some? ==> SettledCovered(all, coverage, from, to, now - SETTLE_MARGIN)
      ensures out.Some? ==> CoversSettled(coverage, Window(scan, from, to), from, to, now - 8100)
      ensures forall t :: Covered(coverage, t) && !(from <= t < to) ==> Covered(old(coverage), t)
      ensures out.Some? <==> forall gap :: IsGap(old(coverage), from, to, gap) ==> GapScans(gap, fetch, commits, views)
    {
      ghost var cov0 := coverage;
      var gaps := UncoveredGaps(from, to);
      assert SubCoverage(cov0, coverage);
      var ok, live;
      ok, live, scan := ScanGaps(gaps, from, to, now, fetch, commits, all, views);
      ExactStoresCharges(all, rows, coverage);
      if !ok {
        return None, scan;
      }
      WindowSettles(all, cov0, coverage, from, to, now - SETTLE_MARGIN, gaps);
      var merged := ReadBack(from, to, now, live, all, scan);
      DirectScanReports(merged, Window(scan, from, to), now);
      return Some(merged), scan;
    }

    /** The gap loop of a request; only the last gap can leave sessions in progress. */
    method ScanGaps(gaps: seq<Interval>, from: int, to: int, now: int, fetch: Interval -> PageFetch, commits: Interval -> bool,
                    ghost all: Readings, ghost views: Interval -> Readings)
      returns (ok: bool, live: seq<SessionRow>, ghost scan: Readings)
      requires Inv(all, rows, coverage, now - SETTLE_MARGIN) && ClearWindow(all, from, to, now)
      requires Canonical(gaps) && forall gap :: gap in gaps ==> IsGap(coverage, from, to, gap)
      requires forall gap :: gap in gaps ==> Fetches(fetch(gap), views(gap), all, gap, now)
      requires forall t :: Covers(gaps, t) <==> from <= t < to && !Covered(coverage, t)
      modifies this
      ensures Inv(all, rows, coverage, now - SETTLE_MARGIN) && SubCoverage(old(coverage), coverage)
      ensures ScanView(scan, all, gaps, views, now)
      ensures ok ==> LiveDirect(live, Window(scan, from, to), now - SETTLE_MARGIN)
      ensures ok ==> GapsSettled(all, coverage, gaps, |gaps|, now - SETTLE_MARGIN)
      ensures ok ==> CoversSettled(coverage, Window(scan, from, to), from, to, now - SETTLE_MARGIN)
      ensures forall t :: Covered(coverage, t) && !(from <= t < to) ==> Covered(old(coverage), t)
      ensures ok <==> AllScan(gaps, |gaps|, fetch, commits, views)
    {
      live := [];
      ghost var cov0, past := coverage, false;
      scan := all;
      for i := 0 to |gaps|
        invariant Inv(all, rows, coverage, now - SETTLE_MARGIN) && SubCoverage(cov0, coverage)
        invariant forall t :: Covered(coverage, t) && !(from <= t < to) ==> Covered(cov0, t)
        invariant AllScan(gaps, i, fetch, commits, views)
        invariant Scanned(all, coverage, gaps, i, views, live, scan, past, from, to, now)
      {
        var gap := gaps[i];
        assert gap in gaps;
        GapEdgesClear(all, cov0, from, to, now, gap);
        ghost var before := coverage;
        var done, rows, segs := ScanGap(gap, now, fetch(gap), commits(gap), all, views(gap));
        if !done {
          assert !GapScans(gap, fetch, commits, views);
          return false, live, scan;
        }
        SettlePartitions(segs, gap, now);
        NextScanned(all, cov0, before, coverage, gaps, i, views, live, scan, past, from, to, now, segs, rows);
        live := live + rows;
        if gap.to > now - SETTLE_MARGIN {
          past, scan := true, views(gap);
        }
      }
      if !past {
        NothingIsLive(scan, from, to, now - SETTLE_MARGIN, cov0, gaps);
      }
      WindowReached(all, scan, cov0, coverage, from, to, now, gaps, past);
      ok := true;
    }

    /** Reads the stored rows of the window, adds the live ones and sorts. */
    method ReadBack(from: int, to: int, now: int, live: seq<SessionRow>, ghost all: Readings, ghost scan: Readings)
      returns (out: seq<SessionRow>)
      requires Inv(all, rows, coverage, now - SETTLE_MARGIN) && ClearWindow(all, from, to, now) && View(all, scan, now - LATENESS)
      requires SettledCovered(all, coverage, from, to, now - SETTLE_MARGIN)
      requires LiveDirect(live, Window(scan, from, to), now - SETTLE_MARGIN)
      ensures DirectScan(out, Window(scan, from, to), now - SETTLE_MARGIN)
    {
      var stored := ReadSessions(from, to);
      StoredRowsAreDirect(all, scan, from, to, now, rows, coverage, stored);
      AssembleDirect(Window(scan, from, to), now - SETTLE_MARGIN, stored, live);
      LiveStartsInside(live, scan, from, to, now - SETTLE_MARGIN);
      out := AddLive(stored, live, from, to);
      Sorting.SortedAlready(out, StartsBefore);
      out := Sorting.Sort(out, StartsBefore);
    }
  }
}
