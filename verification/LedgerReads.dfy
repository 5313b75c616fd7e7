/** What a completed request reads back, compared with a direct scan of its whole window. */
module LedgerReads {
  import opened Wrappers
  import opened Intervals
  import opened ChargingDetection
  import opened Detector
  import opened Charges
  import opened LedgerTheory
  import opened LedgerRuns

  datatype SessionRow = SessionRow(session: Row, inProgress: bool)

  /** The direct answer's row for the session from a to b of the window's readings. */
  function DirectRow(w: Readings, a: int, b: int, cutoff: int): SessionRow {
    SessionRow(Record(Segment(w, a, b)), b > cutoff)
  }

  ghost predicate ByStart(out: seq<SessionRow>) {
    forall i, j :: 0 <= i < j < |out| ==> out[i].session.startedAt < out[j].session.startedAt
  }

  /** out is what scanning all of [from, to] at once would give: every non-noise session, each once, by start. */
  ghost predicate DirectScan(out: seq<SessionRow>, w: Readings, cutoff: int) {
    && ByStart(out)
    && (forall r :: r in out ==> exists a, b :: Kept(w, a, b) && r == DirectRow(w, a, b, cutoff))
    && (forall a, b :: Kept(w, a, b) ==> DirectRow(w, a, b, cutoff) in out)
  }

  /** What an answer says of the session from a to b: its energy as its counter tells, and whether it may still grow. */
  ghost predicate Reports(r: SessionRow, w: Readings, a: int, b: int, now: int) {
    && r.session.startedAt == a && r.session.endedAt == Some(b)
    && EnergyIs(w, a, b, r.session.addedEnergyKwh)
    && (r.inProgress <==> b > now - 8100)
  }

  /** out reports exactly the charged sessions of w, each once, by start. */
  ghost predicate ReportsCharges(out: seq<SessionRow>, w: Readings, now: int) {
    && ByStart(out)
    && (forall r :: r in out ==> exists a, b :: Charged(w, a, b) && Reports(r, w, a, b, now))
    && (forall a, b :: Charged(w, a, b) ==> exists r :: r in out && Reports(r, w, a, b, now))
  }

  lemma DirectRowReports(w: Readings, a: int, b: int, now: int)
    ensures Reports(DirectRow(w, a, b, now - SETTLE_MARGIN), w, a, b, now)
    ensures Kept(w, a, b) <==> Charged(w, a, b)
  {
    SegmentEnergy(w, a, b);
  }

  /** A direct scan is an account of the readings alone. */
  lemma DirectScanReports(out: seq<SessionRow>, w: Readings, now: int)
    requires DirectScan(out, w, now - SETTLE_MARGIN)
    ensures ReportsCharges(out, w, now)
  {
    forall a, b
      ensures Reports(DirectRow(w, a, b, now - SETTLE_MARGIN), w, a, b, now) && (Kept(w, a, b) <==> Charged(w, a, b))
    {
      DirectRowReports(w, a, b, now);
    }
  }

  /** A session begun by t is still running at the cutoff. */
  ghost predicate RunningSince(w: Readings, t: int, cutoff: int) {
    exists a, b :: IsSession(w, a, b) && a <= t && b > cutoff
  }

  /** Covered time of the window is its time before the cutoff, up to the first session still running then. */
  ghost predicate CoversSettled(cov: Coverage, w: Readings, from: int, to: int, cutoff: int) {
    forall t :: from <= t < to ==> (Covered(cov, t) <==> t < cutoff && !RunningSince(w, t, cutoff))
  }

  /** Nothing behind the start of a running session is covered. */
  lemma RunningIsUncovered(all: Readings, seen: Readings, h: int, from: int, to: int, cov: Coverage, cutoff: int, t: int)
    requires View(all, seen, h) && EdgesClear(all, cov) && CoveredUpTo(cov, cutoff) && Covered(cov, t)
    ensures t < cutoff && !RunningSince(Window(seen, from, to), t, cutoff)
  {
    var w := Window(seen, from, to);
    var f :| f in cov && f <= t < cov[f];
    forall a, b | IsSession(w, a, b) && a <= t ensures b <= cutoff {
      ChainInWindow(all, seen, h, from, to, a, b);
      if b > cutoff { ChainSpans(all, a, cov[f], b); }
    }
  }

  /** What a scanned gap covers: all of it, or up to the first session still running at the cutoff. */
  ghost predicate Reached(cov: Coverage, gap: Interval, w: Readings, cutoff: int) {
    forall t :: gap.from <= t < gap.to && t < cutoff ==> Covered(cov, t) || RunningSince(w, t, cutoff)
  }

  ghost predicate Whole(cov: Coverage, gap: Interval) {
    forall t :: gap.from <= t < gap.to ==> Covered(cov, t)
  }

  lemma GapIsReached(all: Readings, seen: Readings, from: int, to: int, now: int, cov: Coverage,
                     gap: Interval, segs: seq<Detected>, before: Coverage, after: Coverage)
    requires ClearWindow(all, from, to, now) && Scan(all, seen, gap, segs, now)
    requires IsGap(cov, from, to, gap) && EdgesClear(all, cov) && CoveredUpTo(cov, now - SETTLE_MARGIN)
    requires gap.to > now - SETTLE_MARGIN && Extends(before, after, gap.from, CoveredTo(segs, gap, now))
    ensures Reached(after, gap, Window(seen, from, to), now - SETTLE_MARGIN)
  {
    var cutoff := now - SETTLE_MARGIN;
    var limit := Limit(segs, cutoff);
    forall t | gap.from <= t < gap.to && t < cutoff && CoveredTo(segs, gap, now) <= t
      ensures RunningSince(Window(seen, from, to), t, cutoff)
    {
      var d :| d in segs && d.Open(cutoff) && d.startedAt == limit;
      LiveIsDirect(all, seen, from, to, now, cov, gap, segs, d.startedAt, d.endedAt.value);
    }
  }

  /** Every session that starts in the window and had ended by the cutoff starts in covered time. */
  ghost predicate SettledCovered(all: Readings, cov: Coverage, from: int, to: int, cutoff: int) {
    forall a, b :: IsSession(all, a, b) && b <= cutoff && from <= a < to ==> Covered(cov, a)
  }

  /** The stored rows starting in [from, to] are the settled part of the direct scan. */
  lemma StoredIsDirect(all: Readings, seen: Readings, from: int, to: int, now: int, rows: Sessions, cov: Coverage, a: int)
    requires Inv(all, rows, cov, now - SETTLE_MARGIN) && ClearWindow(all, from, to, now) && View(all, seen, now - LATENESS)
    requires SettledCovered(all, cov, from, to, now - SETTLE_MARGIN)
    ensures a in rows && from <= a <= to ==>
              exists b :: Kept(Window(seen, from, to), a, b) && b <= now - SETTLE_MARGIN
                          && rows[a] == Record(Segment(Window(seen, from, to), a, b))
    ensures forall b :: Kept(Window(seen, from, to), a, b) && b <= now - SETTLE_MARGIN ==>
              a in rows && from <= a <= to && rows[a] == Record(Segment(Window(seen, from, to), a, b))
  {
    var w, cutoff := Window(seen, from, to), now - SETTLE_MARGIN;
    if a in rows && from <= a <= to {
      var b :| Kept(all, a, b) && rows[a] == Record(Segment(all, a, b));
      CoveredSessionsEnded(all, cov, cutoff, a, b);
      WindowIsStartKeyed(all, seen, now, from, to, a, b);
      WindowIsTrue(all, seen, now - LATENESS, from, to, a, b);
      assert Kept(w, a, b);
    }
    forall b | Kept(w, a, b) && b <= cutoff
      ensures a in rows && from <= a <= to && rows[a] == Record(Segment(w, a, b))
    {
      WindowIsStartKeyed(all, seen, now, from, to, a, b);
      WindowIsTrue(all, seen, now - LATENESS, from, to, a, b);
      assert Kept(all, a, b);
      var c :| Kept(all, a, c) && rows[a] == Record(Segment(all, a, c));
      SessionsMeet(all, a, b, a, c);
    }
  }

  /** Only a gap that reaches past the cutoff can hold sessions in progress, and it is the window's last one. */
  lemma LiveGapIsLast(cov: Coverage, from: int, to: int, cutoff: int, gap: Interval)
    requires IsGap(cov, from, to, gap) && CoveredUpTo(cov, cutoff) && gap.to > cutoff
    ensures gap.to == to
  {
  }

  /** The sessions of the last gap from coveredTo on are the unsettled part of the direct scan. */
  lemma LiveIsDirect(all: Readings, seen: Readings, from: int, to: int, now: int, cov: Coverage,
                     gap: Interval, segs: seq<Detected>, a: int, b: int)
    requires ClearWindow(all, from, to, now) && Scan(all, seen, gap, segs, now)
    requires IsGap(cov, from, to, gap) && EdgesClear(all, cov) && CoveredUpTo(cov, now - SETTLE_MARGIN)
    requires gap.to > now - SETTLE_MARGIN
    ensures (IsSession(Window(seen, gap.from, gap.to), a, b) && a >= CoveredTo(segs, gap, now))
              <==> (IsSession(Window(seen, from, to), a, b) && b > now - SETTLE_MARGIN)
    ensures a >= gap.from ==> Segment(Window(seen, gap.from, gap.to), a, b) == Segment(Window(seen, from, to), a, b)
  {
    var w, w0, cutoff := Window(seen, gap.from, gap.to), Window(seen, from, to), now - SETTLE_MARGIN;
    LiveGapIsLast(cov, from, to, cutoff, gap);
    SettlePartitions(segs, gap, now);
    if a >= gap.from { EnergyAgrees(w, w0, a, b); }
    if IsSession(w, a, b) && a >= CoveredTo(segs, gap, now) {
      LiveForward(all, seen, from, to, now, gap, segs, a, b);
    }
    if IsSession(w0, a, b) && b > cutoff {
      LiveBackward(all, seen, from, to, now, cov, gap, segs, a, b);
    }
  }

  lemma LiveForward(all: Readings, seen: Readings, from: int, to: int, now: int, gap: Interval, segs: seq<Detected>, a: int, b: int)
    requires Scan(all, seen, gap, segs, now) && from <= gap.from && gap.to == to
    requires IsSession(Window(seen, gap.from, to), a, b) && a >= CoveredTo(segs, gap, now)
    ensures IsSession(Window(seen, from, to), a, b) && b > now - SETTLE_MARGIN
  {
    var w, w0 := Window(seen, gap.from, to), Window(seen, from, to);
    forall x | a <= x < b ensures Continues(w0, x) { ContinuesIsMonotone(w, w0, x); }
    ChainInWindow(all, seen, now - LATENESS, gap.from, to, a, b);
    if t :| t in w0 && a - FOLD_GAP <= t < a && t !in w { NothingBeforeWindow(all, gap.from, t, a, b); }
    assert Continues(w0, b) ==> Continues(w, b);
    if b <= now - SETTLE_MARGIN {
      WindowIsTrue(all, seen, now - LATENESS, gap.from, to, a, b);
      SettledStartsEarly(all, seen, gap, segs, now, a, b);
    }
  }

  lemma LiveBackward(all: Readings, seen: Readings, from: int, to: int, now: int, cov: Coverage,
                     gap: Interval, segs: seq<Detected>, a: int, b: int)
    requires Scan(all, seen, gap, segs, now) && IsGap(cov, from, to, gap) && gap.to == to
    requires CoveredUpTo(cov, now - SETTLE_MARGIN) && gap.to > now - SETTLE_MARGIN
    requires IsSession(Window(seen, from, to), a, b) && b > now - SETTLE_MARGIN
    ensures IsSession(Window(seen, gap.from, to), a, b) && a >= CoveredTo(segs, gap, now)
  {
    var w, w0 := Window(seen, gap.from, to), Window(seen, from, to);
    ChainInWindow(all, seen, now - LATENESS, from, to, a, b);
    assert a >= gap.from by {
      if a < gap.from < b { ChainSpans(all, a, gap.from, b); }
    }
    forall x | a <= x < b ensures Continues(w, x) {
      assert Continues(w0, x);
      var t :| t in w0 && x < t <= x + FOLD_GAP;
      var u := if t <= b then t else b;
      assert u in w && x < u <= x + FOLD_GAP;
    }
    assert Continues(w, b) ==> Continues(w0, b);
    assert Continues(w, a - FOLD_GAP - 1) ==> Continues(w0, a - FOLD_GAP - 1);
    assert Segment(w, a, b) in segs;
  }

  /** With no gap past the cutoff, the direct scan has nothing in progress either. */
  lemma NothingLive(seen: Readings, from: int, to: int, cutoff: int, cov: Coverage, gaps: seq<Interval>, a: int, b: int)
    requires forall t :: Covers(gaps, t) <==> from <= t < to && !Covered(cov, t)
    requires forall i :: 0 <= i < |gaps| ==> gaps[i].to <= cutoff
    requires CoveredUpTo(cov, cutoff) && IsSession(Window(seen, from, to), a, b)
    ensures b <= cutoff
  {
    assert from <= b - 1 < to;
    if Covers(gaps, b - 1) {
      var i :| 0 <= i < |gaps| && Contains(gaps[i], b - 1);
    }
  }
}
