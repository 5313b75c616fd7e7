/** Why the side conditions of the ledger's runs are there: without any one of them, a session is lost for good. */
module LedgerHazards {
  import opened Wrappers
  import opened Intervals
  import opened ChargingDetection
  import opened Detector
  import opened RechargeSegments
  import opened LedgerTheory
  import opened LedgerRuns

  const CHARGE: Readings := map[0 := None, 600 := None]
  const CHARGE_ROW: Sessions := map[0 := Record(Segment(CHARGE, 0, 600))]

  lemma ChargeIsKept()
    ensures Kept(CHARGE, 0, 600)
    ensures forall a, b :: IsSession(CHARGE, a, b) <==> a == 0 && b == 600
  {
    forall x | 0 <= x < 600 ensures Continues(CHARGE, x) { assert 600 in CHARGE; }
    assert IsSession(CHARGE, 0, 600);
  }

  /** A query of any window around the charge reports it. */
  lemma ChargeDetected(from: int, to: int)
    requires from <= 0 && 600 <= to
    ensures Detects(Window(CHARGE, from, to), [Segment(CHARGE, 0, 600)])
  {
    ChargeIsKept();
    assert Window(CHARGE, from, to) == CHARGE;
    assert [Segment(CHARGE, 0, 600)][0] == Segment(CHARGE, 0, 600);
  }

  /** A session from 0 to 600, whatever its energy: too long to be noise. */
  ghost predicate IsCharge(d: Detected) {
    d.startedAt == 0 && d.endedAt == Some(600) && !d.ongoing
  }

  lemma SettledCharge(d: Detected, gap: Interval, now: int)
    requires IsCharge(d) && gap.from <= 0 && 600 <= now - SETTLE_MARGIN <= gap.to
    ensures CoveredTo([d], gap, now) == now - SETTLE_MARGIN
    ensures WithoutNoise(Final([d], gap, now)) == [d]
  {
    var cutoff := now - SETTLE_MARGIN;
    assert [d][..0] == [] && Limit([], cutoff) == cutoff;
    assert StartingBefore([], cutoff) == [] && WithoutNoise([]) == [];
  }

  lemma ChargeRecorded(d: Detected, gap: Interval, now: int)
    requires IsCharge(d) && gap.from <= 0 && 600 <= now - SETTLE_MARGIN <= gap.to
    ensures Recorded(map[], map[], map[0 := Record(d)], map[gap.from := now - SETTLE_MARGIN], gap, [d], now)
  {
    SettledCharge(d, gap, now);
    OneInsert(gap, [d], now, d);
  }

  lemma OneInsert(gap: Interval, segs: seq<Detected>, now: int, d: Detected)
    requires WithoutNoise(Final(segs, gap, now)) == [d] && gap.from < CoveredTo(segs, gap, now)
    ensures Recorded(map[], map[], map[d.startedAt := Record(d)], map[gap.from := CoveredTo(segs, gap, now)], gap, segs, now)
  {
    RangeCovers(gap.from, CoveredTo(segs, gap, now));
    assert [d][..0] == [];
    assert RowsOf([d]) == map[d.startedAt := Record(d)];
  }

  lemma OneRowIsExact(cov: Coverage)
    requires Covered(cov, 0)
    ensures Exact(CHARGE, CHARGE_ROW, cov)
  {
    ChargeIsKept();
  }

  lemma RangeCovers(from: int, to: int)
    ensures forall x :: Covered(map[from := to], x) <==> from <= x < to
  {
    assert from in map[from := to];
  }

  /** A gap of one chunk is fetched whole. */
  lemma OneChunk(seen: Readings, gap: Interval, segs: seq<Detected>)
    requires gap.from < gap.to <= gap.from + MAX_WINDOW && Detects(Window(seen, gap.from, gap.to), segs)
    ensures Chunked(seen, gap.from, gap.to, segs) && ChunksClear(seen, gap)
  {
    assert segs[..|segs|] == segs && segs[|segs|..] == [];
  }

  /** With nothing found, only the coverage grows. */
  lemma EmptyRecorded(rows: Sessions, cov: Coverage, cov': Coverage, gap: Interval, now: int)
    requires gap.from < gap.to <= now - SETTLE_MARGIN && Extends(cov, cov', gap.from, gap.to)
    ensures Recorded(rows, cov, Replace(rows, gap, []), cov', gap, [], now)
  {
  }

  lemma BothRangesMerge(from: int, mid: int, to: int)
    requires from < mid < to
    ensures Extends(map[mid := to], map[from := to], from, mid)
  {
    RangeCovers(mid, to);
    RangeCovers(from, to);
  }

  // ---- records out of order ----

  lemma LateRecord(cov: Coverage, early: Interval, now: int, segs: seq<Detected>)
    requires Tidy(cov) && segs == [Segment(CHARGE, 0, 600)] && early == Interval(-10000, 700) && now == 700
    requires forall x :: early.from <= x < now - SETTLE_MARGIN ==> Covered(cov, x)
    ensures Recorded(CHARGE_ROW, cov, Replace(CHARGE_ROW, early, WithoutNoise(Final(segs, early, now))), cov, early, segs, now)
    ensures CoveredTo(segs, early, now) == now - SETTLE_MARGIN
  {
    assert segs[..0] == [] && Limit(segs[..0], now - SETTLE_MARGIN) == now - SETTLE_MARGIN;
  }

  /** What the two recordings make of the tables. */
  lemma LateTables(early: Interval, late: Interval, segs: seq<Detected>) returns (cov: Coverage, rows': Sessions)
    requires early == Interval(-10000, 700) && late == Interval(-10000, 100000) && segs == [Segment(CHARGE, 0, 600)]
    ensures Chunked(CHARGE, early.from, early.to, segs) && ChunksClear(CHARGE, early)
    ensures Chunked(CHARGE, late.from, late.to, segs) && ChunksClear(CHARGE, late)
    ensures Recorded(map[], map[], CHARGE_ROW, cov, late, segs, 100000) && Exact(CHARGE, CHARGE_ROW, cov)
    ensures Recorded(CHARGE_ROW, cov, rows', cov, early, segs, 700) && !Exact(CHARGE, rows', cov)
  {
    ChargeIsKept();
    ChargeDetected(early.from, early.to);
    ChargeDetected(late.from, late.to);
    OneChunk(CHARGE, early, segs);
    OneChunk(CHARGE, late, segs);
    cov := map[-10000 := 100000 - SETTLE_MARGIN];
    rows' := Replace(CHARGE_ROW, early, WithoutNoise(Final(segs, early, 700)));
    ChargeRecorded(segs[0], late, 100000);
    RangeCovers(-10000, 100000 - SETTLE_MARGIN);
    OneRowIsExact(cov);
    LateRecord(cov, early, 700, segs);
    RecordedIsExactIff(CHARGE, CHARGE, early, segs, 700, CHARGE_ROW, cov, rows', cov);
    assert 0 in CHARGE_ROW && CoveredTo(segs, early, 700) <= 0 <= early.to;
  }

  /** Two requests ask before either records. */
  lemma Interleaved(early: Request, late: Request, gap: Interval, gap': Interval, segs: seq<Detected>,
                    rows: Sessions, cov: Coverage, rows': Sessions, cov': Coverage) returns (run: seq<State>)
    requires early.snapshot == map[] && late.snapshot == map[] && SETTLE_MARGIN <= late.now
    requires ClearWindow(CHARGE, early.from, early.to, early.now) && ClearWindow(CHARGE, late.from, late.to, late.now)
    requires IsGap(map[], late.from, late.to, gap) && Chunked(CHARGE, gap.from, gap.to, segs) && ChunksClear(CHARGE, gap)
    requires IsGap(map[], early.from, early.to, gap') && Chunked(CHARGE, gap'.from, gap'.to, segs)
    requires Recorded(map[], map[], rows, cov, gap, segs, late.now) && Recorded(rows, cov, rows', cov', gap', segs, early.now)
    ensures |run| == 5 && run[0] == State(map[], map[], 0, {})
    ensures Begins(CHARGE, run[0], run[1], early) && Begins(CHARGE, run[1], run[2], late)
    ensures Records(CHARGE, run[2], run[3], late, gap, CHARGE, segs) && run[3].rows == rows && run[3].cov == cov
    ensures RecordsGap(CHARGE, run[3], run[4], early, gap', CHARGE, segs) && run[4].rows == rows' && run[4].cov == cov'
  {
    run := [State(map[], map[], 0, {}), State(map[], map[], 0, {early}), State(map[], map[], 0, {early, late}),
            State(rows, cov, late.now - SETTLE_MARGIN, {early, late}),
            State(rows', cov', early.now - SETTLE_MARGIN, {early, late})];
  }

  lemma WholeWindowIsGap(from: int, to: int)
    requires from < to
    ensures IsGap(map[], from, to, Interval(from, to))
  {
  }

  lemma NothingCut(from: int, to: int, now: int)
    requires from < 0 && 600 < to
    ensures ClearWindow(CHARGE, from, to, now)
  {
    ChargeIsKept();
  }

  /**
   * Two requests scan the same charge; the one whose clock is older records last. It sees the charge as still
   * running, deletes the finished row, stores nothing, and the time stays marked scanned.
   */
  lemma LateRecordLosesSession() returns (run: seq<State>, early: Request, late: Request, gap: Interval, segs: seq<Detected>)
    ensures |run| == 5 && run[0] == State(map[], map[], 0, {})
    ensures Begins(CHARGE, run[0], run[1], early) && Begins(CHARGE, run[1], run[2], late) && early.now < late.now
    ensures Records(CHARGE, run[2], run[3], late, Interval(late.from, late.to), CHARGE, segs)
    ensures RecordsGap(CHARGE, run[3], run[4], early, gap, CHARGE, segs) && ChunksClear(CHARGE, gap)
    ensures Exact(CHARGE, run[3].rows, run[3].cov) && !Exact(CHARGE, run[4].rows, run[4].cov)
  {
    early, late := Request(-10000, 700, 700, map[]), Request(-10000, 100000, 100000, map[]);
    gap, segs := Interval(-10000, 700), [Segment(CHARGE, 0, 600)];
    var cov, rows' := LateTables(gap, Interval(-10000, 100000), segs);
    NothingCut(-10000, 700, 700);
    NothingCut(-10000, 100000, 100000);
    WholeWindowIsGap(-10000, 700);
    WholeWindowIsGap(-10000, 100000);
    run := Interleaved(early, late, Interval(-10000, 100000), gap, segs, CHARGE_ROW, cov, rows', cov);
  }

  // ---- a session at the edge of a window ----

  /** A second request asks after the first has recorded. */
  lemma OneAfterAnother(first: Request, second: Request, gap: Interval, gap': Interval, segs: seq<Detected>, segs': seq<Detected>,
                        rows: Sessions, cov: Coverage, rows': Sessions, cov': Coverage) returns (run: seq<State>)
    requires first.snapshot == map[] && second.snapshot == cov && SETTLE_MARGIN <= first.now <= second.now
    requires ClearWindow(CHARGE, second.from, second.to, second.now)
    requires IsGap(map[], first.from, first.to, gap) && Chunked(CHARGE, gap.from, gap.to, segs) && ChunksClear(CHARGE, gap)
    requires IsGap(cov, second.from, second.to, gap') && Chunked(CHARGE, gap'.from, gap'.to, segs') && ChunksClear(CHARGE, gap')
    requires Recorded(map[], map[], rows, cov, gap, segs, first.now) && Recorded(rows, cov, rows', cov', gap', segs', second.now)
    ensures |run| == 5 && run[0] == State(map[], map[], 0, {})
    ensures Asks(run[0], run[1], first)
    ensures Records(CHARGE, run[1], run[2], first, gap, CHARGE, segs) && run[2].rows == rows && run[2].cov == cov
    ensures Begins(CHARGE, run[2], run[3], second)
    ensures Records(CHARGE, run[3], run[4], second, gap', CHARGE, segs') && run[4].rows == rows' && run[4].cov == cov'
  {
    run := [State(map[], map[], 0, {}), State(map[], map[], 0, {first}),
            State(rows, cov, first.now - SETTLE_MARGIN, {first}), State(rows, cov, first.now - SETTLE_MARGIN, {first, second}),
            State(rows', cov', second.now - SETTLE_MARGIN, {first, second})];
  }

  lemma EdgeIsGap(cutoff: int)
    requires cutoff > 0
    ensures IsGap(map[0 := cutoff], -1000, 100000, Interval(-1000, 0))
  {
    RangeCovers(0, cutoff);
  }

  lemma EdgeScan(gap: Interval)
    requires gap == Interval(-1000, 0)
    ensures Scan(CHARGE, CHARGE, gap, [], 100000) && Chunked(CHARGE, gap.from, gap.to, []) && ChunksClear(CHARGE, gap)
  {
    ChargeIsKept();
    assert forall a, b :: !IsSession(Window(CHARGE, -1000, 0), a, b);
    OneChunk(CHARGE, gap, []);
  }

  /** Scanning the time before deletes the row of the charge. */
  lemma EdgeDelete(cov: Coverage, cov': Coverage, rows': Sessions, gap: Interval, now: int)
    requires Scan(CHARGE, CHARGE, gap, [], now) && Exact(CHARGE, CHARGE_ROW, cov)
    requires gap.to == 0 <= now - SETTLE_MARGIN && rows' == Replace(CHARGE_ROW, gap, []) && Extends(cov, cov', gap.from, 0)
    ensures Recorded(CHARGE_ROW, cov, rows', cov', gap, [], now) && !Exact(CHARGE, rows', cov')
  {
    EmptyRecorded(CHARGE_ROW, cov, cov', gap, now);
    RecordedIsExactIff(CHARGE, CHARGE, gap, [], now, CHARGE_ROW, cov, rows', cov');
    assert 0 in CHARGE_ROW && CoveredTo([], gap, now) <= 0 <= gap.to;
  }

  lemma EdgeTables(first: Interval, gap: Interval, segs: seq<Detected>) returns (cov: Coverage, rows': Sessions, cov': Coverage)
    requires first == Interval(0, 100000) && gap == Interval(-1000, 0) && segs == [Segment(CHARGE, 0, 600)]
    ensures Chunked(CHARGE, first.from, first.to, segs) && ChunksClear(CHARGE, first)
    ensures Chunked(CHARGE, gap.from, gap.to, []) && ChunksClear(CHARGE, gap)
    ensures Recorded(map[], map[], CHARGE_ROW, cov, first, segs, 100000) && Exact(CHARGE, CHARGE_ROW, cov)
    ensures Recorded(CHARGE_ROW, cov, rows', cov', gap, [], 100000) && !Exact(CHARGE, rows', cov')
    ensures IsGap(cov, -1000, 100000, gap)
  {
    ghost var cutoff := 100000 - SETTLE_MARGIN;
    cov, cov', rows' := map[0 := cutoff], map[-1000 := cutoff], Replace(CHARGE_ROW, gap, []);
    EdgeIsGap(cutoff);
    ChargeDetected(0, 100000);
    OneChunk(CHARGE, first, segs);
    ChargeRecorded(segs[0], first, 100000);
    RangeCovers(0, cutoff);
    OneRowIsExact(cov);
    EdgeScan(gap);
    BothRangesMerge(-1000, 0, cutoff);
    EdgeDelete(cov, cov', rows', gap, 100000);
  }

  /**
   * A charge starts exactly where a requested window starts. A later request for a longer window scans the time
   * before it, which deletes the charge's row, because the delete includes the end of the gap, and a query of the gap
   * does not report it.
   */
  lemma StartAtEdgeLosesSession() returns (run: seq<State>, first: Request, second: Request, gap: Interval, segs: seq<Detected>)
    ensures |run| == 5 && run[0] == State(map[], map[], 0, {})
    ensures Asks(run[0], run[1], first) && Records(CHARGE, run[1], run[2], first, Interval(first.from, first.to), CHARGE, segs)
    ensures Begins(CHARGE, run[2], run[3], second) && Records(CHARGE, run[3], run[4], second, gap, CHARGE, [])
    ensures gap.to == first.from && StartsAt(CHARGE, gap.to)
    ensures Exact(CHARGE, run[2].rows, run[2].cov) && !Exact(CHARGE, run[4].rows, run[4].cov)
  {
    ghost var now := 100000;
    gap, segs := Interval(-1000, 0), [Segment(CHARGE, 0, 600)];
    var cov, rows', cov' := EdgeTables(Interval(0, now), gap, segs);
    first, second := Request(0, now, now, map[]), Request(-1000, now, now, cov);
    ChargeIsKept();
    NothingCut(-1000, now, now);
    WholeWindowIsGap(0, now);
    run := OneAfterAnother(first, second, Interval(0, now), gap, segs, [], CHARGE_ROW, cov, rows', cov');
  }

  // ---- a session across a chunk boundary ----

  const LONG: Readings := map[MAX_WINDOW - 600 := None, MAX_WINDOW + 600 := None]

  lemma LongIsKept()
    ensures Kept(LONG, MAX_WINDOW - 600, MAX_WINDOW + 600)
    ensures forall a, b :: IsSession(LONG, a, b) <==> a == MAX_WINDOW - 600 && b == MAX_WINDOW + 600
  {
    forall x | MAX_WINDOW - 600 <= x < MAX_WINDOW + 600 ensures Continues(LONG, x) { assert MAX_WINDOW + 600 in LONG; }
    assert IsSession(LONG, MAX_WINDOW - 600, MAX_WINDOW + 600);
  }

  /** Neither chunk of the window holds two of the readings, so the fetch returns nothing at all. */
  lemma LongIsCut()
    ensures Chunked(LONG, 0, 2 * MAX_WINDOW, [])
  {
    var none: seq<Detected> := [];
    assert Detects(Window(LONG, 0, MAX_WINDOW), none);
    assert Detects(Window(LONG, MAX_WINDOW, 2 * MAX_WINDOW), none);
    assert none[..0] == none && none[0..] == none;
    assert Chunked(LONG, 2 * MAX_WINDOW, 2 * MAX_WINDOW, none);
    assert Chunked(LONG, MAX_WINDOW, 2 * MAX_WINDOW, none[0..]);
  }

  /** A request for two months, fetched in two chunks: the charge across the boundary is never stored. */
  lemma LongGapLosesSession() returns (run: seq<State>, r: Request, gap: Interval)
    ensures |run| == 3 && run[0] == State(map[], map[], run[0].cutoff, {})
    ensures Begins(LONG, run[0], run[1], r) && run[1].cutoff <= r.now - SETTLE_MARGIN
    ensures RecordsGap(LONG, run[1], run[2], r, gap, LONG, []) && !Exact(LONG, run[2].rows, run[2].cov)
  {
    ghost var now, cov := 3 * MAX_WINDOW, map[0 := 2 * MAX_WINDOW];
    r, gap := Request(0, 2 * MAX_WINDOW, now, map[]), Interval(0, 2 * MAX_WINDOW);
    LongIsKept();
    LongIsCut();
    RangeCovers(0, 2 * MAX_WINDOW);
    EmptyRecorded(map[], map[], cov, gap, now);
    assert Replace(map[], gap, []) == map[];
    assert StartsAt(LONG, MAX_WINDOW - 600) && Covered(cov, MAX_WINDOW - 600);
    run := [State(map[], map[], 0, {}), State(map[], map[], 0, {r}), State(map[], cov, now - SETTLE_MARGIN, {r})];
  }
}
