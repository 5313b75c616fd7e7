/**
 Every run of concurrent requests against one vehicle's tables. A request takes its gaps from the coverage it reads
 first; its gaps are then recorded one at a time, each atomically, between those of other requests.
 */
module LedgerRuns {
  import opened Intervals
  import opened ChargingDetection
  import opened Detector
  import opened Charges
  import opened RechargeSegments
  import opened LedgerTheory

  /** A request with the coverage it computed its gaps from. */
  datatype Request = Request(from: int, to: int, now: int, snapshot: Coverage)

  /** cutoff is the latest one a gap was recorded with. */
  datatype State = State(rows: Sessions, cov: Coverage, cutoff: int, open: set<Request>)

  /** The window's edges cut no session and start none; a recent end needs no such promise. */
  ghost predicate ClearWindow(all: Readings, from: int, to: int, now: int) {
    && !Spanned(all, from) && !StartsAt(all, from)
    && (to >= now - LATENESS || (!Spanned(all, to) && !StartsAt(all, to)))
  }

  /** A maximal uncovered range of the window. */
  ghost predicate IsGap(cov: Coverage, from: int, to: int, gap: Interval) {
    && from <= gap.from < gap.to <= to
    && (forall t :: gap.from <= t < gap.to ==> !Covered(cov, t))
    && (gap.from == from || Covered(cov, gap.from - 1))
    && (gap.to == to || Covered(cov, gap.to))
  }

  ghost predicate Asks(s: State, s': State, r: Request) {
    r.snapshot == s.cov && s' == s.(open := s.open + {r})
  }

  ghost predicate Begins(all: Readings, s: State, s': State, r: Request) {
    ClearWindow(all, r.from, r.to, r.now) && Asks(s, s', r)
  }

  /** One of the request's gaps is fetched and recorded, whatever has been recorded before. */
  ghost predicate RecordsGap(all: Readings, s: State, s': State, r: Request, gap: Interval, seen: Readings, segs: seq<Detected>) {
    && r in s.open && IsGap(r.snapshot, r.from, r.to, gap)
    && View(all, seen, r.now - LATENESS) && Chunked(seen, gap.from, gap.to, segs)
    && Recorded(s.rows, s.cov, s'.rows, s'.cov, gap, segs, r.now)
    && s'.cutoff == r.now - SETTLE_MARGIN && s'.open == s.open
  }

  /** No session is under way where the gap's fetch is divided into chunks. */
  ghost predicate ChunksClear(seen: Readings, gap: Interval) {
    ChunksCutNone(Window(seen, gap.from, gap.to), gap.from, gap.to)
  }

  /** A gap of one chunk needs no promise. */
  lemma ShortGapIsClear(seen: Readings, gap: Interval)
    requires gap.to <= gap.from + MAX_WINDOW
    ensures ChunksClear(seen, gap)
  {
  }

  /**
   A step of a run records in the order of the requests' clocks, no gap with an older cutoff than an earlier one, and
   a gap of more than one chunk only where the chunks cut no session.
   */
  ghost predicate Records(all: Readings, s: State, s': State, r: Request, gap: Interval, seen: Readings, segs: seq<Detected>) {
    s.cutoff <= r.now - SETTLE_MARGIN && ChunksClear(seen, gap) && RecordsGap(all, s, s', r, gap, seen, segs)
  }

  ghost predicate Ends(s: State, s': State, r: Request) {
    s' == s.(open := s.open - {r})
  }

  ghost predicate Step(all: Readings, s: State, s': State) {
    || (exists r :: Begins(all, s, s', r))
    || (exists r, gap, seen, segs :: Records(all, s, s', r, gap, seen, segs))
    || (exists r :: Ends(s, s', r))
  }

  ghost predicate IsRun(all: Readings, run: seq<State>) {
    && run != [] && run[0].rows == map[] && run[0].cov == map[] && run[0].open == {}
    && forall i :: 0 <= i < |run| - 1 ==> Step(all, run[i], run[i + 1])
  }

  ghost predicate SubCoverage(a: Coverage, b: Coverage) {
    forall t :: Covered(a, t) ==> Covered(b, t)
  }

  ghost predicate StateInv(all: Readings, s: State) {
    && Inv(all, s.rows, s.cov, s.cutoff)
    && forall r :: r in s.open ==> ClearWindow(all, r.from, r.to, r.now) && Tidy(r.snapshot)
                                   && EdgesClear(all, r.snapshot) && SubCoverage(r.snapshot, s.cov)
  }

  lemma RangeAt(cov: Coverage, t: int)
    ensures Covered(cov, t) && !Covered(cov, t - 1) ==> t in cov
    ensures Covered(cov, t - 1) && !Covered(cov, t) ==> exists f :: f in cov && cov[f] == t
  {
    if Covered(cov, t) && !Covered(cov, t - 1) {
      var f :| f in cov && f <= t < cov[f];
      assert f < t ==> Covered(cov, t - 1);
    }
    if Covered(cov, t - 1) && !Covered(cov, t) {
      var f :| f in cov && f <= t - 1 < cov[f];
      assert t < cov[f] ==> Covered(cov, t);
    }
  }

  /** The edges of a gap are clear, because coverage only ever starts and stops where no session is cut. */
  lemma GapEdgesClear(all: Readings, snapshot: Coverage, from: int, to: int, now: int, gap: Interval)
    requires ClearWindow(all, from, to, now) && EdgesClear(all, snapshot) && IsGap(snapshot, from, to, gap)
    ensures !Spanned(all, gap.from) && EndsClear(all, gap.to, now - LATENESS)
    ensures Covered(snapshot, gap.from - 1) || !StartsAt(all, gap.from)
    ensures gap.to > now - SETTLE_MARGIN || !StartsAt(all, gap.to)
  {
    RangeAt(snapshot, gap.from);
    RangeAt(snapshot, gap.to);
    assert !Covered(snapshot, gap.from) && !Covered(snapshot, gap.to - 1);
  }

  /** What a gap's chunks return is a scan of the whole gap. */
  lemma FetchIsScan(all: Readings, r: Request, gap: Interval, seen: Readings, segs: seq<Detected>)
    requires ClearWindow(all, r.from, r.to, r.now) && EdgesClear(all, r.snapshot) && IsGap(r.snapshot, r.from, r.to, gap)
    requires View(all, seen, r.now - LATENESS) && Chunked(seen, gap.from, gap.to, segs) && ChunksClear(seen, gap)
    ensures Scan(all, seen, gap, segs, r.now)
  {
    ChunkedIsWhole(seen, gap.from, gap.to, segs);
    GapEdgesClear(all, r.snapshot, r.from, r.to, r.now, gap);
  }

  lemma RecordsKeepsInv(all: Readings, s: State, s': State, r: Request, gap: Interval, seen: Readings, segs: seq<Detected>)
    requires StateInv(all, s) && Records(all, s, s', r, gap, seen, segs)
    ensures Inv(all, s'.rows, s'.cov, s'.cutoff)
  {
    FetchIsScan(all, r, gap, seen, segs);
    GapEdgesClear(all, r.snapshot, r.from, r.to, r.now, gap);
    RecordKeepsInv(all, seen, gap, segs, r.now, s.rows, s.cov, s'.rows, s'.cov, s.cutoff);
  }

  lemma StepKeepsInv(all: Readings, s: State, s': State)
    requires StateInv(all, s) && Step(all, s, s')
    ensures StateInv(all, s')
  {
    if r, gap, seen, segs :| Records(all, s, s', r, gap, seen, segs) {
      RecordsKeepsInv(all, s, s', r, gap, seen, segs);
    }
  }

  /**
   * Along every run the stored sessions are exactly the non-noise sessions that start in covered time, each once
   * and in its final form, and nothing after the latest cutoff is covered.
   */
  lemma {:induction false} RunsAreSafe(all: Readings, run: seq<State>, i: nat)
    requires IsRun(all, run) && i < |run|
    ensures Inv(all, run[i].rows, run[i].cov, run[i].cutoff)
    ensures StateInv(all, run[i])
  {
    if i > 0 {
      RunsAreSafe(all, run, i - 1);
      StepKeepsInv(all, run[i - 1], run[i]);
    } else {
      assert forall t :: !Covered(run[0].cov, t);
    }
  }

  /** The same from the readings alone, without a word on how sessions are judged or stored. */
  lemma RunsStoreCharges(all: Readings, run: seq<State>, i: nat)
    requires IsRun(all, run) && i < |run|
    ensures StoresCharges(all, run[i].rows, run[i].cov)
    ensures forall t :: Covered(run[i].cov, t) ==> t < run[i].cutoff
  {
    RunsAreSafe(all, run, i);
    ExactStoresCharges(all, run[i].rows, run[i].cov);
  }
}
