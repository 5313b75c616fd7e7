/**
 What the stored passes of one geofence and vehicle show of the samples seen, and what replacing the passes of
 scanned windows does to it.
 */
module PassEvidence {
  import opened Wrappers
  import opened Intervals
  import opened LedgerTheory
  import opened LedgerRuns
  import opened Polygon
  import opened Passes

  type PassRows = map<int, Pass>

  ghost function Points(cov: Coverage): iset<int> {
    iset t | Covered(cov, t)
  }

  ghost function PointsOf(iv: Interval): iset<int> {
    iset t | Contains(iv, t)
  }

  ghost predicate ProperRows(cov: Coverage) {
    forall f :: f in cov ==> f < cov[f]
  }

  /** The answer to a sample query of [from, to]: in time order, inside the window. */
  ghost predicate SamplesIn(samples: seq<Sample>, from: int, to: int) {
    && (forall i, j :: 0 <= i < j < |samples| ==> samples[i].time < samples[j].time)
    && (forall i :: 0 <= i < |samples| ==> from <= samples[i].time <= to)
  }

  function RowsOfPasses(passes: seq<Pass>): PassRows {
    if passes == [] then map[]
    else RowsOfPasses(passes[..|passes| - 1])[passes[|passes| - 1].enteredAt := passes[|passes| - 1]]
  }

  /** The delete covers both ends of the window; the fresh passes go in. */
  function ReplacePasses(rows: PassRows, from: int, to: int, passes: seq<Pass>): PassRows {
    (map e | e in rows && !(from <= e <= to) :: rows[e]) + RowsOfPasses(passes)
  }

  /** A stored pass shows the vehicle inside at t, and the time since it entered is all in pts. */
  ghost predicate Shown(rows: PassRows, t: int, pts: iset<int>) {
    exists e :: e in rows && e <= t <= rows[e].exitedAt && forall x :: e <= x <= t ==> x in pts
  }

  /** Every inside sample last seen at a time of pts is shown by a stored pass. */
  ghost predicate Evidence(rows: PassRows, seen: set<Sample>, rings: Rings, pts: iset<int>) {
    forall s :: s in seen && Inside(s, rings) && s.time in pts ==> Shown(rows, s.time, pts)
  }

  /** What has been seen after a scan of the window: inside it, the new samples take the place of older ones. */
  ghost function Reseen(seen: set<Sample>, samples: seq<Sample>, from: int, to: int): set<Sample> {
    (set s | s in seen && !(from <= s.time < to)) + (set s | s in samples && from <= s.time < to)
  }

  ghost predicate GapPoints(pts: iset<int>, pts': iset<int>, gap: Interval) {
    forall t :: t in pts' <==> t in pts || Contains(gap, t)
  }

  // ---- passes of a window ----

  ghost predicate EnteredInOrder(passes: seq<Pass>) {
    forall i, j :: 0 <= i < j < |passes| ==> passes[i].enteredAt < passes[j].enteredAt
  }

  lemma {:induction false} RowsOfPassesMembers(passes: seq<Pass>)
    requires EnteredInOrder(passes)
    ensures forall p :: p in passes ==> p.enteredAt in RowsOfPasses(passes) && RowsOfPasses(passes)[p.enteredAt] == p
    ensures forall e :: e in RowsOfPasses(passes) ==> exists p :: p in passes && p.enteredAt == e
  {
    if passes != [] {
      var init, last := passes[..|passes| - 1], passes[|passes| - 1];
      RowsOfPassesMembers(init);
      assert passes == init + [last];
      forall p | p in init ensures p.enteredAt < last.enteredAt { }
      forall e | e in RowsOfPasses(passes) ensures exists p :: p in passes && p.enteredAt == e {
        if e in RowsOfPasses(init) { var p :| p in init && p.enteredAt == e; assert p in passes; }
      }
    }
  }

  /** passes[r] enters and exits with the samples at the ends of runs[r]. */
  ghost predicate RunTimes(samples: seq<Sample>, passes: seq<Pass>, runs: seq<Span>) {
    && |runs| == |passes|
    && (forall r :: 0 <= r < |runs| ==> runs[r].first < runs[r].end <= |samples|)
    && (forall r :: 0 <= r < |runs| ==> passes[r].enteredAt == samples[runs[r].first].time
                                        && passes[r].exitedAt == samples[runs[r].end - 1].time)
    && (forall r, q :: 0 <= r < q < |runs| ==> runs[r].end < runs[q].first)
  }

  lemma RunTimesOf(samples: seq<Sample>, rings: Rings) returns (runs: seq<Span>)
    ensures RunTimes(samples, PassesOf(samples, rings), runs)
    ensures forall r :: 0 <= r < |runs| ==> Inside(samples[runs[r].first], rings) && Inside(samples[runs[r].end - 1], rings)
    ensures forall k :: 0 <= k < |samples| && Inside(samples[k], rings) ==> InSomeRun(runs, k)
  {
    runs := PassesAreMaximalRuns(samples, rings);
    forall r | 0 <= r < |runs|
      ensures runs[r].first < runs[r].end <= |samples|
      ensures PassesOf(samples, rings)[r].enteredAt == samples[runs[r].first].time
      ensures PassesOf(samples, rings)[r].exitedAt == samples[runs[r].end - 1].time
      ensures Inside(samples[runs[r].first], rings) && Inside(samples[runs[r].end - 1], rings)
    {
      RunTimesAt(samples, rings, PassesOf(samples, rings), runs, r);
    }
  }

  lemma RunTimesAt(samples: seq<Sample>, rings: Rings, passes: seq<Pass>, runs: seq<Span>, r: nat)
    requires RunsMatch(samples, rings, passes, runs) && r < |runs|
    ensures runs[r].first < runs[r].end <= |samples|
    ensures passes[r].enteredAt == samples[runs[r].first].time && passes[r].exitedAt == samples[runs[r].end - 1].time
  {
    var run := samples[runs[r].first..runs[r].end];
    assert Summarizes(passes[r], run);
    assert run[0] == samples[runs[r].first] && run[|run| - 1] == samples[runs[r].end - 1];
  }

  /** A sample of the list is inside at t. */
  ghost predicate InsideAt(samples: seq<Sample>, rings: Rings, t: int) {
    exists s :: s in samples && Inside(s, rings) && s.time == t
  }

  /** A pass of the list is under way at t. */
  ghost predicate PassAt(passes: seq<Pass>, t: int) {
    exists i :: 0 <= i < |passes| && passes[i].enteredAt <= t <= passes[i].exitedAt
  }

  lemma RunsEnterInOrder(samples: seq<Sample>, passes: seq<Pass>, runs: seq<Span>, from: int, to: int)
    requires SamplesIn(samples, from, to) && RunTimes(samples, passes, runs)
    ensures EnteredInOrder(passes) && forall p :: p in passes ==> from <= p.enteredAt <= to
  {
    forall p | p in passes ensures from <= p.enteredAt <= to {
      var r :| 0 <= r < |passes| && passes[r] == p;
    }
  }

  lemma RunsEndInside(samples: seq<Sample>, rings: Rings, passes: seq<Pass>, runs: seq<Span>)
    requires RunTimes(samples, passes, runs)
    requires forall r :: 0 <= r < |runs| ==> Inside(samples[runs[r].first], rings) && Inside(samples[runs[r].end - 1], rings)
    ensures forall p :: p in passes ==> InsideAt(samples, rings, p.enteredAt) && InsideAt(samples, rings, p.exitedAt)
  {
    forall p | p in passes ensures InsideAt(samples, rings, p.enteredAt) && InsideAt(samples, rings, p.exitedAt) {
      var r :| 0 <= r < |runs| && passes[r] == p;
      assert samples[runs[r].first] in samples && samples[runs[r].end - 1] in samples;
    }
  }

  /**
   The passes of a window's samples enter in order, inside the window; they enter and exit at inside samples, and every
   inside sample is in one.
   */
  lemma WindowPasses(samples: seq<Sample>, rings: Rings, from: int, to: int)
    requires SamplesIn(samples, from, to)
    ensures EnteredInOrder(PassesOf(samples, rings))
    ensures forall p :: p in PassesOf(samples, rings) ==> from <= p.enteredAt <= to
    ensures forall s :: s in samples && Inside(s, rings) ==> PassAt(PassesOf(samples, rings), s.time)
    ensures forall p :: p in PassesOf(samples, rings) ==> InsideAt(samples, rings, p.enteredAt) && InsideAt(samples, rings, p.exitedAt)
  {
    var runs := RunTimesOf(samples, rings);
    RunsEnterInOrder(samples, PassesOf(samples, rings), runs, from, to);
    RunsEndInside(samples, rings, PassesOf(samples, rings), runs);
    RunsCover(samples, rings, PassesOf(samples, rings), runs);
  }

  lemma RunsCover(samples: seq<Sample>, rings: Rings, passes: seq<Pass>, runs: seq<Span>)
    requires RunTimes(samples, passes, runs) && forall i, j :: 0 <= i < j < |samples| ==> samples[i].time < samples[j].time
    requires forall k :: 0 <= k < |samples| && Inside(samples[k], rings) ==> InSomeRun(runs, k)
    ensures forall s :: s in samples && Inside(s, rings) ==> PassAt(passes, s.time)
  {
    forall s | s in samples && Inside(s, rings) ensures PassAt(passes, s.time) {
      var k :| 0 <= k < |samples| && samples[k] == s;
      var r :| 0 <= r < |runs| && runs[r].first <= k < runs[r].end;
      PassAround(samples, passes, runs, r, k);
    }
  }

  lemma PassAround(samples: seq<Sample>, passes: seq<Pass>, runs: seq<Span>, r: nat, k: nat)
    requires RunTimes(samples, passes, runs) && r < |runs| && runs[r].first <= k < runs[r].end
    requires forall i, j :: 0 <= i < j < |samples| ==> samples[i].time < samples[j].time
    ensures passes[r].enteredAt <= samples[k].time <= passes[r].exitedAt
  {
  }

  ghost predicate InClosed(gap: Interval, e: int) {
    gap.from <= e <= gap.to
  }

  /** passes enter in order and inside the gap. */
  ghost predicate PassesIn(passes: seq<Pass>, gap: Interval) {
    EnteredInOrder(passes) && forall p :: p in passes ==> gap.from <= p.enteredAt <= gap.to
  }

  ghost predicate SameAt(a: PassRows, b: PassRows, e: int) {
    (e in a <==> e in b) && (e in a ==> a[e] == b[e])
  }

  lemma ReplaceAt(rows: PassRows, passes: seq<Pass>, gap: Interval, e: int)
    requires PassesIn(passes, gap)
    ensures SameAt(ReplacePasses(rows, gap.from, gap.to, passes), if InClosed(gap, e) then RowsOfPasses(passes) else rows, e)
  {
    RowsOfPassesMembers(passes);
  }

  /** A complete repeat of a scan changes nothing. */
  lemma PersistIsIdempotent(rows: PassRows, samples: seq<Sample>, rings: Rings, from: int, to: int)
    requires SamplesIn(samples, from, to)
    ensures var passes := PassesOf(samples, rings);
            ReplacePasses(ReplacePasses(rows, from, to, passes), from, to, passes) == ReplacePasses(rows, from, to, passes)
  {
    WindowPasses(samples, rings, from, to);
    ReplaceTwice(rows, PassesOf(samples, rings), Interval(from, to));
  }

  lemma ReplaceTwice(rows: PassRows, passes: seq<Pass>, gap: Interval)
    requires PassesIn(passes, gap)
    ensures var once := ReplacePasses(rows, gap.from, gap.to, passes);
            ReplacePasses(once, gap.from, gap.to, passes) == once
  {
    var once := ReplacePasses(rows, gap.from, gap.to, passes);
    var twice := ReplacePasses(once, gap.from, gap.to, passes);
    forall e ensures SameAt(twice, once, e) {
      ReplaceAt(rows, passes, gap, e);
      ReplaceAt(once, passes, gap, e);
    }
    forall e ensures e in twice <==> e in once { assert SameAt(twice, once, e); }
    forall e | e in once ensures twice[e] == once[e] { assert SameAt(twice, once, e); }
  }

  // ---- where passes come from ----

  /** Every stored pass entered at a sample of the basis that was inside. */
  ghost predicate Grounded(rows: PassRows, basis: set<Sample>, rings: Rings) {
    forall e :: e in rows ==> exists s :: s in basis && Inside(s, rings) && s.time == e
  }

  /** In the closed window an answer takes the place of older ones, as its passes take the place of older passes. */
  ghost function Rebased(basis: set<Sample>, samples: seq<Sample>, from: int, to: int): set<Sample> {
    (set s | s in basis && !(from <= s.time <= to)) + (set s | s in samples)
  }

  /** However many of the window's passes got stored, none is made up. */
  lemma PersistGrounds(rows: PassRows, basis: set<Sample>, samples: seq<Sample>, rings: Rings, from: int, to: int, k: nat)
    requires Grounded(rows, basis, rings) && SamplesIn(samples, from, to) && k <= |PassesOf(samples, rings)|
    ensures Grounded(ReplacePasses(rows, from, to, PassesOf(samples, rings)[..k]), Rebased(basis, samples, from, to), rings)
  {
    var part := PassesOf(samples, rings)[..k];
    WindowPasses(samples, rings, from, to);
    RowsOfPassesMembers(part);
    forall e | e in ReplacePasses(rows, from, to, part)
      ensures exists s :: s in Rebased(basis, samples, from, to) && Inside(s, rings) && s.time == e
    {
      if e in RowsOfPasses(part) {
        var p :| p in part && p.enteredAt == e;
        assert InsideAt(samples, rings, p.enteredAt);
        var s :| s in samples && Inside(s, rings) && s.time == e;
        assert s in Rebased(basis, samples, from, to);
      } else {
        var s :| s in basis && Inside(s, rings) && s.time == e;
        assert s in Rebased(basis, samples, from, to);
      }
    }
  }

  // ---- a list of windows, scanned one after the other ----

  ghost predicate Answered(gaps: seq<Interval>, answers: seq<seq<Sample>>) {
    |answers| == |gaps| && forall j :: 0 <= j < |gaps| ==> SamplesIn(answers[j], gaps[j].from, gaps[j].to)
  }

  /** The passes found in each window's answer. */
  ghost function Found(rings: Rings, answers: seq<seq<Sample>>): seq<seq<Pass>> {
    seq(|answers|, j requires 0 <= j < |answers| => PassesOf(answers[j], rings))
  }

  ghost predicate FoundIn(gaps: seq<Interval>, found: seq<seq<Pass>>) {
    |found| == |gaps| && forall j :: 0 <= j < |gaps| ==> PassesIn(found[j], gaps[j])
  }

  ghost function ReplaceAll(rows: PassRows, gaps: seq<Interval>, found: seq<seq<Pass>>, n: nat): PassRows
    requires n <= |gaps| && |found| == |gaps|
  {
    if n == 0 then rows
    else ReplacePasses(ReplaceAll(rows, gaps, found, n - 1), gaps[n - 1].from, gaps[n - 1].to, found[n - 1])
  }

  ghost function ReseenAll(seen: set<Sample>, gaps: seq<Interval>, answers: seq<seq<Sample>>, n: nat): set<Sample>
    requires n <= |gaps| && |answers| == |gaps|
  {
    if n == 0 then seen
    else Reseen(ReseenAll(seen, gaps, answers, n - 1), answers[n - 1], gaps[n - 1].from, gaps[n - 1].to)
  }

  /** The stored passes that entered in none of the closed windows. */
  ghost function Outside(rows: PassRows, gaps: seq<Interval>): PassRows {
    map e | e in rows && (forall j :: 0 <= j < |gaps| ==> !InClosed(gaps[j], e)) :: rows[e]
  }

  lemma FoundFits(rings: Rings, gaps: seq<Interval>, answers: seq<seq<Sample>>)
    requires Answered(gaps, answers)
    ensures FoundIn(gaps, Found(rings, answers))
  {
    forall j | 0 <= j < |gaps| ensures PassesIn(Found(rings, answers)[j], gaps[j]) {
      WindowPasses(answers[j], rings, gaps[j].from, gaps[j].to);
    }
  }

  lemma PassAtInside(samples: seq<Sample>, rings: Rings, gap: Interval, t: int)
    requires SamplesIn(samples, gap.from, gap.to) && InsideAt(samples, rings, t)
    ensures PassAt(PassesOf(samples, rings), t)
  {
    WindowPasses(samples, rings, gap.from, gap.to);
  }

  /** At e: as before where no closed window reaches, and the new passes' row where one does. */
  ghost predicate ReplacedAt(after: PassRows, rows: PassRows, gaps: seq<Interval>, found: seq<seq<Pass>>, n: nat, e: int)
    requires n <= |gaps| && |found| == |gaps|
  {
    && ((forall j :: 0 <= j < n ==> !InClosed(gaps[j], e)) ==> SameAt(after, rows, e))
    && (forall j :: 0 <= j < n && InClosed(gaps[j], e) ==> SameAt(after, RowsOfPasses(found[j]), e))
  }

  lemma ReplacedStep(before: PassRows, after: PassRows, rows: PassRows, gaps: seq<Interval>, found: seq<seq<Pass>>, n: nat, e: int)
    requires Canonical(gaps) && FoundIn(gaps, found) && 0 < n <= |gaps| && ReplacedAt(before, rows, gaps, found, n - 1, e)
    requires after == ReplacePasses(before, gaps[n - 1].from, gaps[n - 1].to, found[n - 1])
    ensures ReplacedAt(after, rows, gaps, found, n, e)
  {
    ReplaceAt(before, found[n - 1], gaps[n - 1], e);
    forall j | 0 <= j < n - 1 ensures gaps[j].to < gaps[n - 1].from { }
  }

  lemma {:induction false} ReplaceAllAt(rows: PassRows, gaps: seq<Interval>, found: seq<seq<Pass>>, n: nat, e: int)
    requires Canonical(gaps) && FoundIn(gaps, found) && n <= |gaps|
    ensures ReplacedAt(ReplaceAll(rows, gaps, found, n), rows, gaps, found, n, e)
  {
    var after := ReplaceAll(rows, gaps, found, n);
    if n > 0 {
      ReplaceAllAt(rows, gaps, found, n - 1, e);
      ReplacedStep(ReplaceAll(rows, gaps, found, n - 1), after, rows, gaps, found, n, e);
    }
  }

  lemma {:induction false} ReseenAllAt(seen: set<Sample>, gaps: seq<Interval>, answers: seq<seq<Sample>>, n: nat, s: Sample)
    requires Canonical(gaps) && Answered(gaps, answers) && n <= |gaps|
    ensures (forall j :: 0 <= j < n ==> !Contains(gaps[j], s.time)) ==> (s in ReseenAll(seen, gaps, answers, n) <==> s in seen)
    ensures forall j :: 0 <= j < n && Contains(gaps[j], s.time) ==> (s in ReseenAll(seen, gaps, answers, n) <==> s in answers[j])
  {
    if n > 0 {
      ReseenAllAt(seen, gaps, answers, n - 1, s);
      assert forall j :: 0 <= j < n - 1 ==> gaps[j].to < gaps[n - 1].from;
    }
  }

  /** A new answer has an inside sample exactly at the end of its window. */
  ghost predicate EndAnswered(gaps: seq<Interval>, answers: seq<seq<Sample>>, rings: Rings, t: int)
    requires |answers| == |gaps|
  {
    exists j :: 0 <= j < |gaps| && gaps[j].to == t && InsideAt(answers[j], rings, t)
  }

  /**
   Outside the windows, every inside sample seen at a covered time is shown by the passes that entered in none of the
   closed windows, or lies on a window's end and is seen again there.
   */
  ghost predicate KeptWithout(rows: PassRows, seen: set<Sample>, rings: Rings, pts: iset<int>,
                              gaps: seq<Interval>, answers: seq<seq<Sample>>)
    requires |answers| == |gaps|
  {
    forall s :: s in seen && Inside(s, rings) && s.time in pts && !Covers(gaps, s.time) ==>
      Shown(Outside(rows, gaps), s.time, WithGaps(pts, gaps, |gaps|)) || EndAnswered(gaps, answers, rings, s.time)
  }

  /** An inside sample of an answer has a row among the passes found. */
  lemma RowAround(samples: seq<Sample>, rings: Rings, gap: Interval, t: int) returns (e: int)
    requires SamplesIn(samples, gap.from, gap.to) && InsideAt(samples, rings, t)
    ensures var added := RowsOfPasses(PassesOf(samples, rings));
            InClosed(gap, e) && e <= t && e in added && t <= added[e].exitedAt
  {
    var passes := PassesOf(samples, rings);
    PassAtInside(samples, rings, gap, t);
    WindowPasses(samples, rings, gap.from, gap.to);
    RowsOfPassesMembers(passes);
    var i :| 0 <= i < |passes| && passes[i].enteredAt <= t <= passes[i].exitedAt;
    assert passes[i] in passes;
    e := passes[i].enteredAt;
  }

  lemma NewRow(rows: PassRows, rings: Rings, gaps: seq<Interval>, answers: seq<seq<Sample>>, j: nat, t: int) returns (e: int)
    requires Canonical(gaps) && Answered(gaps, answers) && j < |gaps| && InsideAt(answers[j], rings, t)
    ensures var after := ReplaceAll(rows, gaps, Found(rings, answers), |gaps|);
            InClosed(gaps[j], e) && e <= t && e in after && t <= after[e].exitedAt
  {
    e := RowAround(answers[j], rings, gaps[j], t);
    FoundFits(rings, gaps, answers);
    ReplaceAllAt(rows, gaps, Found(rings, answers), |gaps|, e);
  }

  lemma RowEndsInside(rows: PassRows, rings: Rings, gaps: seq<Interval>, answers: seq<seq<Sample>>, j: nat, e: int)
    requires Canonical(gaps) && Answered(gaps, answers) && j < |gaps| && InClosed(gaps[j], e)
    requires e in ReplaceAll(rows, gaps, Found(rings, answers), |gaps|)
    ensures var exit := ReplaceAll(rows, gaps, Found(rings, answers), |gaps|)[e].exitedAt;
            exit <= gaps[j].to && InsideAt(answers[j], rings, exit)
  {
    var passes := PassesOf(answers[j], rings);
    FoundFits(rings, gaps, answers);
    ReplaceAllAt(rows, gaps, Found(rings, answers), |gaps|, e);
    WindowPasses(answers[j], rings, gaps[j].from, gaps[j].to);
    RowsOfPassesMembers(passes);
    var p :| p in passes && p.enteredAt == e;
  }

  /** At a time outside the windows only older passes, or a new one ending right there, can show a sample. */
  lemma ShownAfterIff(rows: PassRows, rings: Rings, pts: iset<int>, gaps: seq<Interval>, answers: seq<seq<Sample>>, t: int)
    requires Canonical(gaps) && Answered(gaps, answers) && t in pts && !Covers(gaps, t)
    ensures Shown(ReplaceAll(rows, gaps, Found(rings, answers), |gaps|), t, WithGaps(pts, gaps, |gaps|))
            <==> Shown(Outside(rows, gaps), t, WithGaps(pts, gaps, |gaps|)) || EndAnswered(gaps, answers, rings, t)
  {
    var pts' := WithGaps(pts, gaps, |gaps|);
    if Shown(ReplaceAll(rows, gaps, Found(rings, answers), |gaps|), t, pts') { ShownAfterOnlyIf(rows, rings, pts', gaps, answers, t); }
    if Shown(Outside(rows, gaps), t, pts') { ShownStill(rows, rings, pts', gaps, answers, t); }
    if j :| 0 <= j < |gaps| && gaps[j].to == t && InsideAt(answers[j], rings, t) {
      var e := NewRow(rows, rings, gaps, answers, j, t);
      assert forall x :: e <= x < t ==> Contains(gaps[j], x);
    }
  }

  lemma ShownAfterOnlyIf(rows: PassRows, rings: Rings, pts: iset<int>, gaps: seq<Interval>, answers: seq<seq<Sample>>, t: int)
    requires Canonical(gaps) && Answered(gaps, answers) && !Covers(gaps, t)
    requires Shown(ReplaceAll(rows, gaps, Found(rings, answers), |gaps|), t, pts)
    ensures Shown(Outside(rows, gaps), t, pts) || EndAnswered(gaps, answers, rings, t)
  {
    var after := ReplaceAll(rows, gaps, Found(rings, answers), |gaps|);
    var e :| e in after && e <= t <= after[e].exitedAt && forall x :: e <= x <= t ==> x in pts;
    FoundFits(rings, gaps, answers);
    ReplaceAllAt(rows, gaps, Found(rings, answers), |gaps|, e);
    if j :| 0 <= j < |gaps| && InClosed(gaps[j], e) {
      RowEndsInside(rows, rings, gaps, answers, j, e);
      assert !Contains(gaps[j], t);
    } else {
      assert e in Outside(rows, gaps);
    }
  }

  lemma ShownStill(rows: PassRows, rings: Rings, pts: iset<int>, gaps: seq<Interval>, answers: seq<seq<Sample>>, t: int)
    requires Canonical(gaps) && Answered(gaps, answers) && Shown(Outside(rows, gaps), t, pts)
    ensures Shown(ReplaceAll(rows, gaps, Found(rings, answers), |gaps|), t, pts)
  {
    var kept := Outside(rows, gaps);
    var e :| e in kept && e <= t <= kept[e].exitedAt && forall x :: e <= x <= t ==> x in pts;
    FoundFits(rings, gaps, answers);
    ReplaceAllAt(rows, gaps, Found(rings, answers), |gaps|, e);
  }

  lemma ShownInGap(rows: PassRows, rings: Rings, pts: iset<int>, gaps: seq<Interval>, answers: seq<seq<Sample>>, j: nat, s: Sample)
    requires Canonical(gaps) && Answered(gaps, answers) && j < |gaps| && Contains(gaps[j], s.time)
    requires s in answers[j] && Inside(s, rings)
    ensures Shown(ReplaceAll(rows, gaps, Found(rings, answers), |gaps|), s.time, WithGaps(pts, gaps, |gaps|))
  {
    var e := NewRow(rows, rings, gaps, answers, j, s.time);
    assert forall x :: e <= x <= s.time ==> Contains(gaps[j], x);
  }

  /**
   After complete scans of separate windows, covered before or not, there is evidence for all covered time if and only
   if the passes that entered outside the closed windows did without the others.
   */
  lemma ScansKeepEvidenceIff(rows: PassRows, seen: set<Sample>, rings: Rings, pts: iset<int>,
                             gaps: seq<Interval>, answers: seq<seq<Sample>>)
    requires Canonical(gaps) && Answered(gaps, answers)
    ensures Evidence(ReplaceAll(rows, gaps, Found(rings, answers), |gaps|), ReseenAll(seen, gaps, answers, |gaps|), rings,
                     WithGaps(pts, gaps, |gaps|))
            <==> KeptWithout(rows, seen, rings, pts, gaps, answers)
  {
    var after, seen', pts' := ReplaceAll(rows, gaps, Found(rings, answers), |gaps|), ReseenAll(seen, gaps, answers, |gaps|), WithGaps(pts, gaps, |gaps|);
    forall s: Sample | Inside(s, rings) && s.time in pts' && !Covers(gaps, s.time)
      ensures s.time in pts && (s in seen' <==> s in seen)
      ensures Shown(after, s.time, pts') <==>
                Shown(Outside(rows, gaps), s.time, pts') || EndAnswered(gaps, answers, rings, s.time)
    {
      ReseenAllAt(seen, gaps, answers, |gaps|, s);
      ShownAfterIff(rows, rings, pts, gaps, answers, s.time);
    }
    forall s | s in seen' && Inside(s, rings) && Covers(gaps, s.time) ensures Shown(after, s.time, pts') {
      var j :| 0 <= j < |gaps| && Contains(gaps[j], s.time);
      ReseenAllAt(seen, gaps, answers, |gaps|, s);
      ShownInGap(rows, rings, pts, gaps, answers, j, s);
    }
  }

  /** Nothing has changed but the passes entering in a closed gap and what was seen inside one. */
  ghost predicate OnlyInside(rows: PassRows, seen: set<Sample>, rows': PassRows, seen': set<Sample>, gaps: seq<Interval>) {
    && (forall e :: (forall j :: 0 <= j < |gaps| ==> !InClosed(gaps[j], e)) ==> SameAt(rows', rows, e))
    && (forall s: Sample :: !Covers(gaps, s.time) ==> (s in seen' <==> s in seen))
  }

  lemma PartlyAt(rows: PassRows, rows': PassRows, gap: Interval, passes: seq<Pass>, e: int)
    requires Partly(rows, rows', gap.from, gap.to, passes) && PassesIn(passes, gap) && !InClosed(gap, e)
    ensures SameAt(rows', rows, e)
  {
    if rows' != rows {
      var k :| 0 <= k <= |passes| && rows' == ReplacePasses(rows, gap.from, gap.to, passes[..k]);
      ReplaceAt(rows, passes[..k], gap, e);
    }
  }

  /** One more gap scanned, completely or not. */
  lemma StaysInside(rows0: PassRows, seen0: set<Sample>, rows: PassRows, seen: set<Sample>, rows': PassRows, seen': set<Sample>,
                    gaps: seq<Interval>, i: nat, samples: seq<Sample>, rings: Rings)
    requires i < |gaps| && OnlyInside(rows0, seen0, rows, seen, gaps) && SamplesIn(samples, gaps[i].from, gaps[i].to)
    requires Partly(rows, rows', gaps[i].from, gaps[i].to, PassesOf(samples, rings))
    requires seen' == seen || seen' == Reseen(seen, samples, gaps[i].from, gaps[i].to)
    ensures OnlyInside(rows0, seen0, rows', seen', gaps)
  {
    var passes := PassesOf(samples, rings);
    WindowPasses(samples, rings, gaps[i].from, gaps[i].to);
    forall e | forall j :: 0 <= j < |gaps| ==> !InClosed(gaps[j], e) ensures SameAt(rows', rows0, e) {
      assert SameAt(rows, rows0, e) && !InClosed(gaps[i], e);
      PartlyAt(rows, rows', gaps[i], passes, e);
    }
    forall s: Sample | !Covers(gaps, s.time) ensures s in seen' <==> s in seen0 {
      assert !Contains(gaps[i], s.time);
    }
  }

  /** Where no stored pass enters at the start of covered time, passes shown by covered time alone need no other. */
  lemma OutsideShows(rows: PassRows, cov: Coverage, from: int, to: int, gaps: seq<Interval>, t: int)
    requires ClearEnds(rows, cov, from, to) && Canonical(gaps) && Shown(rows, t, Points(cov))
    requires forall x :: Covers(gaps, x) <==> from <= x < to && !Covered(cov, x)
    ensures Shown(Outside(rows, gaps), t, Points(cov))
  {
    var e :| e in rows && e <= t <= rows[e].exitedAt && forall x :: e <= x <= t ==> x in Points(cov);
    assert e in Points(cov);
    forall j | 0 <= j < |gaps| ensures !InClosed(gaps[j], e) {
      assert Contains(gaps[j], e) ==> Covers(gaps, e);
      assert Contains(gaps[j], gaps[j].to - 1) && Covers(gaps, gaps[j].to - 1);
    }
    assert e in Outside(rows, gaps);
  }

  lemma ClearEndsSuffice(rows: PassRows, seen: set<Sample>, rings: Rings, cov: Coverage, from: int, to: int,
                         gaps: seq<Interval>, answers: seq<seq<Sample>>)
    requires Canonical(gaps) && |answers| == |gaps|
    requires forall x :: Covers(gaps, x) <==> from <= x < to && !Covered(cov, x)
    ensures ClearEnds(rows, cov, from, to) && Evidence(rows, seen, rings, Points(cov)) ==>
              KeptWithout(rows, seen, rings, Points(cov), gaps, answers)
  {
    if ClearEnds(rows, cov, from, to) && Evidence(rows, seen, rings, Points(cov)) {
      forall s | s in seen && Inside(s, rings) && s.time in Points(cov)
        ensures Shown(Outside(rows, gaps), s.time, WithGaps(Points(cov), gaps, |gaps|))
      {
        OutsideShows(rows, cov, from, to, gaps, s.time);
      }
    }
  }

  /** An interrupted scan of gaps loses no evidence either, where no stored pass enters at the start of covered time. */
  lemma OldEvidenceStays(rows: PassRows, seen: set<Sample>, rows': PassRows, seen': set<Sample>, rings: Rings, cov: Coverage,
                         from: int, to: int, gaps: seq<Interval>)
    requires Canonical(gaps) && OnlyInside(rows, seen, rows', seen', gaps)
    requires forall x :: Covers(gaps, x) <==> from <= x < to && !Covered(cov, x)
    ensures ClearEnds(rows, cov, from, to) && Evidence(rows, seen, rings, Points(cov)) ==> Evidence(rows', seen', rings, Points(cov))
  {
    if ClearEnds(rows, cov, from, to) && Evidence(rows, seen, rings, Points(cov)) {
      forall s | s in seen' && Inside(s, rings) && s.time in Points(cov) ensures Shown(rows', s.time, Points(cov)) {
        OutsideShows(rows, cov, from, to, gaps, s.time);
        var kept := Outside(rows, gaps);
        var e :| e in kept && e <= s.time <= kept[e].exitedAt && forall x :: e <= x <= s.time ==> x in Points(cov);
        assert SameAt(rows', rows, e);
      }
    }
  }

  /** One scan of a window, covered before or not. */
  lemma OneScanKeepsEvidenceIff(rows: PassRows, seen: set<Sample>, rings: Rings, pts: iset<int>, pts': iset<int>,
                                window: Interval, samples: seq<Sample>)
    requires window.from < window.to && SamplesIn(samples, window.from, window.to) && GapPoints(pts, pts', window)
    ensures Evidence(ReplacePasses(rows, window.from, window.to, PassesOf(samples, rings)),
                     Reseen(seen, samples, window.from, window.to), rings, pts')
            <==> KeptWithout(rows, seen, rings, pts, [window], [samples])
  {
    var gaps, answers := [window], [samples];
    ScansKeepEvidenceIff(rows, seen, rings, pts, gaps, answers);
    assert gaps[0] == window && Found(rings, answers)[0] == PassesOf(samples, rings);
    assert ReplaceAll(rows, gaps, Found(rings, answers), 0) == rows && ReseenAll(seen, gaps, answers, 0) == seen;
    forall t ensures t in WithGaps(pts, gaps, 1) <==> t in pts' { assert Contains(window, t) ==> Contains(gaps[0], t); }
    assert WithGaps(pts, gaps, 1) == pts';
  }

  /**
   The evidence for covered time outlives an interruption of a scan wherever it comes after the delete, if and only if
   the passes entering outside the closed window alone give it.
   */
  lemma InterruptionsKeepEvidenceIff(rows: PassRows, passes: seq<Pass>, seen: set<Sample>, rings: Rings, pts: iset<int>, window: Interval)
    requires PassesIn(passes, window)
    ensures (forall k :: 0 <= k <= |passes| ==>
               Evidence(ReplacePasses(rows, window.from, window.to, passes[..k]), seen, rings, pts))
            <==> Evidence(Outside(rows, [window]), seen, rings, pts)
  {
    var kept := Outside(rows, [window]);
    assert [window][0] == window;
    assert kept == ReplacePasses(rows, window.from, window.to, passes[..0]);
    forall k | 0 <= k <= |passes| && Evidence(kept, seen, rings, pts)
      ensures Evidence(ReplacePasses(rows, window.from, window.to, passes[..k]), seen, rings, pts)
    {
      MoreRowsShowMore(rows, passes[..k], seen, rings, pts, window);
    }
  }

  lemma MoreRowsShowMore(rows: PassRows, passes: seq<Pass>, seen: set<Sample>, rings: Rings, pts: iset<int>, window: Interval)
    requires PassesIn(passes, window) && Evidence(Outside(rows, [window]), seen, rings, pts)
    ensures Evidence(ReplacePasses(rows, window.from, window.to, passes), seen, rings, pts)
  {
    var kept, after := Outside(rows, [window]), ReplacePasses(rows, window.from, window.to, passes);
    assert [window][0] == window;
    RowsOfPassesMembers(passes);
    forall s | s in seen && Inside(s, rings) && s.time in pts ensures Shown(after, s.time, pts) {
      var e :| e in kept && e <= s.time <= kept[e].exitedAt && forall x :: e <= x <= s.time ==> x in pts;
      assert e in after && after[e] == kept[e];
    }
  }

  // ---- coverage ----

  ghost predicate SubRows(part: Coverage, whole: Coverage) {
    forall f :: f in part ==> f in whole && part[f] == whole[f]
  }

  /** Losing whole ranges of the coverage loses no evidence for the rest. */
  lemma EvidenceOfSubRows(rows: PassRows, seen: set<Sample>, rings: Rings, part: Coverage, whole: Coverage)
    requires Tidy(whole) && SubRows(part, whole) && Evidence(rows, seen, rings, Points(whole))
    ensures Evidence(rows, seen, rings, Points(part))
  {
    forall s | s in seen && Inside(s, rings) && s.time in Points(part) ensures Shown(rows, s.time, Points(part)) {
      var f :| f in part && f <= s.time < part[f];
      assert Covered(whole, s.time);
      var e :| e in rows && e <= s.time <= rows[e].exitedAt && forall x :: e <= x <= s.time ==> x in Points(whole);
      RangeEdges(whole, f);
      assert e >= f by { assert e <= f - 1 <= s.time ==> f - 1 in Points(whole); }
      assert forall x :: e <= x <= s.time ==> Covered(part, x);
    }
  }

  /** One row holds the whole window: what the trip path asks before it skips a geofence. */
  predicate OneRowContains(cov: Coverage, from: int, to: int) {
    exists f :: f in cov && f <= from && to <= cov[f]
  }

  /** The trip path's test is the stricter one: a window inside a single row has no gaps. */
  lemma ContainedHasNoGaps(cov: Coverage, from: int, to: int, gap: Interval)
    requires OneRowContains(cov, from, to)
    ensures !IsGap(cov, from, to, gap)
  {
    assert from <= gap.from < to ==> Covered(cov, gap.from);
  }

  /**
   The trip path's upsert replaces the end of the row that starts where the window starts, and is only reached for a
   window no single row contains: it adds exactly the window. Reached otherwise, it could only shrink that row.
   */
  lemma UpsertAddsWindow(cov: Coverage, from: int, to: int, t: int)
    requires from < to
    ensures !OneRowContains(cov, from, to) ==> (Covered(cov[from := to], t) <==> Covered(cov, t) || from <= t < to)
    ensures from in cov && to < cov[from] ==> OneRowContains(cov, from, to)
  {
    if Covered(cov, t) && !OneRowContains(cov, from, to) {
      var f :| f in cov && f <= t < cov[f];
      assert f == from ==> t < to;
      assert f in cov[from := to];
    }
    if Covered(cov[from := to], t) {
      var f :| f in cov[from := to] && f <= t < cov[from := to][f];
      assert f == from || f in cov;
    }
    assert from in cov[from := to];
  }

  /** Nothing was stored, or the window was cleared and the first few passes went in. */
  ghost predicate Partly(rows: PassRows, rows': PassRows, from: int, to: int, passes: seq<Pass>) {
    rows' == rows || exists k :: 0 <= k <= |passes| && rows' == ReplacePasses(rows, from, to, passes[..k])
  }

  /** Passes entering in order never collide with what the cleared window holds. */
  lemma NextInsert(rows: PassRows, from: int, to: int, passes: seq<Pass>, i: nat)
    requires EnteredInOrder(passes) && i < |passes| && from <= passes[i].enteredAt <= to
    ensures ReplacePasses(rows, from, to, passes[..i + 1])
            == ReplacePasses(rows, from, to, passes[..i])[passes[i].enteredAt := passes[i]]
    ensures passes[i].enteredAt !in ReplacePasses(rows, from, to, passes[..i])
  {
    TakeNext(passes, i);
    TakeNext(passes, i);
    RowsOfPassesMembers(passes[..i]);
  }

  /** No stored pass enters where covered time starts inside the window, or where it starts at the window's end. */
  ghost predicate ClearEnds(rows: PassRows, cov: Coverage, from: int, to: int) {
    forall e :: e in rows && from < e <= to && Covered(cov, e) ==> Covered(cov, e - 1)
  }

  /** The points covered before and those of the first n gaps. */
  ghost function WithGaps(pts: iset<int>, gaps: seq<Interval>, n: nat): iset<int>
    requires n <= |gaps|
  {
    iset t | t in pts || exists j :: 0 <= j < n && Contains(gaps[j], t)
  }

  ghost predicate GapsIn(gaps: seq<Interval>, n: nat, pts: iset<int>)
    requires n <= |gaps|
  {
    forall j, t :: 0 <= j < n && Contains(gaps[j], t) ==> t in pts
  }

  lemma NextGapScanned(gaps: seq<Interval>, i: nat, before: iset<int>, after: iset<int>)
    requires i < |gaps| && GapsIn(gaps, i, before) && forall t :: t in before ==> t in after
    requires forall t :: Contains(gaps[i], t) ==> t in after
    ensures GapsIn(gaps, i + 1, after)
  {
  }

  /** The first n ranges of the list are in the table, and nothing else is. */
  ghost predicate Inserted(list: seq<Interval>, n: nat, cov: Coverage)
    requires Canonical(list) && n <= |list|
  {
    && SubRows(cov, TableOf(list)) && (forall j :: 0 <= j < n ==> list[j].from in cov)
    && forall f :: f in cov ==> n > 0 && f < list[n - 1].to
  }

  /** The list's starts ascend, so the next one is not in the table yet. */
  lemma NextRange(list: seq<Interval>, n: nat, cov: Coverage)
    requires Canonical(list) && n < |list| && Inserted(list, n, cov)
    ensures list[n].from !in cov && Inserted(list, n + 1, cov[list[n].from := list[n].to])
  {
  }

  lemma AllInserted(list: seq<Interval>, cov: Coverage)
    requires Canonical(list) && Inserted(list, |list|, cov)
    ensures cov == TableOf(list)
  {
    forall f | f in TableOf(list) ensures f in cov {
      var j :| 0 <= j < |list| && list[j].from == f;
    }
    assert forall f :: f in cov <==> f in TableOf(list);
  }
}
