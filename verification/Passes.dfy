/** Detecting a vehicle's passes through a polygon from its ordered position samples. */
module Passes {
  import opened Wrappers
  import opened Polygon

  datatype Sample = Sample(time: int, lat: real, lng: real, speedKph: Option<real>, obdRunTimeS: Option<real>)

  datatype Pass = Pass(
    enteredAt: int, exitedAt: int,
    maxSpeed: Option<real>,
    entryLat: real, entryLng: real, exitLat: real, exitLng: real,
    maxSpeedLat: Option<real>, maxSpeedLng: Option<real>,
    numSamples: nat,
    firstObdRunTime: Option<real>, lastObdRunTime: Option<real>, obdSamples: nat)
  {
    /** Engine-on seconds: nothing with fewer than two readings or when the counter went backwards. */
    function EngineRuntimeS(): (r: Option<real>)
      ensures r.Some? <==> && obdSamples >= 2 && firstObdRunTime.Some? && lastObdRunTime.Some?
                           && firstObdRunTime.value <= lastObdRunTime.value
      ensures r.Some? ==> firstObdRunTime.value + r.value == lastObdRunTime.value
    {
      if obdSamples < 2 || firstObdRunTime.None? || lastObdRunTime.None? then None
      else
        var d := lastObdRunTime.value - firstObdRunTime.value;
        if d < 0.0 then None else Some(d)
    }
  }

  type Rings = seq<seq<Pos>>

  predicate Inside(s: Sample, rings: Rings) {
    InPolygon(s.lat, s.lng, rings)
  }

  /** A sample's latitude and longitude against a fence with one upright rectangle. */
  lemma InsideBox(s: Sample, w: real, e: real, south: real, north: real)
    requires w < e && south < north
    ensures Inside(s, [[Pos(w, south), Pos(e, south), Pos(e, north), Pos(w, north)]]) <==> w <= s.lng < e && south <= s.lat < north
  {
    BoxWithHole(s.lat, s.lng, w, e, south, north, w, e, south, north);
  }

  /** A pass just opened by an inside sample, not counting it yet. */
  function Opened(s: Sample): Pass {
    Pass(s.time, s.time, None, s.lat, s.lng, s.lat, s.lng, None, None, 0, None, None, 0)
  }

  /** The open pass with one more inside sample. */
  function Extended(p: Pass, s: Sample): Pass {
    var q := p.(exitedAt := s.time, exitLat := s.lat, exitLng := s.lng, numSamples := p.numSamples + 1);
    var r := if s.speedKph.Some? && (q.maxSpeed.None? || s.speedKph.value > q.maxSpeed.value)
             then q.(maxSpeed := s.speedKph, maxSpeedLat := Some(s.lat), maxSpeedLng := Some(s.lng)) else q;
    if s.obdRunTimeS.None? then r
    else r.(firstObdRunTime := if r.firstObdRunTime.None? then s.obdRunTimeS else r.firstObdRunTime,
            lastObdRunTime := s.obdRunTimeS, obdSamples := r.obdSamples + 1)
  }

  /** The sweep after some samples: passes closed so far, and the one still open. */
  datatype Sweep = Sweep(closed: seq<Pass>, open: Option<Pass>)

  function Next(w: Sweep, s: Sample, rings: Rings): Sweep {
    if Inside(s, rings) then w.(open := Some(Extended(if w.open.None? then Opened(s) else w.open.value, s)))
    else if w.open.Some? then Sweep(w.closed + [w.open.value], None)
    else w
  }

  function SweepOf(samples: seq<Sample>, rings: Rings): Sweep {
    if samples == [] then Sweep([], None) else Next(SweepOf(samples[..|samples| - 1], rings), samples[|samples| - 1], rings)
  }

  function Finish(w: Sweep): seq<Pass> {
    if w.open.Some? then w.closed + [w.open.value] else w.closed
  }

  function PassesOf(samples: seq<Sample>, rings: Rings): seq<Pass> {
    Finish(SweepOf(samples, rings))
  }

  method DetectPasses(samples: seq<Sample>, rings: Rings) returns (passes: seq<Pass>)
    ensures passes == PassesOf(samples, rings)
  {
    passes := [];
    var cur: Option<Pass> := None;
    for i := 0 to |samples|
      invariant Sweep(passes, cur) == SweepOf(samples[..i], rings)
    {
      var smp := samples[i];
      TakeNext(samples, i);
      var inside := PointInPolygon(smp.lat, smp.lng, rings);
      if inside {
        if cur.None? {
          cur := Some(Pass(smp.time, smp.time, None, smp.lat, smp.lng, smp.lat, smp.lng, None, None, 0, None, None, 0));
        }
        var p := cur.value.(exitedAt := smp.time, exitLat := smp.lat, exitLng := smp.lng, numSamples := cur.value.numSamples + 1);
        if smp.speedKph.Some? && (p.maxSpeed.None? || smp.speedKph.value > p.maxSpeed.value) {
          p := p.(maxSpeed := smp.speedKph, maxSpeedLat := Some(smp.lat), maxSpeedLng := Some(smp.lng));
        }
        if smp.obdRunTimeS.Some? {
          if p.firstObdRunTime.None? {
            p := p.(firstObdRunTime := smp.obdRunTimeS);
          }
          p := p.(lastObdRunTime := smp.obdRunTimeS, obdSamples := p.obdSamples + 1);
        }
        cur := Some(p);
      } else if cur.Some? {
        passes := passes + [cur.value];
        cur := None;
      }
    }
    assert samples[..|samples|] == samples;
    if cur.Some? {
      passes := passes + [cur.value];
    }
  }

  // ---- composition: scanning a window in two parts ----

  /** One pass out of two that meet at the split. */
  function Join(p: Pass, q: Pass): Pass {
    var later := q.maxSpeed.Some? && (p.maxSpeed.None? || q.maxSpeed.value > p.maxSpeed.value);
    p.(exitedAt := q.exitedAt, exitLat := q.exitLat, exitLng := q.exitLng, numSamples := p.numSamples + q.numSamples,
       maxSpeed := if later then q.maxSpeed else p.maxSpeed,
       maxSpeedLat := if later then q.maxSpeedLat else p.maxSpeedLat,
       maxSpeedLng := if later then q.maxSpeedLng else p.maxSpeedLng,
       firstObdRunTime := if p.firstObdRunTime.Some? then p.firstObdRunTime else q.firstObdRunTime,
       lastObdRunTime := if q.lastObdRunTime.Some? then q.lastObdRunTime else p.lastObdRunTime,
       obdSamples := p.obdSamples + q.obdSamples)
  }

  /** The boundary between a and b lies inside a pass. */
  predicate MeetInside(a: seq<Sample>, b: seq<Sample>, rings: Rings) {
    a != [] && b != [] && Inside(a[|a| - 1], rings) && Inside(b[0], rings)
  }

  lemma OpenMeansInside(samples: seq<Sample>, rings: Rings)
    ensures SweepOf(samples, rings).open.Some? <==> samples != [] && Inside(samples[|samples| - 1], rings)
  {
  }

  /** The sweep over a + b in terms of the sweeps over a and over b. */
  function Composed(wa: Sweep, wb: Sweep, meet: bool): Sweep {
    if !meet || wa.open.None? then Sweep(Finish(wa) + wb.closed, wb.open)
    else if wb.closed == [] then Sweep(wa.closed, if wb.open.Some? then Some(Join(wa.open.value, wb.open.value)) else wa.open)
    else Sweep(wa.closed + [Join(wa.open.value, wb.closed[0])] + wb.closed[1..], wb.open)
  }

  lemma {:induction false} SweepComposes(a: seq<Sample>, b: seq<Sample>, rings: Rings)
    requires b != []
    ensures SweepOf(a + b, rings) == Composed(SweepOf(a, rings), SweepOf(b, rings), MeetInside(a, b, rings))
  {
    var init, s := b[..|b| - 1], b[|b| - 1];
    assert (a + b)[..|a + b| - 1] == a + init;
    OpenMeansInside(a, rings);
    if init == [] {
      assert a + init == a && b[..0] == [];
      FirstSample(SweepOf(a, rings), s, rings);
    } else {
      SweepComposes(a, init, rings);
      LaterSample(SweepOf(a, rings), SweepOf(init, rings), MeetInside(a, b, rings), s, rings);
      OpenMeansInside(init, rings);
      if Inside(b[0], rings) { FirstPassPresent(init, rings); }
    }
  }

  lemma FirstSample(wa: Sweep, s: Sample, rings: Rings)
    ensures Next(wa, s, rings) == Composed(wa, Next(Sweep([], None), s, rings), wa.open.Some? && Inside(s, rings))
  {
    if !Inside(s, rings) && wa.open.Some? { assert Finish(wa) + [] == Finish(wa); }
    assert wa.closed + [] == wa.closed;
  }

  lemma {:induction false} FirstPassPresent(b: seq<Sample>, rings: Rings)
    requires b != [] && Inside(b[0], rings)
    ensures SweepOf(b, rings).open.Some? || SweepOf(b, rings).closed != []
  {
    if |b| > 1 { FirstPassPresent(b[..|b| - 1], rings); }
  }

  lemma LaterSample(wa: Sweep, wb: Sweep, meet: bool, s: Sample, rings: Rings)
    requires meet ==> wb.open.Some? || wb.closed != []
    ensures Next(Composed(wa, wb, meet), s, rings) == Composed(wa, Next(wb, s, rings), meet)
  {
  }

  /** Two parts' passes put together: a boundary inside a pass joins the last of the first with the first of the second. */
  function JoinLists(pa: seq<Pass>, pb: seq<Pass>, meet: bool): seq<Pass> {
    if meet && pa != [] && pb != [] then pa[..|pa| - 1] + [Join(pa[|pa| - 1], pb[0])] + pb[1..] else pa + pb
  }

  /** Scanning a window in two parts gives the same passes as scanning it at once, up to the pass the split cuts. */
  lemma PassesCompose(a: seq<Sample>, b: seq<Sample>, rings: Rings)
    ensures PassesOf(a + b, rings) == JoinLists(PassesOf(a, rings), PassesOf(b, rings), MeetInside(a, b, rings))
    ensures MeetInside(a, b, rings) ==> PassesOf(a, rings) != [] && PassesOf(b, rings) != []
  {
    OpenMeansInside(a, rings);
    if b == [] {
      assert a + b == a && PassesOf(a, rings) + [] == PassesOf(a, rings);
    } else {
      SweepComposes(a, b, rings);
      if Inside(b[0], rings) { FirstPassPresent(b, rings); }
      FinishComposed(SweepOf(a, rings), SweepOf(b, rings), MeetInside(a, b, rings));
    }
  }

  lemma FinishComposed(wa: Sweep, wb: Sweep, meet: bool)
    requires meet ==> wa.open.Some? && (wb.open.Some? || wb.closed != [])
    ensures Finish(Composed(wa, wb, meet)) == JoinLists(Finish(wa), Finish(wb), meet)
  {
    if meet {
      assert Finish(wa)[..|Finish(wa)| - 1] == wa.closed;
      if wb.closed == [] {
        assert Finish(wb)[1..] == [];
      } else {
        assert Finish(wb)[1..] == wb.closed[1..] + (if wb.open.Some? then [wb.open.value] else []);
      }
    }
  }

  // ---- passes are the maximal inside runs ----

  /** A stretch of samples, its end excluded. */
  datatype Span = Span(first: nat, end: nat)

  /** samples[i..j] is a run of inside samples that cannot be made longer. */
  ghost predicate MaximalRun(samples: seq<Sample>, rings: Rings, i: nat, j: nat) {
    && i < j <= |samples|
    && (forall k :: i <= k < j ==> Inside(samples[k], rings))
    && (i == 0 || !Inside(samples[i - 1], rings))
    && (j == |samples| || !Inside(samples[j], rings))
  }

  function ObdCount(run: seq<Sample>): nat {
    if run == [] then 0
    else ObdCount(run[..|run| - 1]) + (if run[|run| - 1].obdRunTimeS.Some? then 1 else 0)
  }

  lemma {:induction false} ObdCountIs(run: seq<Sample>)
    ensures ObdCount(run) == |set m: nat | m < |run| && run[m].obdRunTimeS.Some?|
  {
    if run != [] {
      var init, n := run[..|run| - 1], |run| - 1;
      ObdCountIs(init);
      var before, all := set m: nat | m < |init| && init[m].obdRunTimeS.Some?, set m: nat | m < |run| && run[m].obdRunTimeS.Some?;
      assert all == if run[n].obdRunTimeS.Some? then before + {n} else before;
    }
  }

  /** The first sample of top speed is k. */
  ghost predicate Fastest(run: seq<Sample>, k: nat) {
    && k < |run| && run[k].speedKph.Some?
    && (forall m :: 0 <= m < |run| && run[m].speedKph.Some? ==> run[m].speedKph.value <= run[k].speedKph.value)
    && (forall m :: 0 <= m < k && run[m].speedKph.Some? ==> run[m].speedKph.value < run[k].speedKph.value)
  }

  ghost predicate FirstReading(run: seq<Sample>, k: nat) {
    k < |run| && run[k].obdRunTimeS.Some? && forall m :: 0 <= m < k ==> run[m].obdRunTimeS.None?
  }

  ghost predicate LastReading(run: seq<Sample>, k: nat) {
    k < |run| && run[k].obdRunTimeS.Some? && forall m :: k < m < |run| ==> run[m].obdRunTimeS.None?
  }

  /** What a pass says of its run of samples. */
  ghost predicate Summarizes(p: Pass, run: seq<Sample>) {
    && run != []
    && p.enteredAt == run[0].time && p.entryLat == run[0].lat && p.entryLng == run[0].lng
    && p.exitedAt == run[|run| - 1].time && p.exitLat == run[|run| - 1].lat && p.exitLng == run[|run| - 1].lng
    && p.numSamples == |run| && p.obdSamples == |set m: nat | m < |run| && run[m].obdRunTimeS.Some?|
    && SpeedOf(p, run) && ObdOf(p, run)
  }

  ghost predicate SpeedOf(p: Pass, run: seq<Sample>) {
    if p.maxSpeed.None? then forall m :: 0 <= m < |run| ==> run[m].speedKph.None?
    else exists k: nat :: Fastest(run, k) && p.maxSpeed == run[k].speedKph
                          && p.maxSpeedLat == Some(run[k].lat) && p.maxSpeedLng == Some(run[k].lng)
  }

  ghost predicate ObdOf(p: Pass, run: seq<Sample>) {
    if p.firstObdRunTime.None? then p.lastObdRunTime.None? && forall m :: 0 <= m < |run| ==> run[m].obdRunTimeS.None?
    else && (exists k: nat :: FirstReading(run, k) && p.firstObdRunTime == run[k].obdRunTimeS)
         && (exists k: nat :: LastReading(run, k) && p.lastObdRunTime == run[k].obdRunTimeS)
  }

  lemma OpensSummary(s: Sample)
    ensures Summarizes(Extended(Opened(s), s), [s])
  {
    assert [s][..0] == [];
    ObdCountIs([s]);
    if s.speedKph.Some? { assert Fastest([s], 0); }
    if s.obdRunTimeS.Some? { assert FirstReading([s], 0) && LastReading([s], 0); }
  }

  lemma ExtendsSummary(p: Pass, run: seq<Sample>, s: Sample)
    requires Summarizes(p, run)
    ensures Summarizes(Extended(p, s), run + [s])
  {
    var longer, n := run + [s], |run|;
    assert longer[..|longer| - 1] == run;
    ObdCountIs(run);
    ObdCountIs(longer);
    ExtendsSpeed(p, run, s);
    if s.obdRunTimeS.Some? { assert LastReading(longer, n); }
    if p.firstObdRunTime.Some? {
      var k: nat :| FirstReading(run, k) && p.firstObdRunTime == run[k].obdRunTimeS;
      assert FirstReading(longer, k);
      var l: nat :| LastReading(run, l) && p.lastObdRunTime == run[l].obdRunTimeS;
      assert s.obdRunTimeS.None? ==> LastReading(longer, l);
    } else if s.obdRunTimeS.Some? {
      assert FirstReading(longer, n);
    }
  }

  lemma ExtendsSpeed(p: Pass, run: seq<Sample>, s: Sample)
    requires SpeedOf(p, run)
    ensures SpeedOf(Extended(p, s), run + [s])
  {
    var longer, n := run + [s], |run|;
    if p.maxSpeed.Some? {
      var k: nat :| Fastest(run, k) && p.maxSpeed == run[k].speedKph
                    && p.maxSpeedLat == Some(run[k].lat) && p.maxSpeedLng == Some(run[k].lng);
      if s.speedKph.Some? && s.speedKph.value > p.maxSpeed.value {
        assert Fastest(longer, n);
      } else {
        assert Fastest(longer, k);
      }
    } else if s.speedKph.Some? {
      assert Fastest(longer, n);
    }
  }

  ghost predicate RunsInOrder(runs: seq<Span>) {
    forall r, q :: 0 <= r < q < |runs| ==> runs[r].end < runs[q].first
  }

  ghost predicate InSomeRun(runs: seq<Span>, k: nat) {
    exists r :: 0 <= r < |runs| && runs[r].first <= k < runs[r].end
  }

  /** passes are the maximal runs, in order, one each. */
  ghost predicate RunsMatch(samples: seq<Sample>, rings: Rings, passes: seq<Pass>, runs: seq<Span>) {
    && |runs| == |passes| && RunsInOrder(runs)
    && forall r :: 0 <= r < |runs| ==> MaximalRun(samples, rings, runs[r].first, runs[r].end)
                                       && Summarizes(passes[r], samples[runs[r].first..runs[r].end])
  }

  /** The runs of a sweep: its closed passes', and the open one's, which starts at `open` and reaches the end. */
  ghost predicate SweepMatches(samples: seq<Sample>, rings: Rings, w: Sweep, runs: seq<Span>, open: nat) {
    && RunsMatch(samples, rings, w.closed, runs) && open <= |samples|
    && (forall r :: 0 <= r < |runs| ==> runs[r].end < open)
    && (forall k :: 0 <= k < open && Inside(samples[k], rings) ==> InSomeRun(runs, k))
    && (w.open.None? ==> open == |samples| && (samples == [] || !Inside(samples[|samples| - 1], rings)))
    && (w.open.Some? ==> MaximalRun(samples, rings, open, |samples|) && Summarizes(w.open.value, samples[open..]))
  }

  lemma RunsStay(samples: seq<Sample>, rings: Rings, passes: seq<Pass>, runs: seq<Span>, s: Sample)
    requires RunsMatch(samples, rings, passes, runs) && forall r :: 0 <= r < |runs| ==> runs[r].end < |samples|
    ensures RunsMatch(samples + [s], rings, passes, runs)
  {
    forall r | 0 <= r < |runs|
      ensures MaximalRun(samples + [s], rings, runs[r].first, runs[r].end)
      ensures Summarizes(passes[r], (samples + [s])[runs[r].first..runs[r].end])
    {
      assert (samples + [s])[runs[r].first..runs[r].end] == samples[runs[r].first..runs[r].end];
    }
  }

  lemma InsideStep(samples: seq<Sample>, rings: Rings, w: Sweep, runs: seq<Span>, open: nat, s: Sample)
    requires SweepMatches(samples, rings, w, runs, open) && Inside(s, rings)
    ensures SweepMatches(samples + [s], rings, Next(w, s, rings), runs, open)
  {
    RunsStay(samples, rings, w.closed, runs, s);
    RunGrows(samples, rings, open, s);
    if w.open.None? {
      OpensSummary(s);
    } else {
      ExtendsSummary(w.open.value, samples[open..], s);
    }
  }

  lemma RunGrows(samples: seq<Sample>, rings: Rings, open: nat, s: Sample)
    requires open <= |samples| && Inside(s, rings)
    requires MaximalRun(samples, rings, open, |samples|)
             || (open == |samples| && (samples == [] || !Inside(samples[|samples| - 1], rings)))
    ensures MaximalRun(samples + [s], rings, open, |samples| + 1)
    ensures (samples + [s])[open..] == samples[open..] + [s]
    ensures open == |samples| ==> (samples + [s])[open..] == [s]
  {
  }

  lemma InAppendedRun(runs: seq<Span>, last: Span, k: nat)
    ensures InSomeRun(runs + [last], k) <==> InSomeRun(runs, k) || last.first <= k < last.end
  {
    var longer := runs + [last];
    if InSomeRun(runs, k) {
      var r :| 0 <= r < |runs| && runs[r].first <= k < runs[r].end;
      assert longer[r] == runs[r];
    }
    assert longer[|runs|] == last;
  }

  /** Closing the open pass adds its run. */
  lemma AppendRun(samples: seq<Sample>, rings: Rings, passes: seq<Pass>, runs: seq<Span>, p: Pass, last: Span)
    requires RunsMatch(samples, rings, passes, runs) && forall r :: 0 <= r < |runs| ==> runs[r].end < last.first
    requires MaximalRun(samples, rings, last.first, last.end) && Summarizes(p, samples[last.first..last.end])
    ensures RunsMatch(samples, rings, passes + [p], runs + [last])
  {
  }

  lemma OutsideStep(samples: seq<Sample>, rings: Rings, w: Sweep, runs: seq<Span>, open: nat, s: Sample)
    requires SweepMatches(samples, rings, w, runs, open) && !Inside(s, rings)
    ensures SweepMatches(samples + [s], rings, Next(w, s, rings),
                         if w.open.Some? then runs + [Span(open, |samples|)] else runs, |samples| + 1)
  {
    RunsStay(samples, rings, w.closed, runs, s);
    var longer, n := samples + [s], |samples|;
    if w.open.Some? {
      assert longer[open..n] == samples[open..];
      AppendRun(longer, rings, w.closed, runs, w.open.value, Span(open, n));
      forall k: nat { InAppendedRun(runs, Span(open, n), k); }
    }
  }

  lemma SweepStep(samples: seq<Sample>, rings: Rings, s: Sample, runs: seq<Span>, open: nat)
    returns (runs': seq<Span>, open': nat)
    requires SweepMatches(samples, rings, SweepOf(samples, rings), runs, open)
    ensures SweepMatches(samples + [s], rings, Next(SweepOf(samples, rings), s, rings), runs', open')
  {
    var w := SweepOf(samples, rings);
    if Inside(s, rings) {
      InsideStep(samples, rings, w, runs, open, s);
      runs', open' := runs, open;
    } else {
      OutsideStep(samples, rings, w, runs, open, s);
      runs', open' := if w.open.Some? then runs + [Span(open, |samples|)] else runs, |samples| + 1;
    }
  }

  lemma {:induction false} SweepRuns(samples: seq<Sample>, rings: Rings) returns (runs: seq<Span>, open: nat)
    ensures SweepMatches(samples, rings, SweepOf(samples, rings), runs, open)
  {
    if samples == [] {
      runs, open := [], 0;
    } else {
      var n := |samples| - 1;
      runs, open := SweepRuns(samples[..n], rings);
      runs, open := SweepStep(samples[..n], rings, samples[n], runs, open);
      assert samples[..n] + [samples[n]] == samples;
    }
  }

  /** The passes are exactly the maximal runs of inside samples, in order, and every inside sample is in one. */
  lemma PassesAreMaximalRuns(samples: seq<Sample>, rings: Rings) returns (runs: seq<Span>)
    ensures RunsMatch(samples, rings, PassesOf(samples, rings), runs)
    ensures forall k :: 0 <= k < |samples| && Inside(samples[k], rings) ==> InSomeRun(runs, k)
  {
    var closed, open := SweepRuns(samples, rings);
    var w := SweepOf(samples, rings);
    if w.open.Some? {
      runs := closed + [Span(open, |samples|)];
      assert samples[open..|samples|] == samples[open..];
      AppendRun(samples, rings, w.closed, closed, w.open.value, Span(open, |samples|));
      forall k: nat { InAppendedRun(closed, Span(open, |samples|), k); }
    } else {
      runs := closed;
    }
  }

  function TotalSamples(passes: seq<Pass>): nat {
    if passes == [] then 0 else TotalSamples(passes[..|passes| - 1]) + passes[|passes| - 1].numSamples
  }

  function InsideCount(samples: seq<Sample>, rings: Rings): nat {
    if samples == [] then 0
    else InsideCount(samples[..|samples| - 1], rings) + (if Inside(samples[|samples| - 1], rings) then 1 else 0)
  }

  lemma {:induction false} InsideCountIs(samples: seq<Sample>, rings: Rings)
    ensures InsideCount(samples, rings) == |set m: nat | m < |samples| && Inside(samples[m], rings)|
  {
    if samples != [] {
      var init, n := samples[..|samples| - 1], |samples| - 1;
      InsideCountIs(init, rings);
      var before, all := set m: nat | m < |init| && Inside(init[m], rings), set m: nat | m < |samples| && Inside(samples[m], rings);
      assert all == if Inside(samples[n], rings) then before + {n} else before;
    }
  }

  /** The samples of a sweep's passes, the open one included. */
  function SweepTotal(w: Sweep): nat {
    TotalSamples(w.closed) + (if w.open.Some? then w.open.value.numSamples else 0)
  }

  lemma TotalAppend(passes: seq<Pass>, p: Pass)
    ensures TotalSamples(passes + [p]) == TotalSamples(passes) + p.numSamples
  {
    assert (passes + [p])[..|passes|] == passes;
  }

  lemma NextCounts(w: Sweep, s: Sample, rings: Rings)
    ensures SweepTotal(Next(w, s, rings)) == SweepTotal(w) + (if Inside(s, rings) then 1 else 0)
  {
    if w.open.Some? { TotalAppend(w.closed, w.open.value); }
  }

  lemma {:induction false} SweepConserves(samples: seq<Sample>, rings: Rings)
    ensures SweepTotal(SweepOf(samples, rings)) == InsideCount(samples, rings)
  {
    if samples != [] {
      SweepConserves(samples[..|samples| - 1], rings);
      NextCounts(SweepOf(samples[..|samples| - 1], rings), samples[|samples| - 1], rings);
    }
  }

  /** No inside sample is dropped or counted twice. */
  lemma SamplesConserved(samples: seq<Sample>, rings: Rings)
    ensures TotalSamples(PassesOf(samples, rings)) == |set m: nat | m < |samples| && Inside(samples[m], rings)|
  {
    InsideCountIs(samples, rings);
    var w := SweepOf(samples, rings);
    SweepConserves(samples, rings);
    if w.open.Some? { TotalAppend(w.closed, w.open.value); }
  }
}
