/** How passes are lost although their time stays marked scanned: one case for each way a window can be rescanned. */
module GeofenceHazards {
  import opened Wrappers
  import opened Intervals
  import opened Polygon
  import opened Passes
  import opened PassEvidence

  const SQUARE: Rings := [[Pos(0.0, 0.0), Pos(1.0, 0.0), Pos(1.0, 1.0), Pos(0.0, 1.0)]]

  function At(t: int, lat: real): Sample { Sample(t, lat, 0.5, None, None) }

  lemma AtIsInside(t: int, lat: real)
    ensures Inside(At(t, lat), SQUARE) <==> 0.0 <= lat < 1.0
  {
    RectangleIsBox(0.0, 1.0, 0.0, 1.0, 0.5, lat);
  }

  lemma PassesOfOne(s: Sample)
    ensures PassesOf([s], SQUARE) == if Inside(s, SQUARE) then [Extended(Opened(s), s)] else []
  {
    assert [s][..0] == [] && SweepOf([], SQUARE) == Sweep([], None);
    assert [] + [Extended(Opened(s), s)] == [Extended(Opened(s), s)];
  }

  lemma PassesOfTwo(r: Sample, s: Sample)
    requires !Inside(r, SQUARE) && Inside(s, SQUARE)
    ensures PassesOf([r, s], SQUARE) == [Extended(Opened(s), s)]
  {
    PassesOfOne(r);
    assert [r, s][..1] == [r] && [r][..0] == [] && SweepOf([], SQUARE) == Sweep([], None);
    assert SweepOf([r], SQUARE) == Sweep([], None);
  }

  /**
   A vehicle is parked inside when a scanned window starts, so its pass enters exactly there and lasts. Scanning the
   time before it replaces that pass, because the closed window includes the end, by one that ends where the window
   does: what followed is shown by nothing any more.
   */
  lemma ParkedAtEdgeLosesEvidence()
    returns (rows: PassRows, seen: set<Sample>, gap: Interval, samples: seq<Sample>, pts: iset<int>, after: PassRows)
    ensures SamplesIn(samples, gap.from, gap.to) && gap.from < gap.to && forall t :: Contains(gap, t) ==> t !in pts
    ensures Evidence(rows, seen, SQUARE, pts) && gap.to in rows && gap.to in pts
    ensures after == ReplacePasses(rows, gap.from, gap.to, PassesOf(samples, SQUARE)) && gap.to in after
    ensures !Evidence(after, Reseen(seen, samples, gap.from, gap.to), SQUARE, pts + PointsOf(gap))
  {
    var entry, parked := At(100, 0.5), At(130, 0.5);
    var pass := Extended(Extended(Opened(entry), entry), parked);
    rows, seen := map[100 := pass], {entry, parked};
    gap, samples, pts := Interval(0, 100), [At(70, 2.0), entry], PointsOf(Interval(100, 200));
    AtIsInside(70, 2.0);
    AtIsInside(100, 0.5);
    AtIsInside(130, 0.5);
    PassesOfTwo(At(70, 2.0), entry);
    assert Shown(rows, 100, pts) && Shown(rows, 130, pts) by { assert 100 in rows; }
    after := ReplacePasses(rows, 0, 100, PassesOf(samples, SQUARE));
    OneRow(Extended(Opened(entry), entry));
    assert after == map[100 := Extended(Opened(entry), entry)];
    assert parked in Reseen(seen, samples, 0, 100) && 130 in pts + PointsOf(gap);
    assert !Shown(after, 130, pts + PointsOf(gap));
  }

  lemma OneRow(p: Pass)
    ensures RowsOfPasses([p]) == map[p.enteredAt := p]
  {
    assert [p][..0] == [];
  }

  /**
   A trip ends while the vehicle is inside, in time that was covered before. Its completed scan shortens the pass to
   the end of the trip, and what followed is shown by nothing any more.
   */
  lemma CutPassLosesEvidence()
    returns (rows: PassRows, seen: set<Sample>, trip: Interval, samples: seq<Sample>, pts: iset<int>, pts': iset<int>)
    ensures SamplesIn(samples, trip.from, trip.to) && GapPoints(pts, pts', trip) && exists t :: Contains(trip, t) && t !in pts
    ensures Evidence(rows, seen, SQUARE, pts)
    ensures !Evidence(ReplacePasses(rows, trip.from, trip.to, PassesOf(samples, SQUARE)),
                      Reseen(seen, samples, trip.from, trip.to), SQUARE, pts')
    ensures !KeptWithout(rows, seen, SQUARE, pts, [trip], [samples])
  {
    var entry, later := At(100, 0.5), At(250, 0.5);
    rows, seen := map[100 := Extended(Extended(Opened(entry), entry), later)], {entry, later};
    trip, samples := Interval(80, 200), [entry];
    pts, pts' := PointsOf(Interval(90, 260)), PointsOf(Interval(80, 260));
    AtIsInside(100, 0.5);
    AtIsInside(250, 0.5);
    PassesOfOne(entry);
    OneRow(Extended(Opened(entry), entry));
    assert Contains(trip, 85) && 85 !in pts;
    assert Shown(rows, 100, pts) && Shown(rows, 250, pts) by { assert 100 in rows; }
    var after := ReplacePasses(rows, 80, 200, PassesOf(samples, SQUARE));
    assert after == map[100 := Extended(Opened(entry), entry)];
    assert later in Reseen(seen, samples, 80, 200) && 250 in pts' && !Shown(after, 250, pts');
    OneScanKeepsEvidenceIff(rows, seen, SQUARE, pts, pts', trip, samples);
  }

  /**
   A trip window reaches back into covered time and its rescan is interrupted right after the delete: the covered
   sample is shown by nothing any more, and its time stays marked scanned. Completed, the scan would have kept it.
   */
  lemma InterruptedRescanLosesEvidence()
    returns (rows: PassRows, rows': PassRows, seen: set<Sample>, pts: iset<int>, window: Interval, samples: seq<Sample>)
    ensures Evidence(rows, seen, SQUARE, pts) && SamplesIn(samples, window.from, window.to)
    ensures KeptWithout(rows, seen, SQUARE, pts, [window], [samples]) && exists t :: Contains(window, t) && t !in pts
    ensures Partly(rows, rows', window.from, window.to, PassesOf(samples, SQUARE)) && !Evidence(rows', seen, SQUARE, pts)
  {
    var s := At(100, 0.5);
    rows, seen, pts := map[100 := Extended(Opened(s), s)], {s}, PointsOf(Interval(90, 110));
    window, samples := Interval(95, 200), [s];
    AtIsInside(100, 0.5);
    PassesOfOne(s);
    assert Shown(rows, 100, pts) by { assert 100 in rows; }
    assert Contains([window][0], 100) && Contains(window, 150) && 150 !in pts;
    rows' := ReplacePasses(rows, 95, 200, PassesOf(samples, SQUARE)[..0]);
    assert rows' == map[];
    assert s in seen && 100 in pts && !Shown(rows', 100, pts);
  }
}
