/** One detected charging session, the noise filter, and the rule deciding what of a scanned gap is final. */
module ChargingDetection {
  import opened Wrappers
  import opened Intervals

  const MIN_SESSION_DURATION := 5 * 60
  const SETTLE_MARGIN := 2 * 3600 + 15 * 60

  /** endedAt is None where the source holds the zero time. */
  datatype Detected = Detected(
    startedAt: int,
    endedAt: Option<int>,
    ongoing: bool,
    firstEnergyKwh: Option<real>,
    lastEnergyKwh: Option<real>)
  {
    /** Last minus first reading; nothing when an end is missing or the counter went backwards. */
    function AddedEnergyKwh(): (r: Option<real>)
      ensures r.Some? <==> firstEnergyKwh.Some? && lastEnergyKwh.Some? && firstEnergyKwh.value <= lastEnergyKwh.value
      ensures r.Some? ==> firstEnergyKwh.value + r.value == lastEnergyKwh.value
    {
      if firstEnergyKwh.None? || lastEnergyKwh.None? then None
      else
        var d := lastEnergyKwh.value - firstEnergyKwh.value;
        if d < 0.0 then None else Some(d)
    }

    predicate IsNoise() {
      var energy := AddedEnergyKwh();
      // Subtracting from the zero time gives a hugely negative duration.
      var longEnough := endedAt.Some? && endedAt.value - startedAt >= MIN_SESSION_DURATION;
      (energy.None? || energy.value <= 0.0) && !longEnough
    }

    /** May still grow as far as a request with this cutoff can tell. */
    predicate Open(cutoff: int) {
      ongoing || endedAt.None? || endedAt.value > cutoff
    }
  }

  /** Kept are the sessions of five minutes and more, and those whose counter went up. */
  lemma NoiseIff(d: Detected)
    ensures !d.IsNoise() <==>
              || (d.endedAt.Some? && d.endedAt.value - d.startedAt >= 300)
              || (d.firstEnergyKwh.Some? && d.lastEnergyKwh.Some? && d.lastEnergyKwh.value > d.firstEnergyKwh.value)
  {
  }

  function WithoutNoise(sessions: seq<Detected>): (out: seq<Detected>)
    ensures forall d :: d in out <==> d in sessions && !d.IsNoise()
  {
    if sessions == [] then []
    else
      var d, rest := sessions[|sessions| - 1], WithoutNoise(sessions[..|sessions| - 1]);
      assert sessions == sessions[..|sessions| - 1] + [d];
      if d.IsNoise() then rest else rest + [d]
  }

  lemma {:induction false} WithoutNoiseKeepsOrder(sessions: seq<Detected>)
    requires InOrder(sessions)
    ensures InOrder(WithoutNoise(sessions))
  {
    if sessions != [] {
      var init, d := sessions[..|sessions| - 1], sessions[|sessions| - 1];
      WithoutNoiseKeepsOrder(init);
      forall e | e in init ensures e.startedAt < d.startedAt { }
    }
  }

  /** Strictly ordered by start. */
  ghost predicate InOrder(sessions: seq<Detected>) {
    forall i, j :: 0 <= i < j < |sessions| ==> sessions[i].startedAt < sessions[j].startedAt
  }

  /** In order, each one ended before the next begins; only the last may have no end. */
  ghost predicate NonOverlapping(sessions: seq<Detected>) {
    && InOrder(sessions)
    && (forall i :: 0 <= i < |sessions| && sessions[i].endedAt.Some? ==> sessions[i].startedAt <= sessions[i].endedAt.value)
    && forall i, j :: 0 <= i < j < |sessions| ==>
         sessions[i].endedAt.Some? && sessions[i].endedAt.value <= sessions[j].startedAt
  }

  function Min(a: int, b: int): int { if a < b then a else b }
  function Max(a: int, b: int): int { if a < b then b else a }

  /** The cutoff, or the start of the earliest open session when that is sooner. */
  function Limit(sessions: seq<Detected>, cutoff: int): (r: int)
    ensures r <= cutoff
    ensures forall d :: d in sessions && d.Open(cutoff) ==> r <= d.startedAt
    ensures r == cutoff || exists d :: d in sessions && d.Open(cutoff) && d.startedAt == r
  {
    if sessions == [] then cutoff
    else
      var d, rest := sessions[|sessions| - 1], Limit(sessions[..|sessions| - 1], cutoff);
      assert sessions == sessions[..|sessions| - 1] + [d];
      if d.Open(cutoff) then Min(rest, d.startedAt) else rest
  }

  function CoveredTo(sessions: seq<Detected>, gap: Interval, now: int): int {
    var cutoff := now - SETTLE_MARGIN;
    if gap.to <= cutoff then gap.to else Max(gap.from, Limit(sessions, cutoff))
  }

  function StartingBefore(sessions: seq<Detected>, t: int): (out: seq<Detected>)
    ensures forall d :: d in out <==> d in sessions && d.startedAt < t
  {
    if sessions == [] then []
    else
      var d, rest := sessions[|sessions| - 1], StartingBefore(sessions[..|sessions| - 1], t);
      assert sessions == sessions[..|sessions| - 1] + [d];
      if d.startedAt < t then rest + [d] else rest
  }

  function StartingFrom(sessions: seq<Detected>, t: int): (out: seq<Detected>)
    ensures forall d :: d in out <==> d in sessions && d.startedAt >= t
  {
    if sessions == [] then []
    else
      var d, rest := sessions[|sessions| - 1], StartingFrom(sessions[..|sessions| - 1], t);
      assert sessions == sessions[..|sessions| - 1] + [d];
      if d.startedAt < t then rest else rest + [d]
  }

  function Final(sessions: seq<Detected>, gap: Interval, now: int): seq<Detected> {
    if gap.to <= now - SETTLE_MARGIN then sessions else StartingBefore(sessions, CoveredTo(sessions, gap, now))
  }

  function InProgress(sessions: seq<Detected>, gap: Interval, now: int): seq<Detected> {
    if gap.to <= now - SETTLE_MARGIN then [] else StartingFrom(sessions, CoveredTo(sessions, gap, now))
  }

  lemma NextSession(sessions: seq<Detected>, i: nat, t: int)
    requires i < |sessions|
    ensures StartingBefore(sessions[..i + 1], t)
            == if sessions[i].startedAt < t then StartingBefore(sessions[..i], t) + [sessions[i]] else StartingBefore(sessions[..i], t)
    ensures StartingFrom(sessions[..i + 1], t)
            == if sessions[i].startedAt < t then StartingFrom(sessions[..i], t) else StartingFrom(sessions[..i], t) + [sessions[i]]
  {
    TakeNext(sessions, i);
  }

  lemma NextLimit(sessions: seq<Detected>, i: nat, cutoff: int)
    requires i < |sessions|
    ensures Limit(sessions[..i + 1], cutoff)
            == if sessions[i].Open(cutoff) then Min(Limit(sessions[..i], cutoff), sessions[i].startedAt) else Limit(sessions[..i], cutoff)
  {
    TakeNext(sessions, i);
  }

  method SettleGap(sessions: seq<Detected>, gap: Interval, now: int)
    returns (final: seq<Detected>, inProgress: seq<Detected>, coveredTo: int)
    ensures final == Final(sessions, gap, now)
    ensures inProgress == InProgress(sessions, gap, now)
    ensures coveredTo == CoveredTo(sessions, gap, now)
  {
    var cutoff := now - SETTLE_MARGIN;
    if gap.to <= cutoff {
      return sessions, [], gap.to;
    }
    coveredTo := cutoff;
    for i := 0 to |sessions|
      invariant coveredTo == Limit(sessions[..i], cutoff)
    {
      var s := sessions[i];
      NextLimit(sessions, i, cutoff);
      if s.ongoing || s.endedAt.None? || s.endedAt.value > cutoff {
        if s.startedAt < coveredTo {
          coveredTo := s.startedAt;
        }
      }
    }
    assert sessions[..|sessions|] == sessions;
    if coveredTo < gap.from {
      coveredTo := gap.from;
    }
    final, inProgress := [], [];
    for i := 0 to |sessions|
      invariant final == StartingBefore(sessions[..i], coveredTo)
      invariant inProgress == StartingFrom(sessions[..i], coveredTo)
    {
      var s := sessions[i];
      NextSession(sessions, i, coveredTo);
      if s.startedAt < coveredTo {
        final := final + [s];
      } else {
        inProgress := inProgress + [s];
      }
    }
  }

  /** A session is open that is marked so, has no end, or ended less than two hours and a quarter ago. */
  ghost predicate StillOpen(d: Detected, now: int) {
    d.ongoing || d.endedAt.None? || d.endedAt.value > now - 8100
  }

  /**
   A gap that ends two hours and a quarter ago or earlier is covered whole. Any other is covered up to that time or up
   to its first open session, whichever comes first.
   */
  lemma CoveredToIs(sessions: seq<Detected>, gap: Interval, now: int)
    requires gap.from <= gap.to && StartIn(sessions, gap)
    ensures var t := CoveredTo(sessions, gap, now);
            if gap.to <= now - 8100 then t == gap.to
            else && gap.from <= t && (t <= now - 8100 || t == gap.from)
                 && (forall d :: d in sessions && StillOpen(d, now) ==> t <= d.startedAt)
                 && (t == gap.from || t == now - 8100 || exists d :: d in sessions && StillOpen(d, now) && d.startedAt == t)
                 && (t == gap.from ==> now - 8100 <= gap.from || exists d :: d in sessions && StillOpen(d, now) && d.startedAt == t)
  {
    var limit := Limit(sessions, now - 8100);
    forall d ensures StillOpen(d, now) <==> d.Open(now - 8100) { }
    if limit < now - 8100 {
      var d :| d in sessions && d.Open(now - 8100) && d.startedAt == limit;
      assert StillOpen(d, now) && gap.from <= d.startedAt;
    }
  }

  /** The sessions lie in the gap by their starts, as a query of the gap returns them. */
  ghost predicate StartIn(sessions: seq<Detected>, gap: Interval) {
    forall d :: d in sessions ==> gap.from <= d.startedAt <= gap.to
  }

  /** final followed by inProgress is the input again, split at coveredTo, which lies in the gap. */
  lemma {:induction false} SettlePartitions(sessions: seq<Detected>, gap: Interval, now: int)
    requires InOrder(sessions) && gap.from <= gap.to
    ensures Final(sessions, gap, now) + InProgress(sessions, gap, now) == sessions
    ensures gap.from <= CoveredTo(sessions, gap, now) <= gap.to
  {
    if gap.to > now - SETTLE_MARGIN {
      SplitAtTime(sessions, CoveredTo(sessions, gap, now));
    }
  }

  lemma {:induction false} SplitAtTime(sessions: seq<Detected>, t: int)
    requires InOrder(sessions)
    ensures StartingBefore(sessions, t) + StartingFrom(sessions, t) == sessions
  {
    if sessions != [] {
      var init, d := sessions[..|sessions| - 1], sessions[|sessions| - 1];
      SplitAtTime(init, t);
      assert init + [d] == sessions;
      if d.startedAt < t {
        AllBefore(init, t);
        assert StartingBefore(init, t) + [] == StartingBefore(init, t);
      } else {
        assert StartingBefore(init, t) + (StartingFrom(init, t) + [d]) == (StartingBefore(init, t) + StartingFrom(init, t)) + [d];
      }
    }
  }

  lemma {:induction false} AllBefore(sessions: seq<Detected>, t: int)
    requires forall d :: d in sessions ==> d.startedAt < t
    ensures StartingFrom(sessions, t) == []
  {
    if sessions != [] {
      assert sessions[|sessions| - 1] in sessions;
      AllBefore(sessions[..|sessions| - 1], t);
    }
  }

  lemma PartsInOrder(a: seq<Detected>, b: seq<Detected>)
    requires InOrder(a + b)
    ensures InOrder(a) && InOrder(b)
    ensures forall d, e :: d in a && e in b ==> d.startedAt < e.startedAt
  {
    forall i, j | 0 <= i < j < |a| ensures a[i].startedAt < a[j].startedAt {
      assert (a + b)[i] == a[i] && (a + b)[j] == a[j];
    }
    forall i, j | 0 <= i < j < |b| ensures b[i].startedAt < b[j].startedAt {
      assert (a + b)[|a| + i] == b[i] && (a + b)[|a| + j] == b[j];
    }
    forall i, j | 0 <= i < |a| && 0 <= j < |b| ensures a[i].startedAt < b[j].startedAt {
      assert (a + b)[i] == a[i] && (a + b)[|a| + j] == b[j];
    }
  }

  /** No session is still running at t although it began before t. */
  ghost predicate CutsNone(sessions: seq<Detected>, t: int) {
    forall d :: d in sessions && d.startedAt < t ==> d.endedAt.Some? && d.endedAt.value <= t
  }

  /**
   * "Every session starting before coveredTo ends before it" holds outright when the gap reaches past the
   * cutoff. A gap wholly before the cutoff is taken as final without looking at its sessions, and there the
   * statement holds exactly when no session runs past the end of the gap.
   */
  lemma CoveredToCutsNoSession(sessions: seq<Detected>, gap: Interval, now: int)
    requires NonOverlapping(sessions) && StartIn(sessions, gap)
    ensures CutsNone(sessions, CoveredTo(sessions, gap, now)) <==>
              (gap.to > now - SETTLE_MARGIN || CutsNone(sessions, gap.to))
  {
    var cutoff := now - SETTLE_MARGIN;
    var t := CoveredTo(sessions, gap, now);
    if gap.to > cutoff {
      forall d | d in sessions && d.startedAt < t ensures d.endedAt.Some? && d.endedAt.value <= t {
        assert !d.Open(cutoff);
        if t < cutoff && t > gap.from {
          var u :| u in sessions && u.Open(cutoff) && u.startedAt == t;
          var i :| 0 <= i < |sessions| && sessions[i] == d;
          var j :| 0 <= j < |sessions| && sessions[j] == u;
          assert i < j;
        }
      }
    }
  }

  /**
   "In progress, never stored" holds for every open session exactly when the gap reaches past the cutoff or has no
   open session: an older gap is final as a whole, whatever its sessions say of themselves.
   */
  lemma OpenIsInProgressIff(sessions: seq<Detected>, gap: Interval, now: int)
    requires StartIn(sessions, gap)
    ensures (forall d :: d in sessions && d.Open(now - SETTLE_MARGIN) ==> d in InProgress(sessions, gap, now))
            <==> (gap.to > now - SETTLE_MARGIN || forall d :: d in sessions ==> !d.Open(now - SETTLE_MARGIN))
  {
  }

  /** A session marked ongoing, without an end, in a gap before the cutoff: it is final, and past coveredTo. */
  lemma OngoingIsFinal() returns (d: Detected, gap: Interval, now: int)
    ensures d.ongoing && d.endedAt.None? && StartIn([d], gap) && NonOverlapping([d])
    ensures Final([d], gap, now) == [d] && !CutsNone([d], CoveredTo([d], gap, now))
    ensures d !in InProgress([d], gap, now)
  {
    d, gap, now := Detected(0, None, true, None, None), Interval(-10, 10), 10 + SETTLE_MARGIN;
    assert [d][0] in [d];
  }

  /** When the gap reaches past the cutoff, every final session had ended by the cutoff and by coveredTo. */
  lemma FinalSessionsAreSettled(sessions: seq<Detected>, gap: Interval, now: int)
    requires NonOverlapping(sessions) && StartIn(sessions, gap) && gap.to > now - SETTLE_MARGIN
    ensures forall d :: d in Final(sessions, gap, now) ==>
              !d.Open(now - SETTLE_MARGIN) && d.endedAt.value <= CoveredTo(sessions, gap, now)
  {
    CoveredToCutsNoSession(sessions, gap, now);
  }

  /** Waiting never takes coverage back. */
  lemma CoveredToIsMonotone(sessions: seq<Detected>, gap: Interval, now: int, later: int)
    requires gap.from <= gap.to && now <= later
    ensures CoveredTo(sessions, gap, now) <= CoveredTo(sessions, gap, later)
  {
    var c, c' := now - SETTLE_MARGIN, later - SETTLE_MARGIN;
    assert Limit(sessions, c) <= Limit(sessions, c') by {
      if Limit(sessions, c') != c' {
        var d :| d in sessions && d.Open(c') && d.startedAt == Limit(sessions, c');
        assert d.Open(c);
      }
    }
  }
}
