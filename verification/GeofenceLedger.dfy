/**
 The geofence detection tables of one geofence and vehicle. Nothing here is a transaction: every store call can be
 the one that fails, and what was written before it stays.
 */
module GeofenceLedger {
  import opened Wrappers
  import opened Intervals
  import opened LedgerTheory
  import opened LedgerRuns
  import opened Passes
  import opened PassEvidence

  /** The samples fetched for each gap; a fetch that failed found none. */
  ghost function AnswersOf(gaps: seq<Interval>, fetch: Interval -> Option<seq<Sample>>): (answers: seq<seq<Sample>>)
    ensures |answers| == |gaps|
  {
    seq(|gaps|, j requires 0 <= j < |gaps| => if fetch(gaps[j]).Some? then fetch(gaps[j]).value else [])
  }

  ghost predicate FromAnswer(answers: seq<seq<Sample>>, s: Sample) {
    exists j :: 0 <= j < |answers| && s in answers[j]
  }

  ghost predicate AllAnswer(gaps: seq<Interval>, n: nat, fetch: Interval -> Option<seq<Sample>>)
    requires n <= |gaps|
  {
    forall j :: 0 <= j < n ==> fetch(gaps[j]).Some?
  }

  /** The store calls it takes to store what was found in the first n windows: one delete each, one insert a pass. */
  ghost function Cost(found: seq<seq<Pass>>, n: nat): nat
    requires n <= |found|
  {
    if n == 0 then 0 else Cost(found, n - 1) + 1 + |found[n - 1]|
  }

  lemma {:induction false} CostGrows(found: seq<seq<Pass>>, n: nat, m: nat)
    requires n <= m <= |found|
    ensures Cost(found, n) <= Cost(found, m)
  {
    if n < m { CostGrows(found, n, m - 1); }
  }

  lemma NextCost(rings: Rings, gaps: seq<Interval>, answers: seq<seq<Sample>>, n: nat)
    requires n < |gaps| == |answers|
    ensures var found := Found(rings, answers);
            Cost(found, n + 1) == Cost(found, n) + 1 + |PassesOf(answers[n], rings)| && Cost(found, n + 1) <= Cost(found, |gaps|)
  {
    CostGrows(Found(rings, answers), n + 1, |gaps|);
  }

  /** What the gaps of the window add to the coverage. */
  ghost predicate AddsWindow(list: seq<Interval>, cov: Coverage, from: int, to: int) {
    Canonical(list) && forall t :: Covers(list, t) <==> Covered(cov, t) || from <= t < to
  }

  /** Passes and sightings after complete scans of the first n gaps. */
  ghost predicate ScannedTo(rows: PassRows, seen: set<Sample>, rows': PassRows, seen': set<Sample>, rings: Rings,
                            gaps: seq<Interval>, answers: seq<seq<Sample>>, n: nat)
    requires n <= |gaps| && |answers| == |gaps|
  {
    rows' == ReplaceAll(rows, gaps, Found(rings, answers), n) && seen' == ReseenAll(seen, gaps, answers, n)
  }

  /** What has been seen after some of the gaps' answers. */
  ghost predicate SeenTo(seen: set<Sample>, seen': set<Sample>, gaps: seq<Interval>, answers: seq<seq<Sample>>)
    requires |answers| == |gaps|
  {
    exists n: nat :: n <= |gaps| && seen' == ReseenAll(seen, gaps, answers, n)
  }

  lemma NextScanned(rows: PassRows, seen: set<Sample>, rows': PassRows, seen': set<Sample>, rings: Rings,
                    gaps: seq<Interval>, answers: seq<seq<Sample>>, n: nat)
    requires n < |gaps| && |answers| == |gaps| && ScannedTo(rows, seen, rows', seen', rings, gaps, answers, n)
    ensures ScannedTo(rows, seen, ReplacePasses(rows', gaps[n].from, gaps[n].to, PassesOf(answers[n], rings)),
                      Reseen(seen', answers[n], gaps[n].from, gaps[n].to), rings, gaps, answers, n + 1)
  {
  }

  /** The table with the window added marks the old coverage and the gaps, all of it scanned. */
  lemma WindowAdded(cov: Coverage, list: seq<Interval>, from: int, to: int, gaps: seq<Interval>, scanned: iset<int>)
    requires AddsWindow(list, cov, from, to) && GapsIn(gaps, |gaps|, scanned)
    requires forall t :: Covers(gaps, t) <==> from <= t < to && !Covered(cov, t)
    requires forall t :: Covered(cov, t) ==> t in scanned
    ensures Points(TableOf(list)) == WithGaps(Points(cov), gaps, |gaps|)
    ensures forall t :: Covered(TableOf(list), t) <==> Covered(cov, t) || from <= t < to
    ensures forall t :: Covered(TableOf(list), t) ==> t in scanned
  {
    forall t ensures Covered(TableOf(list), t) <==> t in WithGaps(Points(cov), gaps, |gaps|)
             ensures Covered(TableOf(list), t) ==> t in scanned
    {
      assert Covers(list, t) <==> Covered(TableOf(list), t);
      assert Covers(gaps, t) <==> exists j :: 0 <= j < |gaps| && Contains(gaps[j], t);
    }
  }

  /** A coverage rewrite, interrupted anywhere, marks nothing new beyond the list and loses no evidence. */
  lemma PartlyRewritten(rows: PassRows, seen: set<Sample>, rings: Rings, before: Coverage, after: Coverage, list: seq<Interval>)
    requires Canonical(list) && ProperRows(before) && (after == before || SubRows(after, TableOf(list)))
    ensures ProperRows(after)
    ensures forall t :: Covered(after, t) ==> Covered(before, t) || Covered(TableOf(list), t)
    ensures Evidence(rows, seen, rings, Points(before)) && Evidence(rows, seen, rings, Points(TableOf(list))) ==>
              Evidence(rows, seen, rings, Points(after))
  {
    if SubRows(after, TableOf(list)) {
      if Evidence(rows, seen, rings, Points(TableOf(list))) { EvidenceOfSubRows(rows, seen, rings, after, TableOf(list)); }
      forall t | Covered(after, t) ensures Covered(TableOf(list), t) {
        var f :| f in after && f <= t < after[f];
        assert f in TableOf(list) && TableOf(list)[f] == after[f];
      }
    }
  }

  class Fence {
    const rings: Rings
    var passes: PassRows
    /** Scanned ranges, end by start. */
    var coverage: Coverage
    /** Store calls that still get through. */
    var budget: nat
    /** The latest answers, by the time they were asked for. */
    ghost var seen: set<Sample>
    /** The answers the stored passes were taken from. */
    ghost var basis: set<Sample>
    /** Times whose passes have been stored in full. */
    ghost var scanned: iset<int>

    constructor (rings: Rings, budget: nat)
      ensures Sound() && Evidence(passes, seen, rings, Points(coverage))
    {
      this.rings, this.budget := rings, budget;
      passes, coverage, seen, basis, scanned := map[], map[], {}, {}, iset{};
    }

    /** Nothing is marked scanned whose passes were not stored first, and no stored pass is made up. */
    ghost predicate Sound()
      reads this
    {
      ProperRows(coverage) && Grounded(passes, basis, rings) && forall t :: Covered(coverage, t) ==> t in scanned
    }

    method StoreCall() returns (ok: bool)
      modifies this`budget
      ensures ok <==> old(budget) > 0
      ensures budget == if ok then old(budget) - 1 else 0
    {
      if budget == 0 {
        return false;
      }
      budget := budget - 1;
      ok := true;
    }

    /** Replaces the passes entering in [from, to], both ends included, one store call at a time. */
    method PersistPasses(samples: seq<Sample>, from: int, to: int) returns (ok: bool)
      requires SamplesIn(samples, from, to) && Grounded(passes, basis, rings)
      modifies this`passes, this`budget, this`seen, this`basis, this`scanned
      ensures ok <==> old(budget) > |PassesOf(samples, rings)|
      ensures budget == if ok then old(budget) - 1 - |PassesOf(samples, rings)| else 0
      ensures ok ==> passes == ReplacePasses(old(passes), from, to, PassesOf(samples, rings))
                     && seen == Reseen(old(seen), samples, from, to)
                     && scanned == old(scanned) + PointsOf(Interval(from, to))
      ensures !ok ==> seen == old(seen) && scanned == old(scanned)
      ensures Partly(old(passes), passes, from, to, PassesOf(samples, rings))
      ensures forall s :: s in basis ==> s in old(basis) || s in samples
      ensures Grounded(passes, basis, rings)
    {
      var found := DetectPasses(samples, rings);
      WindowPasses(samples, rings, from, to);
      ok := StoreCall();
      if !ok {
        return;
      }
      passes := map e | e in passes && !(from <= e <= to) :: passes[e];
      basis := Rebased(basis, samples, from, to);
      ghost var k;
      ok, k := InsertPasses(found, from, to, old(passes));
      PersistGrounds(old(passes), old(basis), samples, rings, from, to, k);
      assert found[..|found|] == found;
      if ok {
        seen := Reseen(seen, samples, from, to);
        scanned := scanned + PointsOf(Interval(from, to));
      }
    }

    /** The insert loop, after the delete; k of the passes get stored. */
    method InsertPasses(found: seq<Pass>, from: int, to: int, ghost rows: PassRows) returns (ok: bool, ghost k: nat)
      requires PassesIn(found, Interval(from, to)) && passes == ReplacePasses(rows, from, to, [])
      modifies this`passes, this`budget
      ensures ok <==> old(budget) >= |found|
      ensures budget == if ok then old(budget) - |found| else 0
      ensures k <= |found| && passes == ReplacePasses(rows, from, to, found[..k]) && (ok ==> k == |found|)
    {
      k := 0;
      for i := 0 to |found|
        invariant k == i && passes == ReplacePasses(rows, from, to, found[..i]) && budget == old(budget) - i
      {
        NextInsert(rows, from, to, found, i);
        assert found[i] in found;
        ok := StoreCall();
        if !ok || found[i].enteredAt in passes {
          return false, k;
        }
        passes := passes[found[i].enteredAt := found[i]];
        k := k + 1;
      }
      ok := true;
    }

    method CoverageIntervals() returns (ivs: seq<Interval>)
      requires ProperRows(coverage)
      ensures Canonical(ivs) && SameCover(ivs, coverage)
    {
      var list: seq<Interval> := [];
      var todo := coverage.Keys;
      while todo != {}
        invariant todo <= coverage.Keys && Proper(list)
        invariant forall t :: Covers(list, t) <==> exists f :: f in coverage && f !in todo && f <= t < coverage[f]
        decreases todo
      {
        var f := PickAny(todo);
        ghost var was := list;
        list := list + [Interval(f, coverage[f])];
        forall t ensures Covers(list, t) <==> exists g :: g in coverage && g !in todo - {f} && g <= t < coverage[g] {
          CoversConcat(was, [Interval(f, coverage[f])], t);
          SingletonCovers(Interval(f, coverage[f]), t);
        }
        todo := todo - {f};
      }
      ivs := Coalesce(list);
    }

    /** Rewrites the coverage with the window added: cleared first, then inserted range by range. */
    method MergeCoverage(from: int, to: int) returns (ok: bool, ghost list: seq<Interval>)
      requires ProperRows(coverage) && from < to
      modifies this`coverage, this`budget
      ensures AddsWindow(list, old(coverage), from, to)
      ensures ok <==> old(budget) > |list|
      ensures !ok ==> budget == 0
      ensures ok ==> coverage == TableOf(list)
      ensures !ok ==> coverage == old(coverage) || SubRows(coverage, TableOf(list))
    {
      var existing := CoverageIntervals();
      var merged := Coalesce(existing + [Interval(from, to)]);
      MergedCover(existing, merged, coverage, from, to);
      list := merged;
      ok := RewriteCoverage(merged);
    }

    method RewriteCoverage(list: seq<Interval>) returns (ok: bool)
      requires Canonical(list)
      modifies this`coverage, this`budget
      ensures ok <==> old(budget) > |list|
      ensures !ok ==> budget == 0
      ensures ok ==> coverage == TableOf(list)
      ensures !ok ==> coverage == old(coverage) || SubRows(coverage, TableOf(list))
    {
      ok := StoreCall();
      if !ok {
        return;
      }
      coverage := map[];
      for i := 0 to |list|
        invariant Inserted(list, i, coverage) && budget == old(budget) - 1 - i
      {
        NextRange(list, i, coverage);
        ok := StoreCall();
        if !ok || list[i].from in coverage {
          return false;
        }
        coverage := coverage[list[i].from := list[i].to];
      }
      AllInserted(list, coverage);
      ok := true;
    }

    /** Scans what the window leaves uncovered and only then marks the whole window scanned. */
    method EnsureComputed(from: int, to: int, fetch: Interval -> Option<seq<Sample>>) returns (ok: bool, ghost gaps: seq<Interval>)
      requires Sound() && from < to
      requires forall gap :: fetch(gap).Some? ==> SamplesIn(fetch(gap).value, gap.from, gap.to)
      modifies this
      ensures Sound()
      ensures Canonical(gaps) && forall t :: Covers(gaps, t) <==> from <= t < to && !old(Covered(coverage, t))
      ensures ok ==> AllAnswer(gaps, |gaps|, fetch)
      ensures !ok ==> budget == 0 || !AllAnswer(gaps, |gaps|, fetch)
      ensures ok ==> forall t :: Covered(coverage, t) <==> old(Covered(coverage, t)) || from <= t < to
      ensures ok || (exists t :: Covered(coverage, t) && !old(Covered(coverage, t))) ==>
                AllAnswer(gaps, |gaps|, fetch) && passes == ReplaceAll(old(passes), gaps, Found(rings, AnswersOf(gaps, fetch)), |gaps|)
      ensures forall t :: Covered(coverage, t) ==> old(Covered(coverage, t)) || from <= t < to
      ensures forall s :: s in basis ==> s in old(basis) || FromAnswer(AnswersOf(gaps, fetch), s)
      ensures SeenTo(old(seen), seen, gaps, AnswersOf(gaps, fetch))
      ensures ok ==> seen == ReseenAll(old(seen), gaps, AnswersOf(gaps, fetch), |gaps|)
      ensures ok ==> (Evidence(passes, seen, rings, Points(coverage)) <==>
                        KeptWithout(old(passes), old(seen), rings, old(Points(coverage)), gaps, AnswersOf(gaps, fetch)))
      ensures old(Evidence(passes, seen, rings, Points(coverage)) && ClearEnds(passes, coverage, from, to)) ==>
                Evidence(passes, seen, rings, Points(coverage))
    {
      var existing := CoverageIntervals();
      var uncovered := ComputeGaps(existing, from, to);
      gaps := uncovered;
      ghost var answers, pts := AnswersOf(gaps, fetch), Points(coverage);
      assert ReseenAll(seen, gaps, answers, 0) == seen;
      ScansKeepEvidenceIff(passes, seen, rings, pts, gaps, answers);
      ClearEndsSuffice(passes, seen, rings, coverage, from, to, gaps, answers);
      if |uncovered| == 0 {
        forall t | from <= t < to ensures Covered(coverage, t) { assert !Covers(gaps, t); }
        assert WithGaps(pts, gaps, 0) == pts;
        return true, gaps;
      }
      ok := ScanGaps(from, to, uncovered, fetch);
      OldEvidenceStays(old(passes), old(seen), passes, seen, rings, coverage, from, to, gaps);
      if !ok {
        return;
      }
      ok := MarkScanned(from, to, gaps);
    }

    /** Marks the window once its gaps are scanned. */
    method MarkScanned(from: int, to: int, ghost gaps: seq<Interval>) returns (ok: bool)
      requires Sound() && from < to && GapsIn(gaps, |gaps|, scanned)
      requires forall t :: Covers(gaps, t) <==> from <= t < to && !Covered(coverage, t)
      modifies this`coverage, this`budget
      ensures Sound()
      ensures !ok ==> budget == 0
      ensures forall t :: Covered(coverage, t) ==> old(Covered(coverage, t)) || from <= t < to
      ensures ok ==> Points(coverage) == WithGaps(old(Points(coverage)), gaps, |gaps|)
      ensures ok ==> forall t :: Covered(coverage, t) <==> old(Covered(coverage, t)) || from <= t < to
      ensures (Evidence(passes, seen, rings, old(Points(coverage)))
               && Evidence(passes, seen, rings, WithGaps(old(Points(coverage)), gaps, |gaps|)))
              ==> Evidence(passes, seen, rings, Points(coverage))
    {
      ghost var list;
      ok, list := MergeCoverage(from, to);
      WindowAdded(old(coverage), list, from, to, gaps, scanned);
      PartlyRewritten(passes, seen, rings, old(coverage), coverage, list);
    }

    /** The trip path: skips a window one row contains, else scans all of it and records it with an upsert. */
    method TripWindow(from: int, to: int, samples: Option<seq<Sample>>) returns (ok: bool)
      requires Sound() && from < to
      requires samples.Some? ==> SamplesIn(samples.value, from, to)
      modifies this
      ensures Sound()
      ensures ok <==> (exists f :: f in old(coverage) && f <= from && to <= old(coverage)[f])
                      || (samples.Some? && old(budget) > |PassesOf(samples.value, rings)| + 1)
      ensures forall t :: old(Covered(coverage, t)) ==> Covered(coverage, t)
      ensures ok ==> forall t :: Covered(coverage, t) <==> old(Covered(coverage, t)) || from <= t < to
      ensures old(OneRowContains(coverage, from, to)) ==> unchanged(this)
      ensures (exists t :: Covered(coverage, t) && !old(Covered(coverage, t))) ==>
                samples.Some? && passes == ReplacePasses(old(passes), from, to, PassesOf(samples.value, rings))
      ensures forall s :: s in basis ==> s in old(basis) || (samples.Some? && s in samples.value)
      ensures seen == old(seen) || (samples.Some? && seen == Reseen(old(seen), samples.value, from, to))
      ensures ok && !old(OneRowContains(coverage, from, to)) ==> seen == Reseen(old(seen), samples.value, from, to)
      ensures ok && !old(OneRowContains(coverage, from, to)) ==>
                (Evidence(passes, seen, rings, Points(coverage)) <==>
                   KeptWithout(old(passes), old(seen), rings, old(Points(coverage)), [Interval(from, to)], [samples.value]))
    {
      if OneRowContains(coverage, from, to) {
        return true;
      }
      if samples.None? {
        return false;
      }
      ok := PersistPasses(samples.value, from, to);
      if !ok {
        return;
      }
      ok := StoreCall();
      if !ok {
        return;
      }
      forall t { UpsertAddsWindow(coverage, from, to, t); }
      ghost var pts := Points(coverage);
      coverage := coverage[from := to];
      OneScanKeepsEvidenceIff(old(passes), old(seen), rings, pts, Points(coverage), Interval(from, to), samples.value);
    }

    /** The gap loop: stops at the first failure. */
    method ScanGaps(from: int, to: int, gaps: seq<Interval>, fetch: Interval -> Option<seq<Sample>>) returns (ok: bool)
      requires Canonical(gaps) && Grounded(passes, basis, rings)
      requires forall gap :: fetch(gap).Some? ==> SamplesIn(fetch(gap).value, gap.from, gap.to)
      modifies this`passes, this`budget, this`seen, this`basis, this`scanned
      ensures Grounded(passes, basis, rings) && forall t :: t in old(scanned) ==> t in scanned
      ensures ok <==> AllAnswer(gaps, |gaps|, fetch) && old(budget) >= Cost(Found(rings, AnswersOf(gaps, fetch)), |gaps|)
      ensures ok ==> budget == old(budget) - Cost(Found(rings, AnswersOf(gaps, fetch)), |gaps|)
      ensures !ok ==> budget == 0 || !AllAnswer(gaps, |gaps|, fetch)
      ensures ok ==> GapsIn(gaps, |gaps|, scanned)
      ensures ok ==> ScannedTo(old(passes), old(seen), passes, seen, rings, gaps, AnswersOf(gaps, fetch), |gaps|)
      ensures OnlyInside(old(passes), old(seen), passes, seen, gaps)
      ensures SeenTo(old(seen), seen, gaps, AnswersOf(gaps, fetch))
      ensures forall s :: s in basis ==> s in old(basis) || FromAnswer(AnswersOf(gaps, fetch), s)
    {
      ghost var answers := AnswersOf(gaps, fetch);
      for i := 0 to |gaps|
        invariant Grounded(passes, basis, rings) && forall t :: t in old(scanned) ==> t in scanned
        invariant GapsIn(gaps, i, scanned) && AllAnswer(gaps, i, fetch)
        invariant budget == old(budget) - Cost(Found(rings, answers), i)
        invariant ScannedTo(old(passes), old(seen), passes, seen, rings, gaps, answers, i)
        invariant OnlyInside(old(passes), old(seen), passes, seen, gaps)
        invariant forall s :: s in basis ==> s in old(basis) || FromAnswer(answers, s)
      {
        var gap := gaps[i];
        var samples := fetch(gap);
        if samples.None? {
          return false;
        }
        ghost var scannedBefore, rows, sawBefore := scanned, passes, seen;
        NextCost(rings, gaps, answers, i);
        ok := PersistPasses(samples.value, gap.from, gap.to);
        StaysInside(old(passes), old(seen), rows, sawBefore, passes, seen, gaps, i, samples.value, rings);
        if !ok {
          return;
        }
        NextGapScanned(gaps, i, scannedBefore, scanned);
        NextScanned(old(passes), old(seen), rows, sawBefore, rings, gaps, answers, i);
      }
      ok := true;
    }
  }
}
