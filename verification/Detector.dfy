/**
 The recharge segmentation the ledger reads from, as far as this repository relies on it: readings at most two
 hours apart belong to one session, a query folds the readings inside its window only, and a reading may become
 visible up to fifteen minutes late. Readings never change once taken.
 */
module Detector {
  import opened Wrappers
  import opened ChargingDetection

  const FOLD_GAP := 2 * 3600
  const LATENESS := 15 * 60

  /** Charging readings by time, each with the energy counter when it was reported. */
  type Readings = map<int, Option<real>>

  /** Another reading follows x within the fold gap. */
  ghost predicate Continues(m: Readings, x: int) {
    exists t :: t in m && x < t <= x + FOLD_GAP
  }

  ghost predicate Chained(m: Readings, a: int, b: int) {
    forall x :: a <= x < b ==> Continues(m, x)
  }

  /** A session: two readings or more, never further than the fold gap apart, and quiet on both sides. */
  ghost predicate IsSession(m: Readings, a: int, b: int) {
    && a in m && b in m && a < b
    && Chained(m, a, b)
    && !Continues(m, b)
    && !Continues(m, a - FOLD_GAP - 1)
  }

  /** Some session of m is under way on both sides of e. */
  ghost predicate Spanned(m: Readings, e: int) {
    exists a, b :: IsSession(m, a, b) && a < e < b
  }

  function FirstEnergy(m: Readings, a: int, b: int): Option<real>
    decreases b - a
  {
    if a > b then None else if a in m && m[a].Some? then m[a] else FirstEnergy(m, a + 1, b)
  }

  function LastEnergy(m: Readings, a: int, b: int): Option<real>
    decreases b - a
  {
    if a > b then None else if b in m && m[b].Some? then m[b] else LastEnergy(m, a, b - 1)
  }

  /** The session from a to b as it is reported: its last reading is its end, and it is never marked ongoing. */
  function Segment(m: Readings, a: int, b: int): Detected {
    Detected(a, Some(b), false, FirstEnergy(m, a, b), LastEnergy(m, a, b))
  }

  /** segs is the segmentation of m: its sessions, each once, oldest first. */
  ghost predicate Detects(m: Readings, segs: seq<Detected>) {
    && InOrder(segs)
    && (forall d :: d in segs ==> d.endedAt.Some? && IsSession(m, d.startedAt, d.endedAt.value)
                                  && d == Segment(m, d.startedAt, d.endedAt.value))
    && (forall a, b :: IsSession(m, a, b) ==> Segment(m, a, b) in segs)
  }

  /** The readings a query of the closed window [from, to] works on. */
  function Window(m: Readings, from: int, to: int): (w: Readings)
    ensures forall t :: t in w <==> t in m && from <= t <= to
    ensures forall t :: t in w ==> w[t] == m[t]
  {
    map t | t in m && from <= t <= to :: m[t]
  }

  /** What a query may see of all readings that will ever arrive: everything up to h, and any of the rest. */
  ghost predicate View(all: Readings, seen: Readings, h: int) {
    && (forall t :: t in seen ==> t in all && all[t] == seen[t])
    && (forall t :: t in all && t <= h ==> t in seen)
  }

  lemma SessionsApart(m: Readings, a: int, b: int, a': int, b': int)
    requires IsSession(m, a, b) && IsSession(m, a', b') && a <= a'
    ensures (a == a' && b == b') || b + FOLD_GAP < a'
  {
    if a == a' {
      assert b < b' ==> Continues(m, b);
      assert b' < b ==> Continues(m, b');
    } else {
      var x := a' - FOLD_GAP - 1;
      assert a <= x < b ==> Continues(m, x);
      assert x < a <= x + FOLD_GAP ==> Continues(m, x);
    }
  }

  lemma SegmentationsAreNonOverlapping(m: Readings, segs: seq<Detected>)
    requires Detects(m, segs)
    ensures NonOverlapping(segs)
  {
    forall i, j | 0 <= i < j < |segs| ensures segs[i].endedAt.Some? && segs[i].endedAt.value <= segs[j].startedAt {
      SessionsApart(m, segs[i].startedAt, segs[i].endedAt.value, segs[j].startedAt, segs[j].endedAt.value);
    }
  }

  /** Ordered lists with the same members are the same list. */
  lemma {:induction false} SameMembersSameList(a: seq<Detected>, b: seq<Detected>)
    requires InOrder(a) && InOrder(b) && forall d :: d in a <==> d in b
    ensures a == b
  {
    assert a == [] || a[0] in a;
    assert b == [] || b[0] in b;
    if a != [] && b != [] {
      HeadIsLeast(a);
      HeadIsLeast(b);
      assert a[0] in b && b[0] in a;
      SameMembersSameList(a[1..], b[1..]);
      assert a == [a[0]] + a[1..] && b == [b[0]] + b[1..];
    }
  }

  lemma SegmentationIsUnique(m: Readings, a: seq<Detected>, b: seq<Detected>)
    requires Detects(m, a) && Detects(m, b)
    ensures a == b
  {
    SameMembersSameList(a, b);
  }

  lemma HeadIsLeast(a: seq<Detected>)
    requires InOrder(a) && a != []
    ensures forall d :: d in a ==> d == a[0] || a[0].startedAt < d.startedAt
    ensures forall d :: d in a[1..] <==> d in a && d != a[0]
  {
    assert a == [a[0]] + a[1..];
  }

  lemma {:induction false} EnergyAgrees(m: Readings, m': Readings, a: int, b: int)
    requires forall t :: a <= t <= b ==> (t in m <==> t in m') && (t in m ==> m[t] == m'[t])
    ensures FirstEnergy(m, a, b) == FirstEnergy(m', a, b)
    ensures LastEnergy(m, a, b) == LastEnergy(m', a, b)
    decreases b - a
  {
    if a <= b {
      EnergyAgrees(m, m', a + 1, b);
      EnergyAgrees(m, m', a, b - 1);
    }
  }

  // ---- sessions exist: every chain of readings lies in one ----

  lemma {:induction false} ChainEnd(m: Readings, p: int) returns (b: int)
    requires p in m
    ensures p <= b && b in m && Chained(m, p, b) && !Continues(m, b)
    decreases |set t | t in m && t > p|
  {
    if Continues(m, p) {
      var t :| t in m && p < t <= p + FOLD_GAP;
      SubsetSmaller((set s | s in m && s > t), (set s | s in m && s > p), t);
      b := ChainEnd(m, t);
      forall x | p <= x < b ensures Continues(m, x) { if x < t { assert t in m && x < t <= x + FOLD_GAP; } }
    } else {
      b := p;
    }
  }

  lemma {:induction false} ChainStart(m: Readings, p: int) returns (a: int)
    requires p in m
    ensures a <= p && a in m && Chained(m, a, p) && !Continues(m, a - FOLD_GAP - 1)
    decreases |set t | t in m && t < p|
  {
    if Continues(m, p - FOLD_GAP - 1) {
      var t :| t in m && p - FOLD_GAP - 1 < t <= p - 1;
      SubsetSmaller((set s | s in m && s < t), (set s | s in m && s < p), t);
      a := ChainStart(m, t);
      forall x | a <= x < p ensures Continues(m, x) { if t <= x { assert p in m && x < p <= x + FOLD_GAP; } }
    } else {
      a := p;
    }
  }

  lemma SubsetSmaller(a: set<int>, b: set<int>, x: int)
    requires a <= b && x in b && x !in a
    ensures |a| < |b|
  {
    assert |b| == |a| + |b - a| by { assert b == a + (b - a); }
    assert x in b - a;
  }

  lemma ChainLiesInSession(m: Readings, p: int, q: int) returns (a: int, b: int)
    requires p in m && q in m && p < q && Chained(m, p, q)
    ensures IsSession(m, a, b) && a <= p && q <= b
  {
    a := ChainStart(m, p);
    b := ChainEnd(m, q);
  }

  lemma ChainSpans(m: Readings, p: int, e: int, q: int)
    requires p in m && q in m && p < e < q && Chained(m, p, q)
    ensures Spanned(m, e)
  {
    var a, b := ChainLiesInSession(m, p, q);
  }

  // ---- the settle margin ----

  lemma ContinuesIsMonotone(m: Readings, m': Readings, x: int)
    requires (forall t :: t in m ==> t in m') && Continues(m, x)
    ensures Continues(m', x)
  {
  }

  /**
   * Two hours and fifteen minutes are enough: with readings less than fifteen minutes late, what a request at `now`
   * reports as ended by the cutoff is exactly what all readings, whenever they arrive, say had ended by then.
   */
  lemma SettleMarginIsSound(all: Readings, seen: Readings, now: int, a: int, b: int)
    requires View(all, seen, now - 15 * 60) && b <= now - (2 * 3600 + 15 * 60)
    ensures IsSession(seen, a, b) <==> IsSession(all, a, b)
    ensures IsSession(all, a, b) ==> Segment(seen, a, b) == Segment(all, a, b)
  {
    if IsSession(seen, a, b) {
      forall x | a <= x < b ensures Continues(all, x) { ContinuesIsMonotone(seen, all, x); }
      assert Continues(all, b) ==> Continues(seen, b);
      assert Continues(all, a - FOLD_GAP - 1) ==> Continues(seen, a - FOLD_GAP - 1);
    }
    if IsSession(all, a, b) {
      forall x | a <= x < b ensures Continues(seen, x) {
        assert Continues(all, x);
        var t :| t in all && x < t <= x + FOLD_GAP;
        assert t <= now - LATENESS;
        assert t in seen;
      }
      EnergyAgrees(all, seen, a, b);
    }
  }

  /** Any less would not do: a session that seems over at its cutoff is extended by a reading that is on time. */
  lemma SettleMarginIsTight(margin: int) returns (all: Readings, seen: Readings, now: int, a: int, b: int)
    requires margin < 2 * 3600 + 15 * 60
    ensures View(all, seen, now - 15 * 60) && b <= now - margin
    ensures IsSession(seen, a, b) && !IsSession(all, a, b)
  {
    now, a := SETTLE_MARGIN, 0;
    b := now - Max(margin, LATENESS);
    seen := map[a := None, b := None];
    all := seen[b + FOLD_GAP := None];
    forall x | a <= x < b ensures Continues(seen, x) { assert b in seen; }
    assert Continues(all, b) by { assert b + FOLD_GAP in all; }
  }

  // ---- windows ----

  /** What a query of a window reports, it reports as ended inside the window. */
  lemma AnswersEndInside(seen: Readings, from: int, to: int, segs: seq<Detected>)
    requires Detects(Window(seen, from, to), segs)
    ensures CutsNone(segs, to)
  {
  }

  /** A whole session inside the window is reported as it is, when all of it is visible. */
  lemma WindowKeeps(all: Readings, seen: Readings, h: int, from: int, to: int, a: int, b: int)
    requires View(all, seen, h) && IsSession(all, a, b) && from <= a && b <= to && b <= h
    ensures IsSession(Window(seen, from, to), a, b)
    ensures Segment(Window(seen, from, to), a, b) == Segment(all, a, b)
  {
    var w := Window(seen, from, to);
    forall x | a <= x < b ensures Continues(w, x) {
      assert Continues(all, x);
      var t :| t in all && x < t <= x + FOLD_GAP;
      var u := if t <= b then t else b;
      assert u in w && x < u <= x + FOLD_GAP;
    }
    if Continues(w, b) { ContinuesIsMonotone(w, all, b); }
    if Continues(w, a - FOLD_GAP - 1) { ContinuesIsMonotone(w, all, a - FOLD_GAP - 1); }
    EnergyAgrees(all, w, a, b);
  }

  lemma ChainInWindow(all: Readings, seen: Readings, h: int, from: int, to: int, a: int, b: int)
    requires View(all, seen, h) && Chained(Window(seen, from, to), a, b)
    ensures Chained(all, a, b)
  {
    forall x | a <= x < b ensures Continues(all, x) { ContinuesIsMonotone(Window(seen, from, to), all, x); }
  }

  /** A reading just before the window would put a session across its start. */
  lemma NothingBeforeWindow(all: Readings, from: int, t: int, a: int, b: int)
    requires t in all && a in all && b in all && a - FOLD_GAP <= t < from <= a < b && Chained(all, a, b)
    ensures Spanned(all, from)
  {
    forall x | t <= x < b ensures Continues(all, x) { if x < a { assert a in all && x < a <= x + FOLD_GAP; } }
    ChainSpans(all, t, from, b);
  }

  /** A reading just after the window would put a session across its end. */
  lemma NothingAfterWindow(all: Readings, to: int, t: int, a: int, b: int)
    requires t in all && a in all && b in all && a < b <= to < t <= b + FOLD_GAP && Chained(all, a, b)
    ensures Spanned(all, to)
  {
    forall x | a <= x < t ensures Continues(all, x) { if b <= x { assert t in all && x < t <= x + FOLD_GAP; } }
    ChainSpans(all, a, to, t);
  }

  /** The window's end leaves settled sessions alone: no session spans it, or it is as recent as h. */
  ghost predicate EndsClear(all: Readings, to: int, h: int) {
    to >= h || !Spanned(all, to)
  }

  /** What a window reports as ended by the cutoff is a session of all readings when its edges cut none. */
  lemma WindowIsTrue(all: Readings, seen: Readings, h: int, from: int, to: int, a: int, b: int)
    requires View(all, seen, h) && IsSession(Window(seen, from, to), a, b) && b <= h - FOLD_GAP
    requires !Spanned(all, from) && EndsClear(all, to, h)
    ensures IsSession(all, a, b)
    ensures Segment(Window(seen, from, to), a, b) == Segment(all, a, b)
  {
    var w := Window(seen, from, to);
    ChainInWindow(all, seen, h, from, to, a, b);
    if Continues(all, b) {
      var t :| t in all && b < t <= b + FOLD_GAP;
      assert t in seen && t !in w;
      NothingAfterWindow(all, to, t, a, b);
    }
    if Continues(all, a - FOLD_GAP - 1) {
      var t :| t in all && a - FOLD_GAP - 1 < t <= a - 1;
      assert t in seen && t !in w;
      NothingBeforeWindow(all, from, t, a, b);
    }
    forall t | a <= t <= b ensures t in w <==> t in all { if t in all { assert t in seen; } }
    EnergyAgrees(all, w, a, b);
  }

  /**
   * For settled sessions and edges that cut none, a window query is keyed by starts: it reports, whole and
   * unchanged, exactly the sessions that start inside it.
   */
  lemma WindowIsStartKeyed(all: Readings, seen: Readings, now: int, from: int, to: int, a: int, b: int)
    requires View(all, seen, now - LATENESS) && b <= now - SETTLE_MARGIN
    requires !Spanned(all, from) && EndsClear(all, to, now - LATENESS)
    ensures IsSession(Window(seen, from, to), a, b) <==> IsSession(all, a, b) && from <= a < to
  {
    if IsSession(Window(seen, from, to), a, b) {
      WindowIsTrue(all, seen, now - LATENESS, from, to, a, b);
    }
    if IsSession(all, a, b) && from <= a < to {
      assert b <= to;
      WindowKeeps(all, seen, now - LATENESS, from, to, a, b);
    }
  }

  // ---- a detector: one backward fold over the reading times ----

  ghost predicate Ascending(ts: seq<int>) {
    forall i, j :: 0 <= i < j < |ts| ==> ts[i] < ts[j]
  }

  /** A chain: one reading or more, never further than the fold gap apart, and quiet on both sides. */
  ghost predicate IsChain(m: Readings, a: int, b: int) {
    a in m && b in m && a <= b && Chained(m, a, b) && !Continues(m, b) && !Continues(m, a - FOLD_GAP - 1)
  }

  /** The chains of the reading times as (first, last) pairs, oldest first. */
  function Runs(ts: seq<int>): (rs: seq<(int, int)>)
    ensures |rs| == 0 <==> ts == []
    ensures ts != [] ==> rs[0].0 == ts[0]
  {
    if ts == [] then []
    else
      var rs := Runs(ts[1..]);
      if rs != [] && ts[1] - ts[0] <= FOLD_GAP then [(ts[0], rs[0].1)] + rs[1..] else [(ts[0], ts[0])] + rs
  }

  /** Reports the chains of two readings or more. */
  function Fold(m: Readings, runs: seq<(int, int)>): (segs: seq<Detected>) {
    if runs == [] then []
    else (if runs[0].0 < runs[0].1 then [Segment(m, runs[0].0, runs[0].1)] else []) + Fold(m, runs[1..])
  }

  ghost predicate ChainsInOrder(rs: seq<(int, int)>) {
    forall i, j :: 0 <= i < j < |rs| ==> rs[i].0 < rs[j].0
  }

  /** A reading before all others joins the first chain or makes one of its own. */
  lemma PrependReading(m: Readings, m': Readings, t0: int, a: int, b: int)
    requires t0 in m && m' == (map t | t in m && t != t0 :: m[t]) && forall t :: t in m' ==> t > t0
    ensures a != t0 ==> (IsChain(m, a, b) <==> IsChain(m', a, b) && a - t0 > FOLD_GAP)
    ensures IsChain(m, t0, t0) <==> !Continues(m', t0)
  {
    assert forall t :: t in m ==> t == t0 || t in m';
    forall x | x >= t0 ensures Continues(m, x) <==> Continues(m', x) {
      if t :| t in m && x < t <= x + FOLD_GAP { assert t in m'; }
    }
    if a > t0 {
      var x := a - FOLD_GAP - 1;
      assert Continues(m, x) <==> Continues(m', x) || x < t0 <= x + FOLD_GAP by {
        if t :| t in m && x < t <= x + FOLD_GAP { assert t == t0 || t in m'; }
      }
    }
    assert !Continues(m, t0 - FOLD_GAP - 1);
  }

  lemma PrependToFirstRun(m: Readings, m': Readings, t0: int, t1: int, b: int)
    requires t0 in m && m' == (map t | t in m && t != t0 :: m[t]) && t1 in m' && t0 < t1
    requires forall t :: t in m' ==> t >= t1
    ensures b > t0 ==> (IsChain(m, t0, b) <==> IsChain(m', t1, b) && t1 - t0 <= FOLD_GAP)
    ensures Continues(m', t0) <==> t1 - t0 <= FOLD_GAP
  {
    assert forall t :: t in m ==> t == t0 || t in m';
    forall x | x >= t0 ensures Continues(m, x) <==> Continues(m', x) {
      if t :| t in m && x < t <= x + FOLD_GAP { assert t in m'; }
    }
    assert !Continues(m, t0 - FOLD_GAP - 1) && !Continues(m', t1 - FOLD_GAP - 1);
    if b > t0 && IsChain(m, t0, b) {
      assert Continues(m, t0);
    }
    if IsChain(m', t1, b) && t1 - t0 <= FOLD_GAP {
      forall x | t0 <= x < b ensures Continues(m, x) { if x < t1 { assert x < t1 <= x + FOLD_GAP; } }
    }
  }

  lemma ReplaceHead(rest: seq<(int, int)>, p: (int, int), r: (int, int))
    requires ChainsInOrder(rest) && rest != []
    ensures r in [p] + rest[1..] <==> r == p || (r in rest && r.0 != rest[0].0)
    ensures r.0 == rest[0].0 ==> (r in rest <==> r == rest[0])
  {
    assert rest == [rest[0]] + rest[1..];
    assert forall i :: 0 < i < |rest| ==> rest[0].0 < rest[i].0;
  }

  lemma OneRunStep(m: Readings, m': Readings, t0: int, t1: int, rest: seq<(int, int)>, a: int, b: int)
    requires t0 in m && m' == (map t | t in m && t != t0 :: m[t]) && t1 in m' && t0 < t1
    requires forall t :: t in m' ==> t >= t1
    requires ChainsInOrder(rest) && rest != [] && rest[0].0 == t1
    requires (a, b) in rest <==> IsChain(m', a, b)
    requires (t1, b) in rest <==> IsChain(m', t1, b)
    ensures t1 - t0 <= FOLD_GAP ==> ((a, b) in [(t0, rest[0].1)] + rest[1..] <==> IsChain(m, a, b))
    ensures t1 - t0 > FOLD_GAP ==> ((a, b) in [(t0, t0)] + rest <==> IsChain(m, a, b))
  {
    PrependReading(m, m', t0, a, b);
    PrependToFirstRun(m, m', t0, t1, b);
    ReplaceHead(rest, (t0, rest[0].1), (a, b));
    ReplaceHead(rest, (t0, rest[0].1), (t1, b));
    assert IsChain(m', a, b) ==> a >= t1;
    assert IsChain(m, t0, b) ==> b >= t0;
    assert IsChain(m', t1, b) ==> b >= t1;
    assert a > t1 && !Continues(m', a - FOLD_GAP - 1) ==> t1 <= a - FOLD_GAP - 1;
    assert IsChain(m, a, b) ==> a in m;
  }

  ghost predicate ListsRuns(m: Readings, rs: seq<(int, int)>) {
    ChainsInOrder(rs) && forall a, b :: (a, b) in rs <==> IsChain(m, a, b)
  }

  lemma RunsStep(m: Readings, m': Readings, t0: int, t1: int, rest: seq<(int, int)>)
    requires t0 in m && m' == (map t | t in m && t != t0 :: m[t]) && t1 in m' && t0 < t1
    requires forall t :: t in m' ==> t >= t1
    requires ListsRuns(m', rest) && rest != [] && rest[0].0 == t1
    ensures ListsRuns(m, if t1 - t0 <= FOLD_GAP then [(t0, rest[0].1)] + rest[1..] else [(t0, t0)] + rest)
  {
    forall a, b
      ensures t1 - t0 <= FOLD_GAP ==> ((a, b) in [(t0, rest[0].1)] + rest[1..] <==> IsChain(m, a, b))
      ensures t1 - t0 > FOLD_GAP ==> ((a, b) in [(t0, t0)] + rest <==> IsChain(m, a, b))
    {
      OneRunStep(m, m', t0, t1, rest, a, b);
    }
  }

  lemma SingleRun(m: Readings, t0: int)
    requires forall t :: t in m <==> t == t0
    ensures ListsRuns(m, [(t0, t0)])
  {
    assert !Continues(m, t0) && !Continues(m, t0 - FOLD_GAP - 1);
  }

  lemma {:induction false} RunsAreRuns(m: Readings, ts: seq<int>)
    requires Ascending(ts) && forall t :: t in m <==> t in ts
    ensures ListsRuns(m, Runs(ts))
  {
    if |ts| == 1 {
      SingleRun(m, ts[0]);
    } else if |ts| > 1 {
      var m' := map t | t in m && t != ts[0] :: m[t];
      WithoutFirst(m, m', ts);
      RunsAreRuns(m', ts[1..]);
      RunsStep(m, m', ts[0], ts[1], Runs(ts[1..]));
    }
  }

  lemma WithoutFirst(m: Readings, m': Readings, ts: seq<int>)
    requires Ascending(ts) && |ts| >= 2 && forall t :: t in m <==> t in ts
    requires m' == map t | t in m && t != ts[0] :: m[t]
    ensures Ascending(ts[1..]) && (forall t :: t in m' <==> t in ts[1..])
    ensures ts[0] in m && ts[1] in m' && forall t :: t in m' ==> t >= ts[1]
  {
    assert ts == [ts[0]] + ts[1..];
    assert ts[1] in ts && ts[0] in ts;
  }

  lemma {:induction false} FoldReports(m: Readings, runs: seq<(int, int)>)
    requires ChainsInOrder(runs)
    ensures InOrder(Fold(m, runs))
    ensures forall d :: d in Fold(m, runs) <==> exists r :: r in runs && r.0 < r.1 && d == Segment(m, r.0, r.1)
  {
    if runs != [] {
      FoldReports(m, runs[1..]);
      var rest := Fold(m, runs[1..]);
      assert runs == [runs[0]] + runs[1..];
      forall i | 0 <= i < |rest| ensures runs[0].0 < rest[i].startedAt {
        assert rest[i] in rest;
      }
      forall d ensures d in Fold(m, runs) <==> exists r :: r in runs && r.0 < r.1 && d == Segment(m, r.0, r.1) {
        if r :| r in runs && r.0 < r.1 && d == Segment(m, r.0, r.1) { assert r == runs[0] || r in runs[1..]; }
      }
    }
  }

  /** The fold is a detector: what the ledger assumes of one can be met, for any readings. */
  lemma FoldDetects(m: Readings, ts: seq<int>)
    requires Ascending(ts) && forall t :: t in m <==> t in ts
    ensures Detects(m, Fold(m, Runs(ts)))
  {
    RunsAreRuns(m, ts);
    FoldReports(m, Runs(ts));
    forall a, b | IsSession(m, a, b) ensures Segment(m, a, b) in Fold(m, Runs(ts)) {
      assert IsChain(m, a, b);
      assert (a, b) in Runs(ts) && (a, b).0 < (a, b).1;
    }
  }

  lemma {:induction false} SortedTimes(times: set<int>) returns (ts: seq<int>)
    ensures Ascending(ts) && forall t :: t in ts <==> t in times
  {
    if times == {} {
      ts := [];
    } else {
      var least := Least(times);
      var later := times - {least};
      var rest := SortedTimes(later);
      assert forall t :: t in times ==> t == least || t in later;
      assert forall i :: 0 <= i < |rest| ==> rest[i] in rest;
      ts := [least] + rest;
    }
  }

  lemma {:induction false} Least(times: set<int>) returns (least: int)
    requires times != {}
    ensures least in times && forall t :: t in times ==> least <= t
  {
    var x := SomeMember(times);
    var rest := times - {x};
    assert forall t :: t in times ==> t == x || t in rest;
    least := x;
    if rest != {} {
      var other := Least(rest);
      least := Min(x, other);
    }
  }

  lemma SegmentationExists(m: Readings) returns (segs: seq<Detected>)
    ensures Detects(m, segs)
  {
    var ts := SortedTimes(m.Keys);
    FoldDetects(m, ts);
    segs := Fold(m, Runs(ts));
  }

  /** A window split where no session is under way is segmented part by part. */
  lemma SplitWindow(seen: Readings, from: int, e: int, to: int, a: int, b: int)
    requires from <= e <= to && !Spanned(Window(seen, from, to), e)
    ensures IsSession(Window(seen, from, to), a, b) <==>
              IsSession(Window(seen, from, e), a, b) || IsSession(Window(seen, e, to), a, b)
    ensures IsSession(Window(seen, from, e), a, b) ==> Segment(Window(seen, from, e), a, b) == Segment(Window(seen, from, to), a, b)
    ensures IsSession(Window(seen, e, to), a, b) ==> Segment(Window(seen, e, to), a, b) == Segment(Window(seen, from, to), a, b)
  {
    var w, w1, w2 := Window(seen, from, to), Window(seen, from, e), Window(seen, e, to);
    if IsSession(w, a, b) {
      var part := if b <= e then w1 else w2;
      forall x | a <= x < b ensures Continues(part, x) {
        assert Continues(w, x);
        var t :| t in w && x < t <= x + FOLD_GAP;
        var u := if t <= b then t else b;
        assert u in part && x < u <= x + FOLD_GAP;
      }
      assert Continues(part, b) ==> Continues(w, b);
      assert Continues(part, a - FOLD_GAP - 1) ==> Continues(w, a - FOLD_GAP - 1);
    }
    if IsSession(w1, a, b) {
      forall x | a <= x < b ensures Continues(w, x) { ContinuesIsMonotone(w1, w, x); }
      if t :| t in w && b < t <= b + FOLD_GAP && t !in w1 { NothingAfterWindow(w, e, t, a, b); }
      assert Continues(w, a - FOLD_GAP - 1) ==> Continues(w1, a - FOLD_GAP - 1);
      EnergyAgrees(w1, w, a, b);
    }
    if IsSession(w2, a, b) {
      forall x | a <= x < b ensures Continues(w, x) { ContinuesIsMonotone(w2, w, x); }
      if t :| t in w && a - FOLD_GAP <= t < a && t !in w2 { NothingBeforeWindow(w, e, t, a, b); }
      assert Continues(w, b) ==> Continues(w2, b);
      EnergyAgrees(w2, w, a, b);
    }
  }

  /** A query resumed at a session's end reports exactly the later sessions, unchanged. */
  lemma ResumeAtEnd(seen: Readings, from: int, to: int, full: seq<Detected>, k: nat, e: int, rest: seq<Detected>)
    requires Detects(Window(seen, from, to), full) && k < |full| && full[k].endedAt == Some(e)
    requires Detects(Window(seen, e, to), rest)
    ensures rest == full[k + 1..]
  {
    LaterSessions(Window(seen, from, to), full, k);
    ResumedSessions(seen, from, to, full, full[k], rest);
    SameMembersSameList(rest, full[k + 1..]);
  }

  lemma LaterSessions(m: Readings, full: seq<Detected>, k: nat)
    requires Detects(m, full) && k < |full|
    ensures InOrder(full[k + 1..])
    ensures forall d :: d in full[k + 1..] <==> d in full && d.startedAt > full[k].endedAt.value
  {
    SegmentationsAreNonOverlapping(m, full);
    assert full[k] in full;
    forall d | d in full ensures d in full[k + 1..] <==> d.startedAt > full[k].endedAt.value {
      var i :| 0 <= i < |full| && full[i] == d;
      if i > k {
        assert full[k + 1..][i - k - 1] == d;
        SessionsMeet(m, full[k].startedAt, full[k].endedAt.value, d.startedAt, d.endedAt.value);
      } else {
        assert d.startedAt <= full[k].startedAt;
      }
    }
  }

  lemma ResumedSessions(seen: Readings, from: int, to: int, full: seq<Detected>, last: Detected, rest: seq<Detected>)
    requires Detects(Window(seen, from, to), full) && last in full
    requires Detects(Window(seen, last.endedAt.value, to), rest)
    ensures forall d :: d in rest <==> d in full && d.startedAt > last.endedAt.value
  {
    var e := last.endedAt.value;
    var w, w2 := Window(seen, from, to), Window(seen, e, to);
    forall a, b | IsSession(w, a, b) ensures !(a < e < b) { SessionsMeet(w, last.startedAt, e, a, b); }
    assert Continues(w2, e) ==> Continues(w, e);
    forall d | d in rest ensures d in full && d.startedAt > e {
      SplitWindow(seen, from, e, to, d.startedAt, d.endedAt.value);
    }
    forall d | d in full && d.startedAt > e ensures d in rest {
      SplitWindow(seen, from, e, to, d.startedAt, d.endedAt.value);
    }
  }

  lemma SessionsMeet(m: Readings, a: int, b: int, a': int, b': int)
    requires IsSession(m, a, b) && IsSession(m, a', b')
    ensures (a == a' && b == b') || b < a' || b' < a
  {
    if a <= a' { SessionsApart(m, a, b, a', b'); } else { SessionsApart(m, a', b', a, b); }
  }
}
