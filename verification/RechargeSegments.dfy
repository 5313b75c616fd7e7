/** The paged, chunked fetch of one window's recharge segments. */
module RechargeSegments {
  import opened Wrappers
  import opened ChargingDetection
  import opened Detector

  const PAGE_SIZE := 200
  const MAX_PAGES := 10
  const MAX_WINDOW := 31 * 24 * 3600

  /** One page call: window start, window end, cursor. No value when the call fails. */
  type PageFetch = (int, int, Option<int>) -> Option<seq<Detected>>

  /** A page is the oldest PAGE_SIZE segments of the window, which the cursor, when set, moves the start of. */
  ghost predicate IsPage(seen: Readings, from: int, to: int, after: Option<int>, page: seq<Detected>) {
    exists full :: Detects(Window(seen, if after.Some? then Max(from, after.value) else from, to), full)
                   && page == full[..Min(PAGE_SIZE, |full|)]
  }

  ghost predicate Answers(fetch: PageFetch, seen: Readings) {
    forall from, to, after :: fetch(from, to, after).Some? ==> IsPage(seen, from, to, after, fetch(from, to, after).value)
  }

  /** The cursor of page n: none for the first, then the end of the last segment of the pages before. */
  ghost function PageCursor(full: seq<Detected>, n: nat): Option<int>
    requires n * PAGE_SIZE <= |full|
  {
    if n == 0 then None else full[n * PAGE_SIZE - 1].endedAt
  }

  /** Every page call that the chunk's segments take gets through. */
  ghost predicate PagesAnswer(fetch: PageFetch, from: int, to: int, full: seq<Detected>, n: nat) {
    forall i: nat :: i < n && i * PAGE_SIZE <= |full| ==> fetch(from, to, PageCursor(full, i)).Some?
  }

  /** The chunk's segments fit into the pages one chunk may take, and each of these calls gets through. */
  ghost predicate Fetchable(fetch: PageFetch, from: int, to: int, full: seq<Detected>) {
    |full| < PAGE_SIZE * MAX_PAGES && PagesAnswer(fetch, from, to, full, |full| / PAGE_SIZE + 1)
  }

  /** The first page call gets through, and so does the one behind every two hundredth segment. */
  ghost predicate FullPagesAnswer(fetch: PageFetch, from: int, to: int, full: seq<Detected>) {
    fetch(from, to, None).Some? && forall k :: 0 <= k < |full| && k % 200 == 199 ==> fetch(from, to, full[k].endedAt).Some?
  }

  /** A chunk can be fetched when it has fewer than two thousand segments and the calls for them get through. */
  lemma FetchableIff(fetch: PageFetch, from: int, to: int, full: seq<Detected>)
    ensures Fetchable(fetch, from, to, full) <==> |full| < 2000 && FullPagesAnswer(fetch, from, to, full)
  {
    var n := |full| / PAGE_SIZE + 1;
    if PagesAnswer(fetch, from, to, full, n) {
      assert fetch(from, to, PageCursor(full, 0)).Some?;
      forall k | 0 <= k < |full| && k % 200 == 199 ensures fetch(from, to, full[k].endedAt).Some? {
        var i := k / 200 + 1;
        assert i < n && i * PAGE_SIZE <= |full|;
        assert fetch(from, to, PageCursor(full, i)).Some?;
      }
    }
    if FullPagesAnswer(fetch, from, to, full) {
      forall i: nat | i < n && i * PAGE_SIZE <= |full| ensures fetch(from, to, PageCursor(full, i)).Some? {
        assert i > 0 ==> (i * PAGE_SIZE - 1) % 200 == 199;
      }
    }
  }

  ghost predicate ChunkFails(fetch: PageFetch, seen: Readings, from: int, to: int) {
    exists full :: Detects(Window(seen, from, to), full) && !Fetchable(fetch, from, to, full)
  }

  /** The start of the chunk after the first k. */
  ghost function ChunkStart(from: int, k: nat): int {
    if k == 0 then from else ChunkStart(from, k - 1) + MAX_WINDOW
  }

  /** A chunk is thirty-one days. */
  lemma {:induction false} ChunkStartIs(from: int, k: nat)
    ensures ChunkStart(from, k) == from + k * 2678400
  {
    if k > 0 { ChunkStartIs(from, k - 1); }
  }

  ghost function ChunkEnd(from: int, to: int, k: nat): int {
    Min(ChunkStart(from, k) + MAX_WINDOW, to)
  }

  /** A chunk of the window is too full, or a page call it takes fails. */
  ghost predicate FetchFails(fetch: PageFetch, seen: Readings, from: int, to: int) {
    exists k: nat :: ChunkStart(from, k) < to && ChunkFails(fetch, seen, ChunkStart(from, k), ChunkEnd(from, to, k))
  }

  /** segs is the segmentations of the window's consecutive chunks, one after the other. */
  ghost predicate Chunked(seen: Readings, from: int, to: int, segs: seq<Detected>)
    decreases (to - from)
  {
    if from >= to then segs == []
    else exists k :: 0 <= k <= |segs|
                     && Detects(Window(seen, from, Min(from + MAX_WINDOW, to)), segs[..k])
                     && Chunked(seen, from + MAX_WINDOW, to, segs[k..])
  }

  /** Fetches chunk by chunk; gives up when one of them cannot be fetched. */
  method Fetch(fetch: PageFetch, from: int, to: int, ghost seen: Readings) returns (r: Option<seq<Detected>>)
    requires Answers(fetch, seen)
    ensures r.Some? ==> Chunked(seen, from, to, r.value)
    ensures r.None? <==> FetchFails(fetch, seen, from, to)
  {
    var all: seq<Detected> := [];
    var chunkFrom := from;
    ghost var chunk: nat := 0;
    NothingAddedYet(seen, from, to);
    while chunkFrom < to
      invariant chunkFrom == ChunkStart(from, chunk)
      invariant Fetched(fetch, seen, from, to, chunk, all)
      decreases (to - chunkFrom)
    {
      var chunkTo := chunkFrom + MAX_WINDOW;
      if chunkTo > to {
        chunkTo := to;
      }
      ghost var full := SegmentationExists(Window(seen, chunkFrom, chunkTo));
      var segs, pages := FetchChunk(fetch, chunkFrom, chunkTo, seen, full);
      NextChunk(fetch, seen, from, to, chunk, all, full);
      if segs.None? {
        return None;
      }
      all := all + segs.value;
      chunkFrom := chunkFrom + MAX_WINDOW;
      chunk := chunk + 1;
    }
    NoChunkLeft(fetch, seen, from, to, chunk, all);
    return Some(all);
  }

  ghost predicate NoneFails(fetch: PageFetch, seen: Readings, from: int, to: int, n: nat) {
    forall k: nat :: k < n && ChunkStart(from, k) < to ==> !ChunkFails(fetch, seen, ChunkStart(from, k), ChunkEnd(from, to, k))
  }

  lemma ChunkFailsIff(fetch: PageFetch, seen: Readings, from: int, to: int, full: seq<Detected>)
    requires Detects(Window(seen, from, to), full)
    ensures ChunkFails(fetch, seen, from, to) <==> !Fetchable(fetch, from, to, full)
  {
    if other :| Detects(Window(seen, from, to), other) && !Fetchable(fetch, from, to, other) {
      SegmentationIsUnique(Window(seen, from, to), full, other);
    }
  }

  /** The first n chunks are fetched, and none of them failed. */
  ghost predicate Fetched(fetch: PageFetch, seen: Readings, from: int, to: int, n: nat, all: seq<Detected>) {
    Leads(seen, from, ChunkStart(from, n), to, all) && NoneFails(fetch, seen, from, to, n)
  }

  lemma ChunkNotFetched(fetch: PageFetch, seen: Readings, from: int, to: int, n: nat, full: seq<Detected>)
    requires ChunkStart(from, n) < to && Detects(Window(seen, ChunkStart(from, n), ChunkEnd(from, to, n)), full)
    requires !Fetchable(fetch, ChunkStart(from, n), ChunkEnd(from, to, n), full)
    ensures FetchFails(fetch, seen, from, to)
  {
    ChunkFailsIff(fetch, seen, ChunkStart(from, n), ChunkEnd(from, to, n), full);
  }

  lemma ChunkFetched(fetch: PageFetch, seen: Readings, from: int, to: int, n: nat, all: seq<Detected>, full: seq<Detected>)
    requires Fetched(fetch, seen, from, to, n, all) && ChunkStart(from, n) < to
    requires Detects(Window(seen, ChunkStart(from, n), ChunkEnd(from, to, n)), full)
    requires Fetchable(fetch, ChunkStart(from, n), ChunkEnd(from, to, n), full)
    ensures Fetched(fetch, seen, from, to, n + 1, all + full)
  {
    ChunkFailsIff(fetch, seen, ChunkStart(from, n), ChunkEnd(from, to, n), full);
    ChunkAdded(seen, from, ChunkStart(from, n), to, all, full);
    NextFails(fetch, seen, from, to, n);
  }

  lemma NextChunk(fetch: PageFetch, seen: Readings, from: int, to: int, n: nat, all: seq<Detected>, full: seq<Detected>)
    requires Fetched(fetch, seen, from, to, n, all) && ChunkStart(from, n) < to
    requires Detects(Window(seen, ChunkStart(from, n), ChunkEnd(from, to, n)), full)
    ensures if Fetchable(fetch, ChunkStart(from, n), ChunkEnd(from, to, n), full)
            then Fetched(fetch, seen, from, to, n + 1, all + full) else FetchFails(fetch, seen, from, to)
  {
    if Fetchable(fetch, ChunkStart(from, n), ChunkEnd(from, to, n), full) {
      ChunkFetched(fetch, seen, from, to, n, all, full);
    } else {
      ChunkNotFetched(fetch, seen, from, to, n, full);
    }
  }

  lemma NextFails(fetch: PageFetch, seen: Readings, from: int, to: int, n: nat)
    requires ChunkStart(from, n) < to && NoneFails(fetch, seen, from, to, n)
    ensures if ChunkFails(fetch, seen, ChunkStart(from, n), ChunkEnd(from, to, n)) then FetchFails(fetch, seen, from, to)
            else NoneFails(fetch, seen, from, to, n + 1)
  {
  }

  lemma NoChunkLeft(fetch: PageFetch, seen: Readings, from: int, to: int, n: nat, all: seq<Detected>)
    requires Fetched(fetch, seen, from, to, n, all) && ChunkStart(from, n) >= to
    ensures Chunked(seen, from, to, all) && !FetchFails(fetch, seen, from, to)
  {
    assert Chunked(seen, ChunkStart(from, n), to, []) && all + [] == all;
    forall k: nat | k >= n ensures ChunkStart(from, k) >= to { LaterChunk(from, n, k); }
  }

  lemma {:induction false} LaterChunk(from: int, n: nat, k: nat)
    requires n <= k
    ensures ChunkStart(from, n) <= ChunkStart(from, k)
  {
    if n < k { LaterChunk(from, n, k - 1); }
  }

  /** What was fetched up to `at`: followed by the chunks from there on, it is the chunks of the window. */
  ghost predicate Leads(seen: Readings, from: int, at: int, to: int, all: seq<Detected>) {
    forall rest :: Chunked(seen, at, to, rest) ==> Chunked(seen, from, to, all + rest)
  }

  lemma NothingAddedYet(seen: Readings, from: int, to: int)
    ensures Leads(seen, from, from, to, [])
  {
    forall rest | Chunked(seen, from, to, rest) ensures Chunked(seen, from, to, [] + rest) {
      assert [] + rest == rest;
    }
  }

  lemma ChunkAdded(seen: Readings, from: int, at: int, to: int, all: seq<Detected>, segs: seq<Detected>)
    requires Leads(seen, from, at, to, all) && at < to && Detects(Window(seen, at, Min(at + MAX_WINDOW, to)), segs)
    ensures Leads(seen, from, at + MAX_WINDOW, to, all + segs)
  {
    forall rest | Chunked(seen, at + MAX_WINDOW, to, rest) ensures Chunked(seen, from, to, (all + segs) + rest) {
      assert (segs + rest)[..|segs|] == segs && (segs + rest)[|segs|..] == rest;
      assert Chunked(seen, at, to, segs + rest);
      assert all + (segs + rest) == (all + segs) + rest;
    }
  }

  /**
   The page loop of one chunk: succeeds exactly when the chunk's segments fit into ten pages and every page call they
   take gets through, and makes no call beyond these.
   */
  method FetchChunk(fetch: PageFetch, chunkFrom: int, chunkTo: int, ghost seen: Readings, ghost full: seq<Detected>)
    returns (r: Option<seq<Detected>>, ghost pages: nat)
    requires Answers(fetch, seen) && Detects(Window(seen, chunkFrom, chunkTo), full)
    ensures r.Some? <==> Fetchable(fetch, chunkFrom, chunkTo, full)
    ensures r.Some? ==> r.value == full && pages == |full| / PAGE_SIZE + 1
    ensures pages <= MAX_PAGES
  {
    var all: seq<Detected> := [];
    var after: Option<int> := None;
    var page := 0;
    pages := 0;
    while true
      invariant page == pages <= MAX_PAGES && PagesDone(fetch, chunkFrom, chunkTo, full, page, all, after)
      decreases MAX_PAGES - page
    {
      if page == MAX_PAGES {
        return None, pages;
      }
      NextPageDone(fetch, seen, chunkFrom, chunkTo, full, page, all, after);
      var p := fetch(chunkFrom, chunkTo, after);
      pages := pages + 1;
      if p.None? {
        return None, pages;
      }
      var segs := p.value;
      all := all + segs;
      if |segs| < PAGE_SIZE {
        break;
      }
      var last := segs[|segs| - 1].endedAt;
      if last.None? || last == after {
        break;
      }
      after := last;
      page := page + 1;
    }
    return Some(all), pages;
  }

  /** The first pages are fetched and the chunk goes on behind them. */
  ghost predicate PagesDone(fetch: PageFetch, from: int, to: int, full: seq<Detected>, page: nat, all: seq<Detected>, after: Option<int>) {
    Paged(full, page * PAGE_SIZE, all, after) && PagesAnswer(fetch, from, to, full, page)
  }

  /** The next page call fails, completes the chunk, or is one page more and moves the cursor on. */
  lemma NextPageDone(fetch: PageFetch, seen: Readings, from: int, to: int, full: seq<Detected>, page: nat,
                     all: seq<Detected>, after: Option<int>)
    requires Answers(fetch, seen) && Detects(Window(seen, from, to), full)
    requires page < MAX_PAGES && PagesDone(fetch, from, to, full, page, all, after)
    ensures match fetch(from, to, after)
            case None => !Fetchable(fetch, from, to, full)
            case Some(segs) =>
              if |segs| < PAGE_SIZE then all + segs == full && Fetchable(fetch, from, to, full) && page == |full| / PAGE_SIZE
              else && |segs| == PAGE_SIZE && segs[PAGE_SIZE - 1].endedAt.Some? && segs[PAGE_SIZE - 1].endedAt != after
                   && PagesDone(fetch, from, to, full, page + 1, all + segs, segs[PAGE_SIZE - 1].endedAt)
  {
    NextCursor(fetch, from, to, full, page, all, after);
    if fetch(from, to, after).Some? {
      PageAdded(fetch, seen, from, to, full, page * PAGE_SIZE, all, after);
      if |fetch(from, to, after).value| < PAGE_SIZE { LastPage(fetch, from, to, full, page); }
    }
  }

  lemma LastPage(fetch: PageFetch, from: int, to: int, full: seq<Detected>, page: nat)
    requires page < MAX_PAGES && PagesAnswer(fetch, from, to, full, page + 1)
    requires page * PAGE_SIZE <= |full| < page * PAGE_SIZE + PAGE_SIZE
    ensures Fetchable(fetch, from, to, full) && page == |full| / PAGE_SIZE
  {
  }

  /** The next page call is one the chunk takes; when it gets through, that is one page more. */
  lemma NextCursor(fetch: PageFetch, from: int, to: int, full: seq<Detected>, page: nat, all: seq<Detected>, after: Option<int>)
    requires Paged(full, page * PAGE_SIZE, all, after) && PagesAnswer(fetch, from, to, full, page)
    ensures fetch(from, to, after).None? ==> !Fetchable(fetch, from, to, full)
    ensures fetch(from, to, after).Some? ==> PagesAnswer(fetch, from, to, full, page + 1)
  {
    assert after == PageCursor(full, page);
  }

  /** all is the first segments of the chunk, and the cursor is the end of the last of them. */
  ghost predicate Paged(full: seq<Detected>, done: nat, all: seq<Detected>, after: Option<int>) {
    && done <= |full| && all == full[..done]
    && after == if done == 0 then None else full[done - 1].endedAt
  }

  /** A short page completes the chunk; a full one moves the cursor on. */
  lemma PageAdded(fetch: PageFetch, seen: Readings, from: int, to: int, full: seq<Detected>, done: nat,
                  all: seq<Detected>, after: Option<int>)
    requires Answers(fetch, seen) && Detects(Window(seen, from, to), full) && Paged(full, done, all, after)
    requires fetch(from, to, after).Some?
    ensures var segs := fetch(from, to, after).value;
            && |segs| == Min(PAGE_SIZE, |full| - done)
            && (|segs| < PAGE_SIZE ==> all + segs == full)
            && (|segs| == PAGE_SIZE ==> var last := segs[PAGE_SIZE - 1].endedAt;
                                        last.Some? && last != after && Paged(full, done + PAGE_SIZE, all + segs, last))
  {
    var segs := fetch(from, to, after).value;
    PageContinues(seen, from, to, full, done, segs);
    AppendSlice(full, done, |segs|);
    if |segs| == PAGE_SIZE { CursorAdvances(Window(seen, from, to), full, done); }
  }

  /** A page fetched with the end of the last segment so far continues right behind it. */
  lemma PageContinues(seen: Readings, from: int, to: int, full: seq<Detected>, done: nat, page: seq<Detected>)
    requires Detects(Window(seen, from, to), full) && done <= |full|
    requires IsPage(seen, from, to, if done == 0 then None else full[done - 1].endedAt, page)
    ensures |page| == Min(PAGE_SIZE, |full| - done) && page == full[done..done + |page|]
    ensures page != [] ==> page[|page| - 1] == full[done + |page| - 1]
  {
    if done == 0 {
      var rest := RestOfPage(seen, from, to, None, page, from);
      SegmentationIsUnique(Window(seen, from, to), rest, full);
      assert full == full[0..];
    } else {
      assert full[done - 1] in full;
      NextPage(seen, from, to, full, done, full[done - 1].endedAt.value, page);
    }
    SlicePrefix(full, done, |page|);
  }

  lemma NextPage(seen: Readings, from: int, to: int, full: seq<Detected>, done: nat, e: int, page: seq<Detected>)
    requires Detects(Window(seen, from, to), full) && 0 < done <= |full|
    requires from <= e && full[done - 1].endedAt == Some(e) && IsPage(seen, from, to, Some(e), page)
    ensures |page| == Min(PAGE_SIZE, |full| - done) && page == full[done..][..|page|]
  {
    var rest := RestOfPage(seen, from, to, Some(e), page, e);
    ResumeAtEnd(seen, from, to, full, done - 1, e, rest);
  }

  lemma RestOfPage(seen: Readings, from: int, to: int, after: Option<int>, page: seq<Detected>, start: int)
    returns (rest: seq<Detected>)
    requires IsPage(seen, from, to, after, page)
    requires start == if after.Some? then Max(from, after.value) else from
    ensures Detects(Window(seen, start, to), rest) && |page| == Min(PAGE_SIZE, |rest|) && page == rest[..|page|]
  {
    rest :| Detects(Window(seen, start, to), rest) && page == rest[..Min(PAGE_SIZE, |rest|)];
  }

  lemma SlicePrefix(full: seq<Detected>, done: nat, n: nat)
    requires done + n <= |full|
    ensures full[done..][..n] == full[done..done + n]
    ensures n > 0 ==> full[done..done + n][n - 1] == full[done + n - 1]
  {
  }

  lemma AppendSlice(full: seq<Detected>, done: nat, n: nat)
    requires done + n <= |full|
    ensures full[..done] + full[done..done + n] == full[..done + n]
    ensures full[..|full|] == full
  {
  }

  lemma CursorAdvances(m: Readings, full: seq<Detected>, done: nat)
    requires Detects(m, full) && done + PAGE_SIZE <= |full|
    ensures full[done + PAGE_SIZE - 1].endedAt.Some?
    ensures done > 0 ==> full[done - 1].endedAt.Some? && full[done - 1].endedAt.value < full[done + PAGE_SIZE - 1].endedAt.value
  {
    var a, b := full[done - 1 + (if done == 0 then 1 else 0)], full[done + PAGE_SIZE - 1];
    assert a in full && b in full;
    SessionsMeet(m, a.startedAt, a.endedAt.value, b.startedAt, b.endedAt.value);
  }

  /** No session of m is under way at a chunk boundary of the window. */
  ghost predicate ChunksCutNone(m: Readings, from: int, to: int)
    decreases (to - from)
  {
    from + MAX_WINDOW < to ==> !Spanned(m, from + MAX_WINDOW) && ChunksCutNone(m, from + MAX_WINDOW, to)
  }

  /**
   * Fetching by chunks gives every segment of the window exactly once, oldest first, if and only if no chunk
   * boundary falls inside one of its sessions.
   */
  lemma {:induction false} ChunkedIsWhole(seen: Readings, from: int, to: int, segs: seq<Detected>)
    requires Chunked(seen, from, to, segs)
    ensures Detects(Window(seen, from, to), segs) <==> ChunksCutNone(Window(seen, from, to), from, to)
    decreases (to - from)
  {
    var w := Window(seen, from, to);
    if from >= to {
      assert forall a, b :: !IsSession(w, a, b);
    } else {
      var e := from + MAX_WINDOW;
      var k :| 0 <= k <= |segs| && Detects(Window(seen, from, Min(e, to)), segs[..k]) && Chunked(seen, e, to, segs[k..]);
      assert segs == segs[..k] + segs[k..];
      if e >= to {
        assert segs[k..] == [];
      } else {
        ChunkedIsWhole(seen, e, to, segs[k..]);
        FirstChunk(seen, from, to, segs[..k], segs[k..]);
      }
    }
  }

  lemma FirstChunk(seen: Readings, from: int, to: int, s1: seq<Detected>, s2: seq<Detected>)
    requires from + MAX_WINDOW < to && Detects(Window(seen, from, from + MAX_WINDOW), s1)
    requires Chunked(seen, from + MAX_WINDOW, to, s2)
    requires Detects(Window(seen, from + MAX_WINDOW, to), s2)
             <==> ChunksCutNone(Window(seen, from + MAX_WINDOW, to), from + MAX_WINDOW, to)
    ensures Detects(Window(seen, from, to), s1 + s2) <==> ChunksCutNone(Window(seen, from, to), from, to)
  {
    var e := from + MAX_WINDOW;
    ChunkedInside(seen, e, to, s2);
    if Spanned(Window(seen, from, to), e) {
      CutSessionIsLost(seen, from, e, to, s1, s2);
    } else {
      BoundariesAgree(seen, from, e, to, e);
      WholeByParts(seen, from, e, to, s1, s2);
    }
  }

  /** A session across a chunk boundary is reported by neither side. */
  lemma CutSessionIsLost(seen: Readings, from: int, e: int, to: int, s1: seq<Detected>, s2: seq<Detected>)
    requires Spanned(Window(seen, from, to), e)
    requires Detects(Window(seen, from, e), s1) && forall d :: d in s2 ==> e <= d.startedAt
    ensures !Detects(Window(seen, from, to), s1 + s2)
  {
    var a, b :| IsSession(Window(seen, from, to), a, b) && a < e < b;
    assert Segment(Window(seen, from, to), a, b) !in s1 + s2;
  }

  lemma {:induction false} ChunkedInside(seen: Readings, from: int, to: int, segs: seq<Detected>)
    requires Chunked(seen, from, to, segs)
    ensures (forall d :: d in segs ==> from <= d.startedAt)
    decreases (to - from)
  {
    if from < to {
      var k :| 0 <= k <= |segs| && Detects(Window(seen, from, Min(from + MAX_WINDOW, to)), segs[..k])
               && Chunked(seen, from + MAX_WINDOW, to, segs[k..]);
      ChunkedInside(seen, from + MAX_WINDOW, to, segs[k..]);
      assert segs == segs[..k] + segs[k..];
    }
  }

  lemma WholeByParts(seen: Readings, from: int, e: int, to: int, s1: seq<Detected>, s2: seq<Detected>)
    requires from <= e <= to && !Spanned(Window(seen, from, to), e)
    requires Detects(Window(seen, from, e), s1) && forall d :: d in s2 ==> e <= d.startedAt
    ensures Detects(Window(seen, from, to), s1 + s2) <==> Detects(Window(seen, e, to), s2)
  {
    var w, w2 := Window(seen, from, to), Window(seen, e, to);
    forall a, b { SplitWindow(seen, from, e, to, a, b); }
    if Detects(w, s1 + s2) {
      PartsInOrder(s1, s2);
      forall a, b | IsSession(w2, a, b) ensures Segment(w2, a, b) in s2 {
        assert Segment(w, a, b) in s1 + s2;
      }
    }
    if Detects(w2, s2) {
      forall i, j | 0 <= i < |s1| && 0 <= j < |s2| ensures s1[i].startedAt < s2[j].startedAt {
        assert s1[i] in s1 && s2[j] in s2;
      }
    }
  }

  lemma {:induction false} BoundariesAgree(seen: Readings, from: int, e: int, to: int, at: int)
    requires from <= e <= at && e <= to && !Spanned(Window(seen, from, to), e)
    ensures ChunksCutNone(Window(seen, from, to), at, to) <==> ChunksCutNone(Window(seen, e, to), at, to)
    decreases (to - at)
  {
    if at + MAX_WINDOW < to {
      forall a, b { SplitWindow(seen, from, e, to, a, b); }
      BoundariesAgree(seen, from, e, to, at + MAX_WINDOW);
    }
  }
}
