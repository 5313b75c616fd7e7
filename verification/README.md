# Fleet Lite: a verified model

This project models the parts of the Fleet Lite backend that keep state or decide access, and proves what their
comments promise. `dafny verify dfyconfig.toml` checks all of it.

## What is modelled

**The charging ledger** (`Intervals`, `ChargingDetection`, `Detector`, `Charges`, `RechargeSegments`, `LedgerTheory`,
`LedgerRuns`, `LedgerReads`, `LedgerHazards`, `ChargingLedger`). Charging sessions are found by scanning telemetry on
demand; the finished ones are stored, and a coverage table remembers which time was scanned. The two tables are a
cache, and the main results say that it is invisible:

- `LedgerRuns.RunsAreSafe` and `RunsStoreCharges`: in every state that concurrent requests can reach, the stored rows
  are exactly the sessions starting in covered time that lasted five minutes or whose counter rose, each once, with its
  last reading as its end and the rise as its energy, and no covered point is later than the newest request's time
  minus the settle margin.
- `ChargingLedger.Tables.Sessions`: from any such state one request answers what a direct scan of its whole window
  would have answered: every such session once, by start, marked in progress exactly when it may still grow.
- `Detector.SettleMarginIsSound` and `SettleMarginIsTight`: two hours and fifteen minutes are enough, and nothing
  shorter is.

The segmentation service is not an oracle with assumed laws. `Detector` defines it from the readings themselves:
readings at most two hours apart belong to one session, a query folds only the readings inside its window, and a
reading may become visible up to fifteen minutes late. That a window query returns whole sessions keyed by their
start, that what had ended by the cutoff never changes, and that a detector with these properties exists (a fold over
the reading times) are all lemmas. What remains assumed is named in predicates: `LedgerRuns.ClearWindow` (the edges of
a requested window cut no session and start none; a recent end needs no promise), `Detector.View` (readings are never
more than fifteen minutes late and never change), and `LedgerRuns.Records` (gaps are recorded in the order of the
requests' clocks, because the gaps are computed before the vehicle's lock is taken, and a gap longer than 31 days has
no session under way where its fetch is divided, `LedgerRuns.ChunksClear`; a shorter gap needs no such promise). For
each of these but the lateness, `LedgerHazards` has a run in which it fails and a session is lost; for the lateness,
`Detector.SettleMarginIsTight` shows that none can be spared.

**Geofences** (`Polygon`, `Passes`, `PassEvidence`, `GeofenceLedger`, `GeofenceHazards`). The ray-casting test over
exact coordinates, which for a triangle is its three half-planes and for any ring the parity of a fan of triangles; the
sweep that turns samples into passes; and the second ledger, which has no transaction: every store call may be the one
that fails. Evidence means that every sample inside the fence, seen at a time marked scanned, is shown by a stored
pass; `PassEvidence.ScansKeepEvidenceIff` says exactly when scanning keeps it.

**Fleet scope** (`TokenLists`, `GroupIndex`, `VehicleScope`, `VehicleMerge`, `Slug`). The inverted index of groups,
the intersection that decides which vehicles a caller sees, the entitlement sync and its diff tool, the two left joins
behind the vehicle list, and group ids, the same for two names exactly when their words are, up to case.

**Memberships in two stores** (`Membership`, `TenancyDiff`, `Text`). The write-through with a failure allowed at any
store call, and the diff tool as a decision of the access order.

`Sorting` and `Wrappers` hold what several of these use.

Time is whole seconds as `int`; intervals are half-open. Tables are maps keyed as their primary keys are; a table
scan visits rows in an unspecified order. Store and network failures are parameters.

## Where the code falls short of its comments

The code is modelled as it is. Each of these is a theorem with its exact condition and a concrete input that fails.

1. The delete in a rescanned gap includes the gap's end. A session that starts exactly where covered time starts is
   deleted when the time before it is scanned and is not found again (`LedgerTheory.RecordedIsExactIff`,
   `LedgerHazards.StartAtEdgeLosesSession`). A pass that enters there is replaced by one that ends with the gap
   (`PassEvidence.OneScanKeepsEvidenceIff`, `GeofenceHazards.ParkedAtEdgeLosesEvidence`).
2. The lock orders the writes of two requests but not their clocks. A request with an older clock that records last
   deletes finished rows and leaves their time marked scanned: its coveredTo is not later than a row in its gap
   (`LedgerTheory.RecordedIsExactIff`, `LedgerHazards.LateRecordLosesSession`).
3. A session that is marked ongoing or has no end "is never stored" (charging_detection.go:109-111), but in a gap that
   ends before the cutoff it is final (`ChargingDetection.OpenIsInProgressIff`, `OngoingIsFinal`), and coverage then
   stops inside it (`ChargingDetection.CoveredToCutsNoSession`). Queries as they answer today never return such a
   session (`Detector.AnswersEndInside`).
4. A window longer than 31 days is fetched in chunks, and a session under way at a chunk boundary is not among the
   segments returned (`RechargeSegments.ChunkedIsWhole`, `LedgerHazards.LongGapLosesSession`).
5. The trip path rescans a whole window even where part of it is covered, without a transaction. Interrupted after
   its delete, it loses passes whose time stays marked scanned (`PassEvidence.InterruptionsKeepEvidenceIff`,
   `GeofenceHazards.InterruptedRescanLosesEvidence`).
6. Completed, it shortens a pass that goes on after the trip in covered time (`PassEvidence.OneScanKeepsEvidenceIff`,
   `GeofenceHazards.CutPassLosesEvidence`).
7. A failed read of the local row passes for a missing membership. An edit restricting an owner then reaches the
   shared record (`Membership.OwnerLimitedIff`), and the retry refuses the edit without repairing it
   (`Membership.ScopeRetryConvergesIff`, `OwnerIsLimitedAnyway`, against member_writethrough.go:15-16).
8. A scope edit without a local role replaces a shared label outside owner, admin and member by "member", although
   the comment at member_writethrough.go:110 says that it survives (`Membership.LabelSurvivesIff`,
   `ViewerBecomesMember`).

## Model

| member | source | states |
|---|---|---|
| Intervals.Coalesce | api/internal/service/geofence_detection.go:531-549 | keeps the union of its input, yields sorted, strictly separated intervals, and leaves a coalesced list alone |
| Intervals.CanonicalUnique | api/internal/service/geofence_detection.go:531-549 | two coalesced lists with the same union are the same list |
| Intervals.CanonicalEdges | api/internal/service/geofence_detection.go:531-549 | every interval of a coalesced list is maximal: the points just outside it are uncovered |
| Intervals.SortKeepsUnion | api/internal/service/geofence_detection.go:536 | sorting by start changes neither the union nor properness |
| Intervals.ComputeGaps | api/internal/service/geofence_detection.go:551-581 | the gaps of a window are exactly its uncovered points, as sorted maximal non-empty intervals |
| Intervals.GapEdges | api/internal/service/geofence_detection.go:551-581 | a gap is uncovered, and starts and ends at the window's edge or next to covered time |
| Intervals.NoGapsAfterMerge | api/internal/service/geofence_detection.go:468-529 | after the window was added to the coverage, it has no gap left |
| ChargingDetection.Detected.AddedEnergyKwh | api/internal/service/charging_detection.go:48-62 | there is an energy if and only if both readings are there and the last is not below the first; first plus energy is last |
| ChargingDetection.NoiseIff | api/internal/service/charging_detection.go:91-103 | kept is exactly what lasted 300 seconds or more or whose last counter reading exceeds its first |
| ChargingDetection.WithoutNoise | api/internal/service/charging_detection_service.go:116-125 | keeps exactly the sessions that are no noise |
| ChargingDetection.WithoutNoiseKeepsOrder | api/internal/service/charging_detection_service.go:116-125 | filtering keeps the sessions ordered by start |
| ChargingDetection.Limit | api/internal/service/charging_detection.go:122-129 | the largest point not past the cutoff that no still-open session starts before |
| ChargingDetection.SettleGap | api/internal/service/charging_detection.go:117-141 | the loops compute the specified split of a gap's sessions and the specified coveredTo |
| ChargingDetection.SettlePartitions | api/internal/service/charging_detection.go:105-141 | final followed by inProgress is the input again, and coveredTo lies in the gap |
| ChargingDetection.CoveredToIs | api/internal/service/charging_detection.go:117-132 | 8100 seconds old, a gap is covered whole; any other up to 8100 seconds ago or its first open session, and no further back than its start |
| ChargingDetection.CoveredToCutsNoSession | api/internal/service/charging_detection.go:115-120 | every session starting before coveredTo ends by it, if and only if the gap reaches past the cutoff or no session runs past its end |
| ChargingDetection.OpenIsInProgressIff | api/internal/service/charging_detection.go:108-113 | every open session is in progress if and only if the gap reaches past the cutoff or has no open session |
| ChargingDetection.OngoingIsFinal | api/internal/service/charging_detection.go:117-121 | an ongoing session without an end in an old gap is final, and coverage stops inside it |
| ChargingDetection.FinalSessionsAreSettled | api/internal/service/charging_detection.go:108-116 | in a gap that reaches past the cutoff, every final session had ended by the cutoff and by coveredTo |
| ChargingDetection.CoveredToIsMonotone | api/internal/service/charging_detection.go:117-132 | with a later clock, coveredTo is never earlier |
| Detector.SessionsApart | api/internal/service/charging_detection.go:20-25 | two different sessions are more than the fold gap apart |
| Charges.FoldGapIsTwoHours | api/internal/service/charging_detection.go:20-25 | two readings are one session if and only if they are at most 7200 seconds apart |
| Charges.FirstEnergyIs | api/internal/service/charging_detection.go:78-79 | the first energy of a session is its earliest reported counter value, and there is one if any was reported |
| Charges.LastEnergyIs | api/internal/service/charging_detection.go:78-79 | the last energy of a session is its latest reported counter value |
| Charges.SegmentEnergy | api/internal/service/charging_detection.go:48-103 | from the readings alone: a reported session is kept if and only if it lasted 300 seconds or its counter rose between its first and last report, and its energy is that rise |
| Detector.SegmentationsAreNonOverlapping | api/internal/service/charging_detection.go:115-116 | the sessions of a query never overlap |
| Detector.SegmentationIsUnique | api/internal/service/telemetry_api.go:563-566 | readings have at most one segmentation |
| Detector.AnswersEndInside | api/internal/service/charging_detection.go:112-116 | whatever a query of a window reports had ended by the end of the window |
| Detector.FoldDetects | api/internal/service/charging_detection.go:20-25 | folding readings at most two hours apart yields the segmentation, so one exists for any readings |
| Detector.RunsAreRuns | api/internal/service/charging_detection.go:20-25 | the fold over ascending reading times lists exactly the maximal chains |
| Detector.SettleMarginIsSound | api/internal/service/charging_detection.go:16-26 | what a request reports as ended two hours and fifteen minutes ago is what all readings, whenever they arrive, say had ended by then |
| Detector.SettleMarginIsTight | api/internal/service/charging_detection.go:16-26 | for any shorter margin there are readings, all on time, that change a session already taken as settled |
| Detector.WindowKeeps | api/internal/service/charging_detection_service.go:55-60 | a visible session inside the window is reported whole and unchanged |
| Detector.WindowIsTrue | api/internal/service/charging_detection_service.go:55-60 | a settled session reported for a window whose edges cut none is a session of all readings, with the same energy |
| Detector.WindowIsStartKeyed | api/internal/service/charging_detection_service.go:47-60 | such a window reports exactly the settled sessions that start inside it |
| Detector.SplitWindow | api/internal/service/telemetry_api.go:553-585 | a window split where no session is under way is segmented part by part |
| Detector.ResumeAtEnd | api/internal/service/telemetry_api.go:568-570 | detection resumed at the end of a segment reports exactly the segments after it |
| RechargeSegments.FetchChunk | api/internal/service/telemetry_api.go:586-606 | succeeds if and only if the chunk has fewer than 2000 segments and every page call they take gets through; then it returns the full segmentation and has made just those calls, never more than ten |
| RechargeSegments.FetchableIff | api/internal/service/telemetry_api.go:545-606 | a chunk can be fetched if and only if it has fewer than 2000 segments, its first page call gets through and so does the one behind every 200th segment |
| RechargeSegments.ChunkStartIs | api/internal/service/telemetry_api.go:553-581 | chunk k starts k times 31 days after the window does |
| RechargeSegments.NextPageDone | api/internal/service/telemetry_api.go:587-605 | the next page call fails, completes the chunk, or is one full page more and moves the cursor on |
| RechargeSegments.PageAdded | api/internal/service/telemetry_api.go:592-604 | a short page completes the chunk; after a full one the cursor has moved and the pages are still a prefix |
| RechargeSegments.PageContinues | api/internal/service/telemetry_api.go:563-570 | a page asked for with the end of the last segment continues right behind it, leaving out and repeating nothing |
| RechargeSegments.CursorAdvances | api/internal/service/telemetry_api.go:600-604 | the cursor after a full page is set and strictly later than the one before |
| RechargeSegments.Fetch | api/internal/service/telemetry_api.go:571-608 | terminates with the segmentations of the chunks that tile the window, and fails if and only if one of them is too full or a page call it takes fails |
| RechargeSegments.ChunkedIsWhole | api/internal/service/telemetry_api.go:553-570 | the chunks' segments are every segment of the window exactly once, oldest first, if and only if no session is under way at a chunk boundary |
| RechargeSegments.CutSessionIsLost | api/internal/service/telemetry_api.go:553-585 | a session across a chunk boundary is reported by neither chunk |
| LedgerTheory.FinalIsTrue | api/internal/service/charging_detection.go:108-116 | a session a gap stores is one of all readings that will ever arrive, unchanged, so noise that could still grow is never dropped |
| LedgerTheory.SettledStartsEarly | api/internal/service/charging_detection.go:108-113 | a settled session starting in the gap starts before coveredTo |
| LedgerTheory.RunningIsSeen | api/internal/service/charging_detection.go:109-111 | a session running past the cutoff is seen as open and so stops coverage at its start |
| LedgerTheory.StartsBeforeCoveredTo | api/internal/service/charging_detection.go:115-116 | every session starting in the part of the gap that becomes covered is final |
| LedgerTheory.CoveredToIsClear | api/internal/service/charging_detection.go:110-116 | coverage never stops in the middle of a session |
| LedgerTheory.InsertedRows | api/internal/service/charging_detection_service.go:224-244 | the rows a gap inserts are exactly the sessions starting in the part that becomes covered, in final form |
| LedgerTheory.RecordedIsExactIff | api/internal/service/charging_detection_service.go:142-173 | recording a gap keeps the tables exact if and only if no stored row starts between coveredTo and the gap's end, that end included |
| LedgerTheory.RecordKeepsInv | api/internal/service/charging_detection_service.go:142-173 | a gap recorded in order with clear edges keeps the whole ledger invariant |
| LedgerTheory.ExactStoresCharges | api/internal/service/charging_detection_service.go:142-173 | what an exact table stores, from the readings alone: a row exactly for each covered start of a session of 300 seconds or with a risen counter, holding its last reading as end and its rise as energy |
| LedgerTheory.NewEdges | api/internal/service/charging_detection_service.go:200-222 | after a merge every coverage edge is an old edge or an edge of the added range |
| LedgerTheory.CanonicalIsTidy | api/internal/service/charging_detection_service.go:200-222 | the rewritten table holds disjoint, non-touching ranges with the coalesced list's union |
| LedgerTheory.MergedCover | api/internal/service/charging_detection_service.go:200-208 | coalescing the table with one more range covers exactly both |
| LedgerRuns.GapEdgesClear | api/internal/service/charging_detection_service.go:47-60 | the edges of every gap of a clear window cut no session |
| LedgerRuns.FetchIsScan | api/internal/service/charging_detection_service.go:55-68 | what the chunks of a gap return is a scan of the whole gap, when they cut no session |
| LedgerRuns.StepKeepsInv | api/internal/service/charging_detection_service.go:142-173 | every step of such interleaved requests keeps the invariant |
| LedgerRuns.RunsAreSafe | api/internal/service/charging_detection_service.go:142-173 | along every run of interleaved requests that record in clock order, with chunked fetches that cut no session, the rows are exactly the final sessions starting in covered time, and nothing after the newest cutoff is covered |
| LedgerRuns.RunsStoreCharges | api/internal/service/charging_detection_service.go:142-173 | the same runs without a word on how sessions are judged: rows exactly for the covered starts of sessions of 300 seconds or with a risen counter, each with its end and energy |
| LedgerHazards.LateRecordLosesSession | api/internal/service/charging_detection_service.go:49-69 | two requests ask, the one with the newer clock records, then the other: steps of a run but for the order, after which a finished session is lost |
| LedgerHazards.StartAtEdgeLosesSession | api/internal/service/charging_detection_service.go:229-236 | a request whose window starts with a session, then one for a longer window: steps of a run but for the first window's edge, after which the closed-ended delete has removed the session |
| LedgerHazards.LongGapLosesSession | api/internal/service/telemetry_api.go:580-585 | a request for two months whose chunks cut a session: a step of a run but for that, after which the session is covered and not stored |
| LedgerReads.StoredIsDirect | api/internal/service/charging_detection_service.go:246-262 | the stored rows of a completed window are exactly the settled part of a direct scan |
| LedgerReads.LiveGapIsLast | api/internal/service/charging_detection_service.go:55-83 | only the window's last gap can reach past the cutoff, so only it can have sessions in progress |
| LedgerReads.LiveIsDirect | api/internal/service/charging_detection_service.go:68-82 | that gap's sessions from coveredTo on are exactly the unsettled part of a direct scan |
| LedgerReads.NothingLive | api/internal/service/charging_detection_service.go:68-82 | without such a gap a direct scan has nothing in progress either |
| LedgerReads.DirectScanReports | api/internal/service/charging_detection_service.go:47-100 | a direct scan is an account of the readings: exactly the sessions of 300 seconds or with a risen counter, each with start, end and energy, in progress if and only if it ended less than 8100 seconds ago |
| LedgerReads.RunningIsUncovered | api/internal/service/charging_detection.go:109-111 | nothing behind the start of a session still running at the cutoff is covered |
| LedgerReads.GapIsReached | api/internal/service/charging_detection.go:117-132 | a scanned gap is covered up to the cutoff or the first session still running then |
| ChargingLedger.Tables.CoverageIntervals | api/internal/service/charging_detection_service.go:175-189 | the table's ranges as a coalesced list with the same union |
| ChargingLedger.Tables.UncoveredGaps | api/internal/service/charging_detection_service.go:191-198 | lists exactly the maximal uncovered ranges of the window |
| ChargingLedger.GapIsListed | api/internal/service/charging_detection_service.go:191-198 | a list of maximal ranges with the uncovered points misses no maximal uncovered range |
| ChargingLedger.Tables.MergeCoverage | api/internal/service/charging_detection_service.go:200-222 | the new table covers exactly the old coverage and the range, is disjoint, and its inserts never collide |
| ChargingLedger.Tables.PersistSessions | api/internal/service/charging_detection_service.go:224-244 | rows starting in the closed gap are replaced by the given sessions; inserts collide only outside order or gap |
| ChargingLedger.Tables.RecordGap | api/internal/service/charging_detection_service.go:142-173 | both tables change as specified or neither changes |
| ChargingLedger.Tables.ReadSessions | api/internal/service/charging_detection_service.go:246-262 | exactly the rows starting in the closed window, by start |
| ChargingLedger.Tables.ScanGap | api/internal/service/charging_detection_service.go:56-83 | succeeds if and only if the gap's fetch and its transaction do; then it changes the tables as specified, else nothing; the invariant stays |
| ChargingLedger.Tables.ScanGaps | api/internal/service/charging_detection_service.go:55-83 | succeeds if and only if every gap does; then every settled session of the window is covered and live is the direct scan's unsettled part; a failure leaves a valid ledger |
| ChargingLedger.Tables.Sessions | api/internal/service/charging_detection_service.go:47-100 | fails if and only if a gap's fetch or transaction does; else it answers exactly the window's sessions of 300 seconds or more or with a risen counter, with start, end and energy as the readings have them, in progress if and only if they ended less than 8100 seconds ago; of the window exactly the time before that and before the first session still running is then covered, outside it nothing changes, and the invariant stays either way |
| ChargingLedger.Tables.ReadBack | api/internal/service/charging_detection_service.go:85-99 | stored and live rows together are the direct scan, by start |
| ChargingLedger.AssembleDirect | api/internal/service/charging_detection_service.go:89-98 | the settled and unsettled parts make up the direct scan, the settled ones first |
| ChargingLedger.LiveRowsOfGap | api/internal/service/charging_detection_service.go:72-82 | the live rows of a gap are its non-noise sessions from coveredTo on, by start |
| ChargingLedger.LiveRowsAre | api/internal/service/charging_detection_service.go:72-82 | a live row for exactly the sessions in progress of 300 seconds or with a risen counter; one without an end is measured until, and shown as ending, now |
| Sorting.SortedAlready | api/internal/service/charging_detection_service.go:98 | a stable sort leaves an ordered list alone |
| Sorting.SortOrders | api/internal/service/vehicle_metadata.go:143-154 | pairwise comparable elements are put in order by any transitive comparison |
| Polygon.RayCast | api/internal/service/geofence_detection.go:676-688 | the loop decides the parity of ring edges crossed by the ray, and never divides by zero |
| Polygon.PointInPolygon | api/internal/service/geofence_detection.go:660-674 | inside the outer ring and outside every hole |
| Polygon.RotationInvariant | api/internal/service/geofence_detection.go:676-688 | where a ring starts does not matter |
| Polygon.ClosingInvariant | api/internal/service/geofence_detection.go:641-658 | repeating the first position at the end does not matter |
| Polygon.ReversalInvariant | api/internal/service/geofence_detection.go:676-688 | the direction of a ring does not matter |
| Polygon.CrossesBothWays | api/internal/service/geofence_detection.go:681-685 | an edge is crossed whichever end comes first |
| Polygon.CrossesIff | api/internal/service/geofence_detection.go:683 | the ray crosses a straddling edge if and only if the point is strictly on one side of its line, by the cross product |
| Polygon.TriangleIsThreeHalves | api/internal/service/geofence_detection.go:676-688 | a counter-clockwise triangle is the intersection of the half-planes left of its edges, of the boundary having the falling edges and the one level to the right |
| Polygon.TriangleEitherWay | api/internal/service/geofence_detection.go:676-688 | every triangle, whichever way it runs: its three half-planes, or nothing when it is flat |
| Polygon.RingIsFan | api/internal/service/geofence_detection.go:676-688 | a point is inside any ring exactly when it is in oddly many of the triangles from one corner to each edge |
| Polygon.SmallRing | api/internal/service/geofence_detection.go:676-688 | a ring of fewer than three positions holds no point |
| Polygon.StraddleParity | api/internal/service/geofence_detection.go:683 | a chain straddles a horizontal oddly often exactly when its ends lie on different sides |
| Polygon.OutsideBoxIsOutside | api/internal/service/geofence_detection.go:676-688 | a point strictly outside a ring's bounding box is outside the ring |
| Polygon.ChordSplits | api/internal/service/geofence_detection.go:676-688 | a point is inside a ring exactly when it is inside one of the two parts a chord cuts it into |
| Polygon.RectangleIsBox | api/internal/service/geofence_detection.go:676-688 | for an upright rectangle the test is the half-open box |
| Polygon.BoxWithHole | api/internal/service/geofence_detection.go:660-674 | by latitude and longitude, positions holding the longitude first: inside the outer box and outside the hole's; no rings hold nothing |
| Passes.Pass.EngineRuntimeS | api/internal/service/geofence_detection.go:81-95 | there is a runtime if and only if there are two readings or more and the counter did not go backwards; first plus runtime is last |
| Passes.InsideBox | api/internal/service/geofence_detection.go:602 | a sample's latitude and longitude are compared with the fence's, each with its own |
| Passes.DetectPasses | api/internal/service/geofence_detection.go:595-639 | the sweep computes the specified passes |
| Passes.PassesCompose | api/internal/service/geofence_detection.go:595-639 | the passes of two parts are the passes of the whole, except that a boundary inside a pass joins the last with the first: samples add, the earlier maximum and the first and last run time are kept |
| Passes.PassesAreMaximalRuns | api/internal/service/geofence_detection.go:595-639 | the passes summarize exactly the maximal inside runs, in order, and every inside sample is in one |
| Passes.ExtendsSummary | api/internal/service/geofence_detection.go:611-629 | a pass stays a true summary when a sample is added: edges, count, first fastest sample, first and last run time |
| Passes.SamplesConserved | api/internal/service/geofence_detection.go:598-639 | the sample counts of the passes sum to the number of inside samples |
| PassEvidence.WindowPasses | api/internal/service/geofence_detection.go:206-223 | the passes of a window's samples enter in order and inside the window, enter and exit at inside samples, and every inside sample is in one |
| PassEvidence.PersistIsIdempotent | api/internal/service/geofence_detection.go:206-210 | storing the same samples again changes nothing |
| PassEvidence.PersistGrounds | api/internal/service/geofence_detection.go:211-249 | however many passes of an answer got stored, every stored pass still entered at an inside sample of the answer it was taken from |
| PassEvidence.ScansKeepEvidenceIff | api/internal/service/geofence_detection.go:468-489 | after complete scans of separate windows there is evidence for all covered time if and only if the passes stored before that entered outside the closed windows show every inside sample seen outside them, or the sample lies on a window's end and is seen again |
| PassEvidence.OneScanKeepsEvidenceIff | api/internal/service/geofence_detection.go:195-249 | the same for one window, covered before or not, as a trip scans it |
| PassEvidence.InterruptionsKeepEvidenceIff | api/internal/service/geofence_detection.go:219-248 | evidence outlives an interruption anywhere after the delete if and only if the passes that entered outside the closed window alone give it |
| PassEvidence.ClearEndsSuffice | api/internal/service/geofence_detection.go:468-489 | scanning gaps keeps the evidence when no stored pass enters where covered time starts |
| PassEvidence.OldEvidenceStays | api/internal/service/geofence_detection.go:479-487 | under the same condition an interrupted scan of gaps loses no evidence either |
| GeofenceHazards.ParkedAtEdgeLosesEvidence | api/internal/service/geofence_detection.go:219-223 | a vehicle parked inside from the start of covered time on: scanning the time before replaces its pass by one that ends there |
| GeofenceHazards.CutPassLosesEvidence | api/internal/service/geofence_detection.go:195-249 | a trip that ends inside covered time while the vehicle is inside: the completed scan shortens the pass, and the condition fails |
| GeofenceHazards.InterruptedRescanLosesEvidence | api/internal/service/geofence_detection.go:195-249 | a trip window reaching into covered time, interrupted after the delete: covered evidence is gone and its time stays marked scanned |
| PassEvidence.EvidenceOfSubRows | api/internal/service/geofence_detection.go:516-527 | losing whole coverage ranges in an interrupted rewrite loses no evidence for the rest |
| PassEvidence.ContainedHasNoGaps | api/internal/service/geofence_detection.go:179-186 | a window inside a single coverage row has no gaps |
| PassEvidence.UpsertAddsWindow | api/internal/service/geofence_detection.go:251-266 | the upsert adds exactly the window, because it is reached only when no row contains the window; reached otherwise it could shrink a row |
| GeofenceLedger.Fence.PersistPasses | api/internal/service/geofence_detection.go:206-249 | succeeds if and only if one store call more than there are passes gets through; then the closed window's passes are the fresh ones, else the table is as before or holds a first few of them; no pass is made up |
| GeofenceLedger.Fence.InsertPasses | api/internal/service/geofence_detection.go:226-247 | inserts never collide, and a failed one leaves the passes before it stored |
| GeofenceLedger.Fence.CoverageIntervals | api/internal/service/geofence_detection.go:491-505 | the rows, which may overlap, as a coalesced list with the same union |
| GeofenceLedger.Fence.MergeCoverage | api/internal/service/geofence_detection.go:507-529 | adds exactly the window, succeeding if and only if one store call more than the coalesced ranges gets through, so inserts never collide; an interrupted rewrite leaves the old table or part of the new one |
| GeofenceLedger.Fence.RewriteCoverage | api/internal/service/geofence_detection.go:515-528 | the table becomes the list exactly when the delete and all inserts get through |
| GeofenceLedger.Fence.EnsureComputed | api/internal/service/geofence_detection.go:468-489 | never marks time scanned unless every gap's fetch answered and exactly its passes were stored; marks nothing outside the window; fails only on a failed fetch of one of the gaps or a failed store call; on success covers exactly the window more and there is evidence exactly under the condition of ScansKeepEvidenceIff; keeps the evidence on failure too unless a pass enters where covered time starts |
| GeofenceLedger.Fence.MarkScanned | api/internal/service/geofence_detection.go:488 | an interrupted rewrite marks no unscanned time and loses no evidence |
| GeofenceLedger.Fence.ScanGaps | api/internal/service/geofence_detection.go:479-487 | succeeds if and only if every gap's fetch answers and the store calls suffice; then every gap's passes are stored; nothing changes outside the closed gaps either way |
| GeofenceLedger.Fence.TripWindow | api/internal/service/geofence_detection.go:142-204 | does nothing for a contained window; else succeeds if and only if the fetch answered and the store calls suffice; records the window only after its passes were stored, covers exactly the window more, never shrinks the coverage, and on success there is evidence exactly under the condition of OneScanKeepsEvidenceIff |
| Membership.UnionStrings | api/internal/service/member_writethrough.go:167-180 | the first occurrences of both lists, in order |
| Membership.DedupHasNoDuplicates | api/internal/service/member_writethrough.go:167-180 | a union has no duplicates |
| Membership.DedupAbsorbs | api/internal/service/member_writethrough.go:167-180 | adding members already in changes nothing |
| Membership.DedupIsFirstSeen | api/internal/service/member_writethrough.go:167-180 | a list is the union if and only if it has the same members in the order in which they are first met |
| Membership.MergedIs | api/internal/service/member_writethrough.go:108-143 | a record is the merge if and only if its capabilities are the shared ones and then an owner's two, if granted, each once in order of first meeting; its label the higher of owner, admin and member, else the one written, else "member"; its scope the one asked for |
| Membership.Stores.PutMembershipThrough | api/internal/service/member_writethrough.go:108-143 | completes if and only if not configured or both calls get through; then a configured store holds the merge of MergedIs, else nothing changed; nobody else's record changes |
| Membership.Stores.AddMember | api/internal/service/tenant.go:237-257 | fails if and only if the write does; then nothing changed; else the row has the role asked for, "member" for none, and exactly the scope asked for, none for an owner; no other wallet is touched |
| Membership.Stores.GrantMember | api/internal/service/member_writethrough.go:66-79 | local failure, shared failure or done, each if and only if its calls say so; past the local write the row, and when done the shared record, has exactly the scope asked for, none for an owner, and the shared one is the merge of MergedIs; no other wallet changes |
| Membership.GrantedScope | api/internal/service/member_writethrough.go:66-79 | after a completed grant both scopes are none for an owner and else exactly the list asked for |
| Membership.Stores.ChangeMemberScope | api/internal/service/member_writethrough.go:81-95 | refuses if and only if the local row was read, is an owner's and the edit limits it; else sets the scope of a row that was read, keeping its role, and when done the shared record is the merge of MergedIs with the role that was read; a failure changed nothing it names |
| Membership.Stores.RemoveMemberEverywhere | api/internal/service/member_writethrough.go:97-106 | shared record first, then the local row: each outcome if and only if its call says so, with exactly the record before it gone |
| Membership.InterruptedGrantKeepsShared | api/internal/service/member_writethrough.go:27-30 | a grant or scope edit that did not complete left the shared record as it was |
| Membership.InterruptedRevocation | api/internal/service/member_writethrough.go:31-32 | an interrupted revocation leaves both records or at most the local one |
| Membership.MergedIsIdempotent | api/internal/service/member_writethrough.go:34-39 | merging the same role again only sets the scope |
| Membership.GrantRetryConverges | api/internal/service/member_writethrough.go:13-17 | retrying a grant after any failure gives the uninterrupted result |
| Membership.RevokeRetryConverges | api/internal/service/member_writethrough.go:13-17 | retrying a revocation after any failure gives the uninterrupted result |
| Membership.ScopeRetryConvergesIff | api/internal/service/member_writethrough.go:84-95 | retrying a scope edit gives the uninterrupted result unless the first try wrote to the shared record having missed an owner's row, with something to merge, or a label outside the three known ones; and only then |
| Membership.MergeUnchangedIff | api/internal/service/member_writethrough.go:124-137 | a merge leaves a record as it is if and only if scope, capabilities, their uniqueness and the label already are what it would write |
| Membership.DedupUnchangedIff | api/internal/service/member_writethrough.go:167-180 | a union leaves a list as it is if and only if it has no duplicates and all members already |
| Membership.OwnerLimitedIff | api/internal/service/member_writethrough.go:84-94 | an edit restricting a local owner reaches the shared record if and only if the local row could not be read |
| Membership.OwnerIsLimitedAnyway | api/internal/service/member_writethrough.go:84-94 | an owner whose row could not be read is limited in the shared record, and the retry refuses the edit and leaves the limit |
| Membership.LabelSurvivesIff | api/internal/service/member_writethrough.go:108-137 | an edit without a role keeps the shared label if and only if it is one of the three known ones |
| Membership.ViewerBecomesMember | api/internal/service/member_writethrough.go:108-137 | a shared "viewer" becomes a "member" by a scope edit of a tenant without a local row |
| Membership.RunsOnlyGrow | api/internal/service/member_writethrough.go:127-134 | over every run of grants and scope edits, interrupted anywhere, capabilities only grow, the label's rank never drops, and the shared scope is what the last completed operation asked for: none for a grant of ownership, else its list |
| TenancyDiff.NormalizeSet | api/cmd/fleet-lite-app/tenancy_diff.go:209-224 | the non-empty lower-case trimmed members, each once, sorted |
| TenancyDiff.SetDifference | api/cmd/fleet-lite-app/tenancy_diff.go:226-240 | exactly the members of the first list missing from the second, sorted when the first is |
| TenancyDiff.CompareScope | api/cmd/fleet-lite-app/tenancy_diff.go:155-186 | differ, remote-extra or agree exactly as the scopes are ordered, unrestricted on top |
| TenancyDiff.CompareAccess | api/cmd/fleet-lite-app/tenancy_diff.go:120-153 | missing-remote iff there is no access; differ iff a capability or group of the local member, blanks and case aside, is missing remotely or only the local scope is unrestricted; remote-extra iff not so and the converse holds; else agree or role-differs by the role |
| TenancyDiff.OrderVerdictIs | api/cmd/fleet-lite-app/tenancy_diff.go:120-186 | the verdict of the access order is the one by what would be lost and what gained, member by member |
| TenancyDiff.WithinIsPartialOrder | api/cmd/fleet-lite-app/tenancy_diff.go:120-142 | the order of access the verdicts refer to is a partial order |
| TenancyDiff.GrantNeverDiffers | api/internal/service/member_writethrough.go:69-143 | after any completed grant, whatever the shared record held, the diff tool reports neither differ nor missing-remote |
| TenancyDiff.ScopeEditDiffersIff | api/internal/service/member_writethrough.go:84-95 | after a completed scope edit the tool reports a loss if and only if an unread local row left a wider local scope or unrestored owner capabilities |
| TokenLists.SortedSet | api/internal/service/fleet_group.go:187-190 | a list's members, each once, strictly ascending |
| TokenLists.AscendingUnique | api/internal/service/fleet_group.go:198-211 | strictly ascending lists with the same members are the same list |
| TokenLists.AscendingCount | api/internal/service/fleet_group.go:213-217 | a strictly ascending list is as long as its set is large |
| GroupIndex.BeforeIsStrictOrder | api/internal/service/fleet_group.go:170-176 | name, then id, is a strict order, total on groups with different ids |
| GroupIndex.SortOrders | api/internal/service/fleet_group.go:169-176 | with unique ids the sorted list is in that order and has the same groups |
| GroupIndex.NewGroupIndex | api/internal/service/fleet_group.go:162-196 | with unique ids the index holds the same groups by name and id; each id with its own name and color and its vehicles ascending; each vehicle with exactly its groups, by name and id |
| GroupIndex.AddToTokens | api/internal/service/fleet_group.go:191-193 | appends the group to the list of each of its vehicles and of no other |
| GroupIndex.TokenIDsForGroups | api/internal/service/fleet_group.go:198-211 | the strictly ascending union of the named groups' members; unknown ids add nothing |
| GroupIndex.VehicleInGroups | api/internal/service/fleet_group.go:240-249 | whether one of the vehicle's groups is named |
| GroupIndex.LookupsAgree | api/internal/service/fleet_group.go:198-249 | a vehicle is in the groups if and only if the groups' union has it |
| GroupIndex.GroupLookupIsUnion | api/internal/service/fleet_group.go:198-211 | the index's union is the union read off the plain group list |
| GroupIndex.TokenLookupIsUnion | api/internal/service/fleet_group.go:240-249 | the index's membership answer is the one read off the plain group list |
| GroupIndex.GroupsOfInOrder | api/internal/service/fleet_group.go:219-222 | a vehicle's groups are its own, once each, by name and id |
| GroupIndex.GroupsOfMembers | api/internal/service/fleet_group.go:219-222 | a vehicle's group list holds exactly the groups it is a member of |
| GroupIndex.CountIsUnionSize | api/internal/service/fleet_group.go:213-217 | the count is the size of the union, a vehicle in two groups counted once |
| VehicleScope.IntersectActiveMemberships | api/internal/service/vehicle.go:50-75 | narrows to paid vehicles when enforced; an unavailable answer is a failure, never the unfiltered set |
| VehicleScope.ResolveTokenSet | api/internal/service/vehicle.go:264-309 | strictly ascending and exactly entitled, active if enforced, in the caller's groups if limited; an empty list reaches nothing and any failed leg gives no set |
| VehicleScope.AccessibleTokenIDs | api/internal/service/vehicle.go:24-48 | exactly the caller's groups' vehicles that pass the gate |
| VehicleScope.ListedIsAccessible | api/internal/service/vehicle.go:24-48 | for a limited caller the resolved set is the entitled part of the accessible one |
| VehicleScope.GetResolvedVehicle | api/internal/service/vehicle.go:728-746 | finds a token if and only if the listed set has it |
| VehicleScope.HandleNext | api/internal/service/vehicle.go:543-556 | handling one node moves it from wanted to handled and counts it once, however often it comes up |
| VehicleScope.VehicleRows.UpsertPrivileged | api/internal/service/vehicle.go:547-556 | succeeds if and only if no upsert of an entitled vehicle in sight fails; then exactly those were added and counted once each; a failure removed nothing and added nothing else |
| VehicleScope.VehicleRows.SyncEntitledVehicles | api/internal/service/vehicle.go:500-585 | succeeds if and only if the mode is explicit, the entitlements were read, the credential and the privileged vehicles too unless nothing is entitled, no upsert of an entitled vehicle in sight fails and the prune does not; then the rows are the entitled part of old rows and privileged vehicles; on any failure no row was deleted, and none changed when a read failed |
| VehicleScope.CompareVehicleSets | api/cmd/fleet-lite-app/vehicles_diff.go:87-117 | three strictly ascending lists: in both, entitled only, local only |
| VehicleScope.SyncThenCompare | api/cmd/fleet-lite-app/vehicles_diff.go:62-72 | whenever the sync's reads, upserts and prune succeed, nothing is extra afterwards, and missing is exactly what had no row and the license cannot see |
| VehicleMerge.ComesIsStrictTotal | api/internal/service/vehicle_metadata.go:143-154 | the comparator is a strict order, total on different tokens |
| VehicleMerge.InOrderIff | api/internal/service/vehicle_metadata.go:140-154 | the comparator orders a list if and only if a vehicle with a fix never follows one without, later fixes come first, and equal or absent ones go by token |
| VehicleMerge.OrderedUnique | api/internal/service/vehicle_metadata.go:140-154 | an ordered list of vehicles is determined by its members |
| VehicleMerge.SortOrders | api/internal/service/vehicle_metadata.go:140-154 | sorting vehicles of different tokens puts them in order |
| VehicleMerge.RosterVehicle | api/internal/service/vehicle_metadata.go:101-136 | keeps its token, is pending exactly without a roster row, has the last fix of its local row, and never blanks a VIN or plate the local row has |
| VehicleMerge.RosterVehicleJoins | api/internal/service/vehicle_metadata.go:108-136 | VIN and plate are the roster's, or where it has none those of the token's last row, or nothing |
| VehicleMerge.MergeRosterVehicles | api/internal/service/vehicle_metadata.go:108-156 | one vehicle as RosterVehicleJoins says for each resolved token and no other; for distinct tokens those with a fix first, later fixes before earlier ones, equal or absent ones by token |
| VehicleMerge.MergeResolvedVehicles | api/internal/service/vehicle.go:389-415 | the rows in the order given, field by field, then the placeholders |
| VehicleMerge.PlaceholdersInOrder | api/internal/service/vehicle.go:386-413 | the placeholders are exactly the tokens without a row, pending, with nothing else known of them, in token order |
| VehicleMerge.EveryTokenOnce | api/internal/service/vehicle.go:337-342 | every resolved token appears exactly once and nothing else does |
| VehicleMerge.JoinsAgreeOnOrder | api/internal/service/vehicle_metadata.go:140-154 | when every token has a row in the query's order, both joins list the same tokens in the same order |
| Text.LessTotal | api/cmd/fleet-lite-app/tenancy_diff.go:222 | any two strings are equal or one comes first |
| Text.LessTransitive | api/cmd/fleet-lite-app/tenancy_diff.go:222 | the string order is transitive |
| Text.LessIff | api/cmd/fleet-lite-app/tenancy_diff.go:222 | a string comes first if and only if it is a proper beginning of the other or has the smaller character where they first differ |
| Text.TrimSpaceIs | api/cmd/fleet-lite-app/tenancy_diff.go:215 | trimming takes off blanks at both ends, and all of them |
| Text.LowerCharIs | api/cmd/fleet-lite-app/tenancy_diff.go:215 | A to Z become a to z in order, and nothing else changes |
| Text.InsertKeepsSorted | api/cmd/fleet-lite-app/tenancy_diff.go:214-222 | a new string keeps a strictly ascending list strictly ascending |
| Slug.SlugIsSlug | api/internal/service/fleet_group.go:338-345 | a slug has only lower-case letters, digits and single inner dashes |
| Slug.SlugKeepsWords | api/internal/service/fleet_group.go:338-345 | the slug has the letters and digits of the lower-cased name in order, next to each other exactly where they are in the name; with SlugIsSlug a single dash stands everywhere else |
| Slug.SlugsOfWords | api/internal/service/fleet_group.go:338-345 | slugs with the same words are the same slug, so the name's words determine it |
| Slug.SameIDIff | api/internal/service/fleet_group.go:355-369 | two names of a tenant get the same id if and only if their lower-cased words are the same; names equal up to case always do |
| Slug.IDIff | api/internal/service/fleet_group.go:363-369 | a name has an id if and only if it has a letter or digit, and the id is tenant, '_' and slug |
| Slug.FixedPointsAreSlugs | api/internal/service/fleet_group.go:338-345 | the names that are their own slug are exactly the slugs, so slugs are stable |
| Slug.OneSeparator | api/internal/service/fleet_group.go:347-353 | an id of a tenant without '_' holds exactly one '_', right behind the tenant |
| Slug.GroupIDSplits | api/internal/service/fleet_group.go:355-369 | equal ids force equal tenants and equal slugs |

## Left out

- Time below the second: gaps and cursors go out through `rfc3339`, which truncates to whole seconds; the model has whole seconds throughout.
- The reader replica: coverage and rows are read from the tables as they are, not from a replica that lags behind.
- Session columns that are copied unread: average power, state of charge, position.
- Segments whose start does not parse: sessionsFromSegments drops them; the detector model has none.
- One view of the readings per gap: the pages and chunks of one gap are answered from the same readings, those of different gaps need not be.
- Requests whose window edges cut a settled session: segments would be cut at the edge, and agreement with a direct scan is not claimed there.
- Detector.View: assumes that a reading is never more than fifteen minutes late, which is the slack the settle margin allows for.
- LedgerRuns.RunsAreSafe: assumes that gaps are recorded in the order of the requests' clocks and that no session is under way at a chunk boundary of a gap longer than 31 days; LedgerHazards shows what happens otherwise.
- ChargingLedger.Tables.Sessions: runs one request at a time against its tables, and assumes of each of its own gaps what RunsAreSafe assumes of a recorded one; interleavings are in LedgerRuns.
- Intervals.Coalesce: works on values; sorting the caller's slice in place and sharing its storage with the result are not modelled.
- GeofenceLedger.Fence.TripWindow: claims nothing about the evidence after a failure, because an interrupted rescan loses it (`PassEvidence.InterruptionsKeepEvidenceIff`).
- GeofenceLedger.Fence.EnsureComputed: one request at a time; two at once on one fence and vehicle are not modelled. How many store calls the coverage rewrite takes is stated by MergeCoverage only.
- Reading passes back with the speed limit, the fan-out over vehicles and fences, and the trip path's loop over fences.
- Geometry parsing, floating-point rounding and spherical area: coordinates are exact reals.
- Membership.Stores: wallets are compared as strings; the letter case the source folds is taken to be folded already. Audit fields and timestamps are not kept.
- Text.ToLower: ASCII only, and so are slugs and normalized sets.
- VehicleMerge.RosterVehicle: leaves out make, model, device and position fields, which are copied, and the roster's own cache.
- VehicleScope.VehicleRows: keeps the token ids of the rows, not their metadata; the implicit-mode sync that asks the license is not modelled.
- TenancyDiff.CompareAccess: gives the verdict, not the detail text.
- Caches with a time to live: only successes are cached, so they hold some earlier answer; expiry is not modelled.
- HTTP handlers, tokens and encryption, attestations, cost reports, lookups by plate and VIN, and the web client.
