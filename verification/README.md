# SigNoz query and schema core, modelled and proved in Dafny

Dafny model of the parts of SigNoz whose correctness spans several functions, with proofs of what
they are for:

- **The time-bucket query cache** (`TimeSteps` to `CacheRuns`, `Answers` to `EdgeWindows`, `FluxInterval`,
  `Executions`). Past
  time-series results are kept as buckets of whole steps. A query asks the cache what is missing, fetches
  those ranges in parallel, merges them with the cached points and writes back the whole steps outside
  the flux interval. The database is a fixed log of events; the direct query over `[from, to)` has, per
  series and aligned step, the aggregate of the events in that step and in the range. The whole system is
  a state machine of lookups, ranged fetches by goroutines, two-phase writes that can race or be lost, and
  evictions. Main results: `CacheRuns.CacheIsTransparent`, `CacheRuns.RunKeepsInv`,
  `CacheRuns.NeverCrashes`, `CacheRuns.NothingInFlux`, and `EdgeWindows.CacheIsExact`, the exact condition
  under which an answer from the cache is the direct answer, point for point.
- **Windowed list pagination** (`Epoch` to `PagingRuns`). A range is cut into doubling windows, and a
  page is gathered window by window with a running budget. Main results: which ranges the windows tile and
  for which the loop that cuts them never ends; the walk returns rows `offset` to `offset + limit` of one
  sorted listing; which rows a page shows for any cursor; and which rows a client that follows the cursors
  never sees.
- **The contradiction detector** (`FilterTree` to `DetectorTheorems`, `FieldExactness`). A visitor collects constraints
  per field under NOT and OR and a solver looks for contradictions. Main results: the NOT context is the
  parity of the enclosing NOTs in every tree; what each rule's report says of the constraints, both ways;
  soundness over numbers and the exact condition for false reports; exactness on `=`, ranges and existence
  checks. What a comparison means is read off the parse tree alone.
- **The schema operator** (`Schema` to `SchemaDialects`, `UniqueDrops`). Table edits become statements, in one of two
  dialects. The statements run in a small database interpreter. Main results: recreating a table
  preserves it, and both dialects reach the same database exactly when the table has no indexes besides
  those of its unique constraints; and what dropping any constraint leaves.
- **Scalar table merging** (`ScalarMerge`, `ScalarTheorems`) and **meter tables** (`MeterTables`).

Methods follow the Go functions; each is proved against a specification, and the lemmas are about the
specifications. Failing or surprising cases that the code really has are stated as such:

- the windows that stick out of a query can differ from a direct query. A query shorter than a step loses
  the point of the window it starts in once that window is stored (`StoredLeadIsDropped`), or gets only
  the part before the flux boundary (`SplitLeadIsCutShort`); a last window that is stored, or at which a
  stored bucket ends, can get its whole value where a direct query has a part (`StoredTailIsWhole`).
  `CacheIsExact` shows that these are all the cases, and `EdgeContent` what is served instead;
- a page turn with the cursor loses the rows that share the last row's millisecond, and, newest first,
  also those of the millisecond before, and nothing else (`ShownOrLost`);
- bounds are documented as milliseconds, but the code scales every precision; with bounds in another one
  the cursor can be on the wrong side of them, is not let through, and the same page comes again
  (`SecondsRepeatThePage`, `RunsExistExactly`);
- the loop that cuts a range into windows subtracts unsigned numbers. A range of more than an hour whose
  doubling windows reach below zero is not tiled (`TilesExactly`), and the loop runs forever exactly when
  none of the first 52 sums of doubled hours leads, on 64-bit words, from the end to the start or before it
  (`NeverEndsExactly`). It does so from zero (`WrapsFromZero`), but also from 2001 (`NeverEndsFrom2001`);
- `x = 1 AND x = 1.0` and `x = 1 AND x IN (1.0)` are reported although a row satisfies them, because
  equalities are compared as texts (`SpellingIsMistaken`, `ListSpellingIsMistaken`); a satisfiable filter
  is reported only for such spellings, or by one of two rules that guess: lists that share a text are taken
  to exclude each other (`OverlapIsMistaken`), and a BETWEEN whose ends and middle lie in NOT BETWEENs is
  taken to be excluded altogether (`FalseReportsExactly`);
- NOT over a bound counts as the opposite bound, which an absent field does not satisfy either
  (`FlippedIsOpposite`);
- a write trims the result at the flux boundary before it rounds the bucket's end down to a step, so the
  point at the bucket's end is stored although its window reaches into the flux interval
  (`UnsettledPointIsStored`); it is the only one (`StoredPointsAreSettled`);
- with bounds in seconds a cursor from before the range moves the start back, and rows from before the
  range are shown (`SecondsLeaveTheRange`, `StaysInRangeExactly`);
- dropping a unique constraint drops the first one that has all the wanted columns, even if it has more
  (`WiderUniqueGoes`, `WantedIsDroppedExactly`);
- recreating a table drops every index that does not come from its unique constraints
  (`RecreateIsIdentity`, `ExtraIndexIsLost`), and skips a unique index whose generated name is taken
  (`NamesCanCollide`);
- a new NOT NULL column fills old rows with its type's zero value, even when it has a default
  (`DefaultIsNotUsed`, `OldRowsGetDefaultExactly`);
- two groups become one row of a merged table when their cells join to the same text (`SpacesLoseAGroup`);
  which ones do depends on the order of the group columns (`CollisionsDependOnColumnOrder`).

Assumptions of the cache model: the log does not change; steps are positive; a query starts before it
ends; all queries on a cache key have the same step and no time shift; a series' labels are its key;
results are time series; times are below 2^63, so sums of times do not wrap. A query has no series limit:
with one, a grouped query keeps the top groups of the very range it is run over
(signoz/pkg/telemetrylogs/statement_builder.go:341-354), so a value would depend on more than its own
window, and queries of parts of a range would pick other groups. What the underlying store answers, and
the time, are parameters.

Run `dafny verify dfyconfig.toml` to check everything.

## Model

| member | source | states |
|---|---|---|
| CacheRuns.CacheIsTransparent | signoz/pkg/querier/querier.go:445-545 | In every run of any number of queries, evictions and lost or racing writes on a cache key, a finished query of at least one step has, on every step window that ends within its range and meets it, exactly the points of the direct query, and every whole point it has, on any window, is the true aggregate; and it has exactly the direct query's points on all windows if it comes from a whole query or from a lookup whose buckets and flux boundary leave the windows at the query's edges clear. |
| CacheRuns.EdgesInRuns | signoz/pkg/querier/querier.go:445-545 | In every run, at every window that sticks out of its range and every series, a finished query that came from a lookup has the stored point if an overlapping bucket has one there, nothing if a bucket holds the window without one, and else the value of its own part of the window, or of the first half if that is split at the flux boundary. |
| CacheRuns.RunKeepsInv | signoz/pkg/querier/bucket_cache.go:120-215 | In every reachable state each stored bucket is step-aligned and non-empty, has a point for every non-empty window in its range, all its points are whole, true aggregates and lie between its start and its end, the end included; queries in flight hold only faithful data. |
| CacheRuns.NextKeepsInv | signoz/pkg/querier/querier.go:445-545 | Every single step of the system, lookup, fetch step, wait, fallback, read or write half of a write, eviction, keeps that invariant. |
| CacheRuns.NothingInFlux | signoz/pkg/querier/bucket_cache.go:126-196 | In every run every stored bucket ends at least the flux interval before the latest time the clock has shown. |
| CacheRuns.NeverCrashes | signoz/pkg/querier/querier.go:450-452 | No query ever uses a merged result that is nil, in any run. |
| ParallelFetch.StepKeepsInv | signoz/pkg/querier/querier.go:468-521 | Each step of the bounded parallel fetch keeps its invariant (at most four permits, slots written by their own goroutine), takes one unit off the work left, and never rewrites a filled slot. |
| ParallelFetch.Progress | signoz/pkg/querier/querier.go:468-521 | Until all goroutines are done some step is enabled: the semaphore cannot deadlock. |
| ParallelFetch.FourCanRun | signoz/pkg/querier/querier.go:468-487 | A goroutine that waits can start exactly when fewer than four hold a permit. |
| ParallelFetch.EveryScheduleFillsTheSlots | signoz/pkg/querier/querier.go:468-521 | In every interleaving at most four queries hold a permit, the steps are bounded, and when all are done slot i holds the outcome of range i. |
| Querier.Querier.ExecuteWithCache | signoz/pkg/querier/querier.go:445-545 | The answer is cached data merged with fresh ranges, or the full query's outcome on a fallback; a successful answer is faithful; the cache changes only by the write of that answer, and stays valid for the log. |
| Querier.MergeResults | signoz/pkg/querier/querier.go:588-649 | The merge rule of cached and fresh results, nil only when there are none. |
| Querier.MergeTimeSeriesResults | signoz/pkg/querier/querier.go:652-784 | The result renders exactly the walk over cached, then fresh series, in which the first value met for a timestamp stays; map iteration orders do not matter. |
| Querier.FetchAll | signoz/pkg/querier/querier.go:489-518 | Each slot gets the outcome of its own range. |
| Querier.Collect | signoz/pkg/querier/querier.go:522-535 | The fresh results are those of all slots in order, or none if a slot failed. |
| Querier.FaithfulAnswer | signoz/pkg/querier/querier.go:445-545 | Whatever way the execution went, an answer that is no error agrees with the direct query. |
| Querier.PutKeepsKeyValid | signoz/pkg/querier/bucket_cache.go:120-215 | Writing a faithful result keeps the key's buckets valid, whether or not the store took or answered. |
| CacheCorrectness.LookupIsTrue | signoz/pkg/querier/bucket_cache.go:63-117 | What a lookup returns from valid buckets are true aggregates of whole windows in the range, and all of those in stored buckets. |
| CacheCorrectness.MergedIsFaithful | signoz/pkg/querier/querier.go:588-649 | Merging a lookup's cached part with direct results of exactly its missing ranges agrees with the direct query over the whole range. |
| CacheCorrectness.ServedAgrees | signoz/pkg/querier/querier.go:652-784 | On each window served the merged points are exactly the direct query's points: nothing lost, nothing added. |
| CacheCorrectness.MergedPoints | signoz/pkg/querier/querier.go:652-784 | Every merged point comes from an input, and an input point with no rival at its timestamp is kept. |
| CacheCorrectness.WriteKeepsValid | signoz/pkg/querier/bucket_cache.go:120-215 | Writing back a faithful result keeps every stored bucket valid. |
| CacheCorrectness.AddedIsValid | signoz/pkg/querier/bucket_cache.go:160-196 | The new bucket is valid: aligned, complete, true, and without points outside its bounds, although its points were trimmed at the cut before rounding. |
| CacheCorrectness.CachableWindows | signoz/pkg/querier/bucket_cache.go:162-188 | The windows inside the rounded part are exactly those inside the query and below the flux boundary. |
| CacheCorrectness.NothingMissingMeansCached | signoz/pkg/querier/querier.go:450-452 | A lookup with nothing missing always has a cached result. |
| CacheCorrectness.CoveredNeedsNoQuery | signoz/pkg/querier/bucket_cache.go:225-339 | A range that starts on a step and lies in stored buckets has no missing ranges. |
| CacheCorrectness.WriteThenHit | signoz/pkg/querier/bucket_cache.go:120-215 | After a write, any step-aligned part of what was cachable is answered without a query. |
| EdgeWindows.CacheIsExact | signoz/pkg/querier/querier.go:445-545 | For any stored spans, query and flux boundary: answering from the cache gives exactly the direct query's points on all windows, for every log and all valid contents of the spans, if and only if no window that sticks out of the query (the last one, or the first one of a query shorter than a step) is touched by the spans or split at the flux boundary. |
| EdgeWindows.EdgeAgreesExactly | signoz/pkg/querier/bucket_cache.go:225-232 | The same for one such window: a query shorter than a step agrees on the window it starts in if and only if that window is in no bucket, and the boundary does not fall strictly inside the window's part of the query while no bucket starts behind it; a query agrees on its last window if and only if no overlapping bucket holds it or ends at it, and, for short queries, it is not split. |
| EdgeWindows.EdgeContent | signoz/pkg/querier/bucket_cache.go:391-416 | The same for one lookup: what each window that sticks out of the query gets, for any log, valid buckets and boundary, touched or not. |
| EdgeWindows.UntouchedWindow | signoz/pkg/querier/bucket_cache.go:391-416 | The value such a window gets when the cache has nothing for it: that of its part of the query or, when split at the flux boundary, of the first half that has one. |
| EdgeWindows.TouchedLead | signoz/pkg/querier/bucket_cache.go:365-389 | A query shorter than a step gets no point at all for the window it starts in once that window is stored. |
| EdgeWindows.TouchedTail | signoz/pkg/querier/bucket_cache.go:806-833 | The last window gets the whole point of a stored bucket although the query covers only a part of it. |
| EdgeWindows.StoredLeadIsDropped | signoz/pkg/querier/bucket_cache.go:365-389 | Step 10, query [13, 18), bucket [10, 20), two events at 15: the direct query counts two, the cached path has no point. |
| EdgeWindows.SplitLeadIsCutShort | signoz/pkg/querier/bucket_cache.go:391-409 | Step 10, query [12, 21), flux boundary 15, bucket [30, 40), events at 13 and 17: the direct query counts two, the cached path one. |
| EdgeWindows.StoredTailIsWhole | signoz/pkg/querier/bucket_cache.go:806-833 | Step 10, query [0, 15), bucket [0, 20), events at 12 and 18: the direct query counts one in the last window and flags it, the cached path has two, not flagged. |
| Answers.AnswerExists | signoz/pkg/querier/querier.go:445-545 | For every log, valid buckets, query and missing ranges there is an answer, so the statements about all answers are not empty. |
| Preference.FirstGiverWins | signoz/pkg/querier/querier.go:652-784 | Of several results the first that has a point at a window decides the merged value there, when the cached one has none. |
| Preference.CachedPointWins | signoz/pkg/querier/querier.go:652-784 | What the cached result has at a timestamp is never overwritten by a fresh one. |
| BucketCache.BucketCache.GetMissRanges | signoz/pkg/querier/bucket_cache.go:63-117 | The missing ranges and the cached part; for a query shorter than a step the gap at its end is cut at the flux interval before now; everything is missing when the store does not answer. |
| BucketCache.BucketCache.Put | signoz/pkg/querier/bucket_cache.go:120-215 | Seen from the limit, which is the query's end or the flux interval before now: all a write adds is a bucket from the first step of the query to the last one by the limit, with exactly the result's whole points up to the limit, and it does so whenever a whole step ends by the limit and the result has aggregations; no bucket already stored is lost except to one of the same span; other keys stay; without a whole step nothing changes. |
| FluxInterval.SettledIsHit | signoz/pkg/querier/bucket_cache.go:126-196 | From a query's times, the clock, the flux interval and a result with aggregations alone: after the write any step-aligned part of the query up to the limit has no missing range. |
| FluxInterval.StoredPointsAreSettled | signoz/pkg/querier/bucket_cache.go:743-765 | Every stored point's window ends by the limit, except that of a point at the bucket's end. |
| FluxInterval.UnsettledPointIsStored | signoz/pkg/querier/bucket_cache.go:162-188 | Step 10, query [100, 900), now 1005, flux interval 300: the point of [700, 710) is stored although the limit is 705. |
| Executions.CoveredNeedsNoDatabase | signoz/pkg/querier/querier.go:445-465 | A query of whole steps whose range lies in stored buckets is answered faithfully even if every query of the database fails. |
| Executions.SettledNeedsNoDatabase | signoz/pkg/querier/querier.go:445-465 | So is, after a result with aggregations has been written, every query of whole steps up to its limit. |
| Executions.OnlyMissingRangesMatter | signoz/pkg/querier/querier.go:468-545 | Unless nothing is cached and everything missing: as long as the missing ranges are answered, the answer is theirs and the cache's, whatever the whole query or other ranges would give. |
| Executions.WholeQueryDecides | signoz/pkg/querier/querier.go:458-530 | If nothing is cached and everything missing, or a missing range fails, the answer is the whole query's. |
| Executions.OnlyNeededIsMissing | signoz/pkg/querier/bucket_cache.go:225-339 | Of a query of at least a step exactly the instants in no bucket are missing, and the rest of the window it starts inside of. |
| Executions.CachedIsFromSharers | signoz/pkg/querier/bucket_cache.go:424-447 | Every cached point comes from a stored bucket that has an instant in common with the query, and lies in the query. |
| Executions.CoveredIsDoneAtOnce | signoz/pkg/querier/querier.go:450-452 | In runs, a query whose range is covered when it looks up is done without a fetch. |
| Executions.CoveredCanLookUp | signoz/pkg/querier/querier.go:450-452 | And that lookup always has an answer. |
| BucketCache.ResultToBuckets | signoz/pkg/querier/bucket_cache.go:634-664 | A result becomes one bucket with the given bounds, a truly empty one none. |
| BucketCache.IsEmptyResult | signoz/pkg/querier/bucket_cache.go:584-631 | Empty means no values in any series; truly empty, as opposed to filtered, means no aggregations, so filtered covers aggregations without series and series without values. |
| BucketCache.CachableBounds | signoz/pkg/querier/bucket_cache.go:172-188 | The code's rounding is the rounding up of the start and down of the end to steps. |
| MissingRanges.FindMissingRangesBasic | signoz/pkg/querier/bucket_cache.go:342-421 | For any buckets that are not empty and any flux boundary, the ranges are exactly the gaps the buckets leave in the range, in order, each from bucket to bucket or range end; only a gap that runs to the end of the range is cut in two, at the boundary, exactly when that falls strictly inside it. |
| MissingRanges.FindMissingRangesWithStep | signoz/pkg/querier/bucket_cache.go:225-339 | For any well-formed buckets every instant is in a range or a bucket; for aligned ones and a range of at least a step, the ranges are sorted, disjoint, cut at steps, and exactly the leading partial window and the rest of the range minus the buckets; a shorter range is left to the basic search. |
| MissingRanges.LeadingPartialWindow | signoz/pkg/querier/bucket_cache.go:244-270 | The leading partial window is missing whether or not it is stored, cut at the range's end. |
| MissingRanges.PassBucket | signoz/pkg/querier/bucket_cache.go:304-326 | Passing one bucket adds the gap before it and moves the walk to its end, rounded. |
| Sorting.SortIfNeeded | signoz/pkg/querier/bucket_cache.go:344-363 | The same elements in order of their keys, whether or not the scan finds the sort unnecessary. |
| BucketMerge.MergeTimeSeriesValues | signoz/pkg/querier/bucket_cache.go:483-581 | The merged buckets render exactly the walk over their series, first value first, whatever the map order. |
| BucketMerge.FilterRelevantBuckets | signoz/pkg/querier/bucket_cache.go:424-447 | Exactly the buckets that overlap the range, each as often as it is stored, sorted by start. |
| BucketMerge.MergeAndDeduplicateBuckets | signoz/pkg/querier/bucket_cache.go:667-701 | Of buckets with one span exactly the last stays, sorted by start. |
| BucketMerge.BySpanKeepsLast | signoz/pkg/querier/bucket_cache.go:667-685 | The map by span holds for each span the last bucket with it, and nothing else. |
| BucketMerge.TrimResultToFluxBoundary | signoz/pkg/querier/bucket_cache.go:723-775 | Every series stays, possibly without values, and keeps exactly its whole points up to the boundary. |
| BucketMerge.TrimmedPoints | signoz/pkg/querier/bucket_cache.go:743-765 | A point survives the trim exactly when it is whole and not after the boundary. |
| BucketMerge.FilterResultToTimeRange | signoz/pkg/querier/bucket_cache.go:792-848 | Every series keeps its points in the half-open range. |
| BucketMerge.ClippedPoints | signoz/pkg/querier/bucket_cache.go:806-833 | A point survives the clip exactly when its timestamp is in the range. |
| BucketMerge.GroupByAggregation | signoz/pkg/querier/bucket_cache.go:543-556 | Series are grouped by aggregation completely, in any map order. |
| SeriesMerge.AddNewPoints | signoz/pkg/querier/bucket_cache.go:510-529 | A series gains exactly the points with timestamps it did not have. |
| TimeSeries.MergeMeaning | signoz/pkg/querier/querier.go:652-784 | A merged series is strictly increasing in time, its timestamps are the union of the inputs', and each value is that of the earliest input with the timestamp. |
| TimeSeries.MergeOrderIrrelevant | signoz/pkg/querier/querier.go:652-784 | Inputs that agree where they overlap give the same merged series in any order. |
| TimeSeries.AbsorbedIsFirstWins | signoz/pkg/querier/bucket_cache.go:510-529 | The walk keeps exactly the first point of each series and timestamp. |
| TimeSeries.AbsorbedTs | signoz/pkg/querier/bucket_cache.go:510-529 | The walk's timestamps are the union of the inputs' timestamps. |
| TimeSeries.SortPointsIfNeeded | signoz/pkg/querier/bucket_cache.go:552-573 | The same points, sorted by timestamp. |
| EventStore.PartialMeaning | signoz/pkg/querier/consume.go:76-102 | A window that meets the queried range is flagged partial exactly when it sticks out of it. |
| EventStore.WholePointIsTrue | signoz/pkg/querier/consume.go:76-102 | A direct point that is not flagged is the true aggregate of its window. |
| EventStore.TruthIsDirect | signoz/pkg/querier/consume.go:76-102 | The true aggregate of a window inside the range is the direct query's point. |
| DirectQuery.DirectIsDirect | signoz/pkg/querier/consume.go:53-110 | A direct result exists for every log and range: one series per key with events, one point per non-empty window but the one at timestamp zero. |
| Epoch.ToNanoSecs | signoz/pkg/querybuilder/time.go:22-34 | Counting digits in a loop gives the epoch scaled to nineteen digits, on wrapping 64-bit arithmetic. |
| Epoch.NanosHasNineteenDigits | signoz/pkg/querybuilder/time.go:22-34 | Every positive epoch of up to nineteen digits becomes one of exactly nineteen, without wrapping. |
| Epoch.NanosIgnoresPrecision | signoz/pkg/querybuilder/time.go:22-34 | Seconds, milli-, micro- and nanoseconds of one instant give the same number. |
| Epoch.RecommendedIsAllowed | signoz/pkg/querybuilder/time.go:38-64 | The minimum allowed step never exceeds the recommended one, so a default is never overridden. |
| Epoch.StepGivesFewPoints | signoz/pkg/querybuilder/time.go:38-64 | Either step gives fewer than twice the points it was chosen for. |
| Epoch.StepsFitPoints | signoz/pkg/querybuilder/time.go:38-64 | The recommended step is the largest multiple of five seconds that gives at least 300 points, the minimum allowed one the largest that gives 1500; if that would be less, it is five seconds. |
| WindowList.MakeBuckets | signoz/pkg/querier/list_range.go:10-36 | For any two numbers, epochs of any precision: the windows are exactly those the loop appends before it stops, and there is no result exactly when it never stops, which NeverEndsExactly tells from the bounds. |
| WindowList.SplitRange | signoz/pkg/querier/list_range.go:14-35 | The same of the loop on nanoseconds, with unsigned 64-bit subtraction and doubling written out; that it never stops is settled after 52 windows, when the width has become zero. |
| WindowList.TilesExactly | signoz/pkg/querier/list_range.go:14-35 | The windows cover the range without gap or overlap, newest first, each twice as wide as the one before except the oldest, if and only if the range is at most an hour long or the doubled hours never reach below zero; otherwise some window ends before it starts. |
| WindowList.WrapFreeWithinTwice | signoz/pkg/querier/list_range.go:19-33 | The doubled hours stay above zero when the end is at most an hour short of twice the start. |
| WindowList.TodayTiles | signoz/pkg/querier/list_range.go:10-36 | Every range that starts after zero and ends by the middle of 2033 is tiled, in whatever precision its start is given. |
| WindowList.NeverEndsExactly | signoz/pkg/querier/list_range.go:19-33 | For all 64-bit bounds: the loop runs forever if and only if the range is more than an hour and, for each of the first 52 sums of an hour, two, four and so on, going back from the end by that sum on 64-bit words stays after the start. |
| WindowList.NeverEndsFrom2001 | signoz/pkg/querier/list_range.go:19-33 | The loop never ends for the range from 1000000000000 to 9161000000000 milliseconds. |
| WindowList.FromZeroEnds | signoz/pkg/querier/list_range.go:19-33 | From zero this means: a range of more than an hour is cut in finitely many windows if and only if its end is, on 64-bit words, one of those sums. |
| WindowList.FromZeroNeverEnds | signoz/pkg/querier/list_range.go:19-33 | So the loop never ends unless the end leaves 8192 modulo 16384. |
| WindowList.WrapsFromZero | signoz/pkg/querier/list_range.go:19-33 | The loop never ends for the range from zero to 1700000000000 milliseconds, which request validation accepts. |
| Listing.RunListStatement | signoz/pkg/telemetrylogs/statement_builder.go:247-258 | One window's statement: its rows in order, cut at the limit, a hundred when the limit is zero. |
| Listing.ConcatListings | signoz/pkg/querier/builder_query.go:297-334 | Sorted listings of the two sides of a timestamp make a sorted listing of both. |
| Listing.ListingIsUnique | signoz/pkg/telemetrylogs/statement_builder.go:232-245 | Where timestamp and id tell rows apart there is only one sorted listing. |
| Pagination.ExecuteWindowList | signoz/pkg/querier/builder_query.go:262-365 | Of any range, cursor, limit and offset: there is no answer exactly when the windows never end; else the rows are the page of the windows' own listings one after the other, in visiting order, as many windows as were needed; where the windows tile the range, or it ends before it starts, that is rows offset to offset + limit of one sorted listing of the range; and the cursor is the last row's millisecond exactly when the page is full. |
| Pagination.WalkWindows | signoz/pkg/querier/builder_query.go:297-334 | For any windows: the rows are the page of their listings one after the other; windows are queried until the page is full or none is left; and window i is asked for limit - rows so far + offset left, which is never zero. |
| Pagination.TakeRows | signoz/pkg/querier/builder_query.go:318-333 | Rows still to be skipped are skipped, the rest taken until the page is full. |
| Pagination.GatherWindow | signoz/pkg/querier/builder_query.go:297-334 | One window's answer moves the page of a longer listing on by exactly its rows. |
| Pagination.MillisRoundTrip | signoz/pkg/querier/builder_query.go:299-300 | Window bounds in whole milliseconds survive the division and the scaling back. |
| Pagination.MillisSurvive | signoz/pkg/querier/builder_query.go:299-300 | Of other window bounds exactly the whole milliseconds survive. |
| Pagination.MillisAreExact | signoz/pkg/querybuilder/time.go:22-34 | Bounds of up to thirteen digits become whole milliseconds, so for them the page is of exactly the range asked for. |
| Pagination.BoundsAreMillis | signoz/pkg/querier/list_range.go:10-36 | All window bounds are whole milliseconds. |
| CursorPaging.NextPageAscending | signoz/pkg/querier/builder_query.go:262-281 | For bounds of any precision: if the cursor is let through, the next page shows no row again, and its window has all rows not shown exactly when none of them is in the last row's millisecond; if not, its window is the same again. |
| CursorPaging.NextPageDescending | signoz/pkg/querier/builder_query.go:262-281 | The same newest first, where the rows not shown must not be in the last row's millisecond or the one before. |
| CursorPaging.DescendingCursorLosesARow | signoz/pkg/querier/builder_query.go:272-278 | Two rows a millisecond apart, one row a page: the second is never shown. |
| CursorPaging.SecondsRepeatThePage | signoz/pkg/querier/builder_query.go:272-278 | Bounds in seconds, newest first, one row a page: the second page is the first again. |
| CursorRanges.AnswerIsBehindCursor | signoz/pkg/querier/builder_query.go:262-365 | For bounds in milliseconds and any cursor in milliseconds, in or out of the range: the rows are the page of the rows in the range behind the cursor's millisecond (newest first, also behind the one before); a cursor in front of the range leaves the page of the whole range. |
| CursorRanges.StaysInRangeExactly | signoz/pkg/querier/builder_query.go:269-279 | For bounds and cursors of any kind: only rows of the range can be shown if and only if the cursor is not let through, or the millisecond it moves the bound to is not outside the range, or leaves nothing. |
| CursorRanges.MillisKeepRange | signoz/pkg/querier/builder_query.go:269-279 | Between bounds in milliseconds that holds of every cursor in milliseconds. |
| CursorRanges.SecondsLeaveTheRange | signoz/pkg/querier/builder_query.go:271-274 | Bounds in seconds, oldest first, a cursor ten seconds before the range: a row from five seconds before it is shown. |
| PagingRuns.QueryGivesPage | signoz/pkg/querier/builder_query.go:262-365 | What a list query answers for a cursor, where its windows tile the range, is a page of such a run. |
| PagingRuns.ShownOrLost | signoz/pkg/querier/builder_query.go:262-281 | In every run of pages, from the first to the one without a cursor, a row of the range is on one of the pages if and only if it is not lost at a page boundary, that is, not shown so far and in the last row's millisecond or, newest first, the one before. |
| PagingRuns.ShownOnce | signoz/pkg/querier/builder_query.go:262-281 | No run shows a row twice, on one page or on two. |
| PagingRuns.RunShowsAllExactly | signoz/pkg/querier/builder_query.go:262-365 | A run from any cursor shows all rows of its range if and only if, in any one listing of the range, at every multiple of the limit the next row lies in a later millisecond than the row before it or, newest first, at least two milliseconds below; and it shows no others. |
| PagingRuns.RunExists | signoz/pkg/querier/builder_query.go:337-341 | From every cursor that is let through there is a run, and it ends after at most as many full pages as there are rows. |
| PagingRuns.RunsExistExactly | signoz/pkg/querier/builder_query.go:262-281 | A client comes to a page without cursor if and only if cursors are let through (oldest first, the start has at most thirteen digits; newest first, the end at least thirteen) or the first page is not full. |
| PagingRuns.AscendingRunLosesARow | signoz/pkg/querier/builder_query.go:269-272 | Two rows of one millisecond, oldest first, one row a page: no run shows the second. |
| FieldRules.CheckRangeContradictions | signoz/pkg/querybuilder/never_true.go:685-760 | True exactly when no real satisfies all bounds, for lists of any length and order. |
| FieldRules.BoundsMeet | signoz/pkg/querybuilder/never_true.go:735-757 | The comparison of the tightest bounds decides whether a real fits between them. |
| FieldRules.HasCommonIntersection | signoz/pkg/querybuilder/never_true.go:645-682 | True exactly when one real lies in all BETWEEN ranges. |
| FieldRules.ValuesSatisfyRanges | signoz/pkg/querybuilder/never_true.go:763-796 | True exactly when the value is no number or meets all bounds. |
| FieldChecks.FindContradictionsInConstraints | signoz/pkg/querybuilder/never_true.go:413-642 | The solver reports exactly what its rules say of a field's constraints, no more and no less. |
| FieldMeaning.ReportMeansNoValue | signoz/pkg/querybuilder/never_true.go:413-620 | Soundness on a field, NOT IN and NOT BETWEEN included: a report means that no value, and no absence, satisfies the constraints, unless an equality's number is spelled in two ways, in another equality or in an IN list without its text, or an IN and a NOT IN list share a text, or both ends and the middle of a BETWEEN are excluded. |
| FieldMeaning.SilenceMeansValue | signoz/pkg/querybuilder/never_true.go:413-580 | Completeness on a field with =, ranges and existence: without a report some value or absence satisfies the constraints. |
| FieldMeaning.SilenceCanMiss | signoz/pkg/querybuilder/never_true.go:413-580 | With BETWEEN there is no such completeness: between 1 and 2 and above 5 is satisfied by nothing and not reported. |
| FieldMeaning.FalseReportsOfField | signoz/pkg/querybuilder/never_true.go:413-620 | Constraints that something satisfies are reported if and only if one of these is the case. |
| FieldMeaning.FieldIsDecided | signoz/pkg/querybuilder/never_true.go:413-580 | Exactness on a field: reported if and only if nothing satisfies the constraints or one number is spelled in two ways. |
| FieldExactness.ReportsAreClashes | signoz/pkg/querybuilder/never_true.go:413-620 | Where every number has one text, each rule on its own reports exactly when the constraints it looks at cannot hold together: the equality and another constraint, or every BETWEEN; two equalities; all bounds; two or more BETWEENs; existence and absence; the first constraint that needs a value and absence; the exclusion of three points. |
| FieldExactness.SharedTextsAreReported | signoz/pkg/querybuilder/never_true.go:507-525 | An IN and a NOT IN list that share texts are reported with exactly these. |
| FilterTree.ConstraintMeansComparison | signoz/pkg/querybuilder/never_true.go:202-340 | The constraint drawn from a comparison of numbers holds of exactly the values, or the absence, that the comparison as it is written allows. |
| Detector.LogicalContradictionDetector.AddConstraint | signoz/pkg/querybuilder/never_true.go:375-397 | The field gains the constraint, preceded by EXISTS if the operator implies it; other fields stay. |
| Detector.LogicalContradictionDetector.CheckContradictions | signoz/pkg/querybuilder/never_true.go:400-410 | Exactly the reports of fields with two or more constraints are added, in any map order. |
| Detector.LogicalContradictionDetector.VisitOrExpression | signoz/pkg/querybuilder/never_true.go:126-148 | The NOT stack is as found; several branches leave the constraint set as found although each adds in place. |
| Detector.LogicalContradictionDetector.VisitAndExpression | signoz/pkg/querybuilder/never_true.go:151-160 | The operands act on one constraint set one after the other; both stacks keep their shape. |
| Detector.LogicalContradictionDetector.VisitUnaryExpression | signoz/pkg/querybuilder/never_true.go:163-179 | NOT flips the context for its operand and the stack is as found afterwards. |
| Detector.LogicalContradictionDetector.VisitComparison | signoz/pkg/querybuilder/never_true.go:202-340 | One comparison adds its constraint, negated in a NOT context, and only plain comparisons are followed by a check. |
| Detector.DetectContradictions | signoz/pkg/querybuilder/never_true.go:35-82 | The reports of the visit and of the final check, each once. |
| DetectorTheorems.OrBranchesAreIndependent | signoz/pkg/querybuilder/never_true.go:126-148 | The order of OR branches changes neither reports nor constraints. |
| DetectorTheorems.BranchesAreJoined | signoz/pkg/querybuilder/never_true.go:126-148 | An OR of several NOT-free branches leaves the constraints as they were, and reports exactly what some branch's first comparisons, up to one that is followed by a check, are reported for when joined to them. |
| DetectorTheorems.ReportMeansDeadBranch | signoz/pkg/querybuilder/never_true.go:126-148 | A report of an OR behind other comparisons means that one of its branches cannot hold together with them, of any row. |
| DetectorTheorems.FilterReports | signoz/pkg/querybuilder/never_true.go:112-118 | A filter without NOT and OR is reported for exactly what its first comparisons are reported for, up to any that is followed by a check, or all of them. |
| DetectorTheorems.AbsenceIsReported | signoz/pkg/querybuilder/never_true.go:375-397 | For comparisons of any kind: a field is reported for being absent and there exactly when one comparison says it is absent and one, EXISTS or of a value, that it is there. |
| DetectorTheorems.ValueOfAbsentIsReported | signoz/pkg/querybuilder/never_true.go:547-560 | And for a value it cannot have exactly when one says it is absent and one compares its value. |
| DetectorTheorems.FlippedIsOpposite | signoz/pkg/querybuilder/never_true.go:862-910 | Under NOT a comparison says the opposite on the same operands, of every value, and of an absent field unless it is a bound. |
| DetectorTheorems.NotContextIsParity | signoz/pkg/querybuilder/never_true.go:163-179 | For every tree, with any siblings, branches and depth: visiting it adds and reports what visiting it without its NOTs does, each comparison flipped exactly when an odd number of NOTs enclose it. |
| DetectorTheorems.ReportMeansUnsatisfiable | signoz/pkg/querybuilder/never_true.go:413-620 | Soundness for filters: on AND filters of =, !=, ranges, IN, NOT IN, BETWEEN, NOT BETWEEN and existence over numbers, each comparison meaning what is written, without the spellings and overlaps above, a report means that no row satisfies the filter. |
| DetectorTheorems.FalseReportsExactly | signoz/pkg/querybuilder/never_true.go:413-620 | A filter of these operators that some row satisfies is reported if and only if a field is equated with one number in two spellings, an IN list on it has the number only in other spellings, an IN and a NOT IN list on it share a text, or a BETWEEN on it has both ends and its middle in NOT BETWEENs. |
| DetectorTheorems.DetectionIsExact | signoz/pkg/querybuilder/never_true.go:114-117 | Exactness for filters: on AND filters of =, ranges and existence something is reported if and only if no row satisfies the filter or a field is equated with one number in two spellings. |
| DetectorTheorems.SpellingIsMistaken | signoz/pkg/querybuilder/never_true.go:457-471 | A filter with a satisfying row that is reported: x = 1 AND x = 1.0. |
| DetectorTheorems.ListSpellingIsMistaken | signoz/pkg/querybuilder/never_true.go:490-505 | Another: x = 1 AND x IN (1.0). |
| DetectorTheorems.OverlapIsMistaken | signoz/pkg/querybuilder/never_true.go:507-525 | Another: x IN (1, 2) AND x NOT IN (2). |
| SchemaOperator.Table.Clone | signoz/pkg/sqlschema/table.go:19-32 | A new table object with the same description. |
| SchemaOperator.Table.DropConstraint | signoz/pkg/sqlschema/table.go:34-56 | The primary key, or the first foreign key, that equals the wanted constraint is gone, and its database name is returned. |
| SchemaOperator.Table.ToCreateTempInsertDropAlter | signoz/pkg/sqlschema/table.go:84-125 | The create, copy, drop and rename statements, with the original's constraint names; the table itself stays. |
| SchemaOperator.Operator.RecreateTable | signoz/pkg/sqlschema/operator.go:32-42 | The copy statements, then an index for each unique constraint. |
| SchemaOperator.Operator.AddColumn | signoz/pkg/sqlschema/operator.go:56-83 | The table object and the statements after adding a column, for each dialect and value. |
| SchemaOperator.Operator.DropColumn | signoz/pkg/sqlschema/operator.go:85-95 | The first column of the name is gone, and a statement drops it; unknown names change nothing. |
| SchemaOperator.Operator.DropConstraint | signoz/pkg/sqlschema/operator.go:97-119 | The table object and the statements after dropping a constraint, for each dialect and kind; what they leave is said by the members of UniqueDrops and by DropConstraintReaches. |
| SchemaOperator.Operator.FindUniqueConstraint | signoz/pkg/sqlschema/operator.go:131-143 | The first unique constraint that the wanted one matches. |
| SchemaTheorems.CopyPreserves | signoz/pkg/sqlschema/table.go:84-125 | Running the copy statements leaves exactly the described table with its rows cut to the columns and the original constraint names, no temporary table, and all else unchanged; they fail exactly when the rows break the description. |
| SchemaTheorems.RecreatePreserves | signoz/pkg/sqlschema/operator.go:32-42 | The whole list does the same and re-establishes the unique indexes; other tables and their indexes are unchanged. |
| SchemaTheorems.IndexesAreCreated | signoz/pkg/sqlschema/operator.go:37-39 | The index statements succeed on rows that obey the constraints and change nothing but indexes. |
| SchemaTheorems.UniquenessIsReestablished | signoz/pkg/sqlschema/index.go:52-73 | Every unique constraint has its index afterwards if and only if the generated names collide neither with other tables' indexes nor among themselves. |
| SchemaTheorems.NamesCanCollide | signoz/pkg/sqlschema/index.go:52-73 | Columns a, b and the column a_b share a generated name. |
| SchemaDialects.RecreateIsIdentity | signoz/pkg/sqlschema/operator.go:32-42 | Recreating an unchanged table gives the very same database if and only if the table has the indexes of its unique constraints and no others. |
| SchemaDialects.ExtraIndexIsLost | signoz/pkg/sqlschema/operator.go:32-42 | A database with one table, one row and one index that comes from no unique constraint: after recreating the table the index is gone. |
| SchemaDialects.IndexesComeBack | signoz/pkg/sqlschema/operator.go:37-39 | The exact condition under which dropped indexes come back. |
| SchemaDialects.AddColumnReaches | signoz/pkg/sqlschema/operator.go:56-83 | For every dialect, adding a column fails exactly when a NOT NULL column cannot be filled (its source column is unknown, or a null would remain), and else ends with the column, the same key constraints, and in every old row the default if it may be null, or else the given constant, the given column's value, or without a given value the zero of its type. |
| SchemaDialects.DefaultIsNotUsed | signoz/pkg/sqlschema/operator.go:69-73 | In every dialect, a new NOT NULL column with default 7 gives an old row its type's zero value. |
| SchemaDialects.OldRowsGetDefaultExactly | signoz/pkg/sqlschema/operator.go:69-73 | Without a value given, old rows get the default of a new column if and only if it may be null, its type's zero value is the default, or there are no old rows. |
| SchemaDialects.AddColumnIsDialectIndependent | signoz/pkg/sqlschema/operator.go:72-78 | Altering in place and recreating reach the same database if and only if nothing is recreated, both fail, or the table's indexes are those of its unique constraints. |
| SchemaDialects.AddColumnStaysInSync | signoz/pkg/sqlschema/operator.go:56-83 | After the statements the mutated table object describes the database again. |
| SchemaDialects.AddingAgainIsHarmlessExactly | signoz/pkg/sqlschema/operator.go:65-67 | Where the database already has the column, adding it fails without IF NOT EXISTS, and with it changes nothing if the column may be null. |
| SchemaDialects.DropConstraintReaches | signoz/pkg/sqlschema/operator.go:97-119 | For every dialect, dropping a primary or foreign key keeps rows and columns and leaves exactly the other key constraints. |
| SchemaDialects.DropConstraintIsDialectIndependent | signoz/pkg/sqlschema/operator.go:114-118 | Dropping in place and recreating reach the same database if and only if the table's indexes are those of its unique constraints. |
| SchemaDialects.DropConstraintStaysInSync | signoz/pkg/sqlschema/table.go:34-56 | After the statements the mutated table object describes the database again. |
| UniqueDrops.KeyIsDropped | signoz/pkg/sqlschema/table.go:34-56 | The primary key goes if it has as many columns as the wanted one and all among them; else the first foreign key with the wanted column, table and referenced column goes and the others stay in order; else nothing does. |
| UniqueDrops.UniqueIsDropped | signoz/pkg/sqlschema/operator.go:97-119 | A unique constraint is dropped exactly when one has all the wanted columns, and it is the first of these. In place, one statement drops it by the name the database knows. Recreating keeps the rows, columns and keys of all tables and the indexes of the others, and leaves the table exactly the indexes of its other unique constraints. |
| UniqueDrops.UniqueDropStaysInSync | signoz/pkg/sqlschema/operator.go:105-112 | After recreating, the table object describes the database again. |
| UniqueDrops.NoIndexIsLeft | signoz/pkg/sqlschema/operator.go:111-111 | Under the dropped constraint's generated name the table has an index left if and only if another of its constraints shares the name and no other table has it. |
| UniqueDrops.UnknownKeyIsLeft | signoz/pkg/sqlschema/operator.go:100-105 | A key that the table does not have: no statement, and the object stays. |
| UniqueDrops.WantedIsDroppedExactly | signoz/pkg/sqlschema/constraint.go:268-285 | The dropped constraint has just the wanted columns if and only if every constraint with more comes behind one with just these. |
| UniqueDrops.OnlyUniqueGoes | signoz/pkg/sqlschema/operator.go:111-111 | A table with one unique constraint and its index: after dropping it by recreating there is no index. |
| UniqueDrops.WiderUniqueGoes | signoz/pkg/sqlschema/operator.go:131-143 | With unique constraints over a, b and over a, dropping the one over a drops the one over a, b. |
| ScalarMerge.MergeScalarData | signoz/pkg/querier/postprocess.go:707-815 | The loops build the union of group columns, the aggregation columns by query, and the merge of all rows in some order of the results. |
| ScalarMerge.MergedMeaning | signoz/pkg/querier/postprocess.go:746-800 | After any rows the table has a row for exactly the keys met, with group cells of a row of that key and the values last given. |
| ScalarTheorems.TableConserves | signoz/pkg/querier/postprocess.go:707-815 | One row per key over all queries, and each cell is its query's value for the key or "n/a". |
| ScalarTheorems.AggregationsInOrder | signoz/pkg/querier/postprocess.go:733-745 | The columns behind the group columns are exactly the aggregation columns of the results, each once, query by query in the order of the names and within a query in its own order. |
| ScalarTheorems.GroupCellsMeaning | signoz/pkg/querier/postprocess.go:765-772 | A row's group cells are what it has in its last own group column of the name, or "n/a" without one or when the row is too short. |
| ScalarTheorems.EveryValueIsKept | signoz/pkg/querier/postprocess.go:707-815 | Every aggregation cell of every query stands in the table under its own column. |
| ScalarTheorems.GroupsAreConserved | signoz/pkg/querier/postprocess.go:831-841 | Every group has its row if and only if no two different groups have the same joined key. |
| ScalarTheorems.OrderIsIrrelevant | signoz/pkg/querier/postprocess.go:746-800 | With the group columns in one order, the table is the same in whatever order the results are walked. |
| ScalarTheorems.ColumnOrderIsIrrelevant | signoz/pkg/querier/postprocess.go:707-815 | In whatever order the group columns are collected too, the table is the same up to that order of columns: every row's key leads to a row with the same cell in each group column and each aggregation, as long as keys collide in neither order. |
| ScalarTheorems.CollisionsDependOnColumnOrder | signoz/pkg/querier/postprocess.go:831-841 | Whether two groups share a key can depend on that order. |
| ScalarTheorems.SpacesCollide | signoz/pkg/querier/postprocess.go:831-841 | Different groups whose cells contain spaces can have the same key. |
| ScalarTheorems.SpacesLoseAGroup | signoz/pkg/querier/postprocess.go:707-815 | A result with the groups (a b, c) and (a, b c): one of them has no row in the table. |
| ScalarTheorems.SpacelessKeysDiffer | signoz/pkg/querier/postprocess.go:831-841 | Groups whose cells contain no spaces never share a key. |
| MeterTables.DayTableIsExact | signoz/pkg/telemetrymeter/tables.go:60-149 | Over any group of whole days each one-day expression gives what the raw expression gives, for every known temporality and every aggregation the one-day table supports. |
| MeterTables.RawTableIsExact | signoz/pkg/telemetrymeter/tables.go:66-91 | Over raw samples every known aggregation gives what it is named for: the last sample, the total, the mean, the least, the greatest, their number, the number of different ones, and for rates the greatest or the total. |
| MeterTables.ChosenTableIsExact | signoz/pkg/telemetrymeter/tables.go:34-58 | Whatever range is asked for, without a hint the table chosen has an expression for every known aggregation, which over whole days gives that aggregation of all their samples. |
| MeterTables.DistinctNeedsSamples | signoz/pkg/telemetrymeter/tables.go:46-50 | Distinct counts cannot be computed from one-day rows: two days with equal rows and different counts. |

## Left out

- A growing log with late arrivals, and query steps, shifts or fingerprints that differ on one cache key.
- Execution statistics and warnings in the cache path, results that are not time series, and the encoding of stored buckets.
- Sharing of series and bucket slices between results: the merges are modelled on values.
- Querier.Querier.ExecuteWithCache: the method fetches the ranges one after the other; the interleavings of the goroutines are in ParallelFetch and CacheRuns.
- DirectQuery.DirectIsDirect: row scanning, label keys and series grouping in readAsTimeSeries are not modelled; a direct result is given by the log.
- Querier.MergeTimeSeriesResults: the choice of alias, unit metadata and query name.
- Querier.FetchAll: a loop over the ranges stands for the goroutines.
- Pagination.ExecuteWindowList: the encoding of cursors as text is not part of this model, nor is the case in which the database answers with an error.
- CursorPaging.NextPageAscending: a start of zero, and one in the very first millisecond of thirteen digits.
- CursorPaging.NextPageDescending: the same starts.
- PagingRuns.ShownOrLost: the same starts; the requests of a run have the offset zero.
- PagingRuns.ShownOnce: the same.
- PagingRuns.RunShowsAllExactly: the same.
- PagingRuns.RunExists: the same.
- PagingRuns.RunsExistExactly: the same.
- Series limits of grouped queries in the cache path.
- FieldMeaning.ReportMeansNoValue: operands are numbers; a field with other texts is left out.
- FieldMeaning.SilenceMeansValue: what remains satisfiable with !=, IN and BETWEEN when nothing is reported.
- FieldChecks.FindContradictionsInConstraints: without the LIKE rule.
- Detector.LogicalContradictionDetector.CheckContradictions: without reports of the LIKE rule.
- Detector.DetectContradictions: without reports of the LIKE rule, and without the order of reports.
- REGEXP and CONTAINS take part in no rule. NOT over groups is modelled as the detector visits it; what it means to a row is not.
- CursorRanges.AnswerIsBehindCursor: ranges and cursors behind the middle of 2033; other bounds and cursors are left to StaysInRangeExactly.
- FluxInterval.UnsettledPointIsStored: that such a point is later served although events have arrived since, because the log does not change.
- DetectorTheorems.ReportMeansUnsatisfiable: operands are reals, and a text parses as at most one number; NaN and infinities are left out.
- Reports are values, not texts.
- ANTLR's parse trees are given; ClickHouse, bun and the SQL text of statements are not modelled.
- The interpreter carries foreign keys along but does not enforce them, and checks unique indexes whenever it changes rows.
- SchemaOperator.Operator.DropColumn: what databases do to keys and indexes over a dropped column differs between engines and is not followed.
- SchemaOperator.Operator.DropConstraint: the in-place overwriting of the caller's list of unique constraints.
- UniqueDrops.UniqueIsDropped: the effect of the in-place statement, as the interpreter knows unique constraints only as indexes.
- RenameTable.
- ScalarMerge.MergeScalarData: cells that print alike are the same cell; the sorting of query names is a parameter, the final sort of rows and deduplicateRows are left out.
- MeterTables.DayTableIsExact: sums and averages are over reals; the rounding of floating point is left out.
- Step intervals for metrics and meters, WHERE rewriting, formulas, HAVING, configuration and HTTP handling.
