# Statistics cache handle, modelled in Dafny

This project models the statistics handle of TiDB's optimizer
(`statistics/handle.go`, vendored in kulasama/tidis). The handle keeps a
copy-on-write snapshot of per-table statistics (table id to row count, modify
count, version and column histograms). It also keeps two refresh watermarks
(`LastVersion` and `PrevLastVersion`), the registry of column histograms
waiting to be loaded, and two queues: schema-change (DDL) events and analyze
results.

The handle is an immutable record (`StatsHandle.Handle`), and each operation
is a pure transition from one record to the next. The atomic pointer swap of
the Go code becomes plain replacement of the `cache` field. Storage, the
schema catalog and the other collaborators whose code is not part of this
model are function parameters:

- `StatsUpdate.Sources`: the catalog (`TableByID`) and the table rebuilder
  (`tableStatsFromStorage`). The rebuilder returns `Err`, `Ok(None)` or
  `Ok(Some(table))`.
- `StatsUpdate.MetaQuery`: the stats-meta query. It takes the version floor
  and returns the rows or an error.
- `HistogramLoader.Storage`: `histogramFromStorage` and `cmSketchFromStorage`.
- `StatsFlush.Collaborators`: `HandleDDLEvent`, `DumpStatsDeltaToKV`,
  `SaveStatsToStorage` and `DumpStatsFeedbackToKV`. Each reports success or
  failure.
- The pseudo-table builder `PseudoTable` is a parameter of
  `StatsHandle.GetTableStats`.

Modules:

- `Wrappers` (wrappers.dfy) defines `Option` and `Result`.
- `StatsTypes` (types.dfy) defines tables, columns, histograms, requests and
  events.
- `StatsCache` (cache.dfy) covers `copyFromOldCache` and `UpdateTableStats`.
- `StatsHandle` (handle.dfy) covers the handle record, `NewHandle`, `Clear` and
  `GetTableStats`.
- `StatsUpdate` (update.dfy) covers `Update`.
- `HistogramLoader` (loader.dfy) covers `LoadNeededHistograms`.
- `StatsFlush` (flush.dfy) covers `FlushStats`.

A snapshot is *well keyed* (`StatsCache.WellKeyed`) when every table is stored
under its own `TableID` and every column under its own histogram id. Publishing
always keys a table by `tbl.TableID`, and the loader stores a column under
`c.ID`. So the statements that name a table or column by the requested id rely
on this invariant. The invariant holds for a new or cleared handle.
Publishing keeps it whenever the published tables have their columns keyed by
histogram id, whatever their table ids (`StatsCache.UpdateKeepsWellKeyed`). So
`GetTableStats` keeps it when the pseudo table's columns are keyed, and
`Update` keeps it when the catalog and the rebuilder are coherent
(`StatsUpdate.Coherent`). The loader always keeps it.

## Model

| member | source | states |
|---|---|---|
| `StatsCache.CopyFromOldCache` | src/vendor/github.com/pingcap/tidb/statistics/handle.go:166-173 | the copy has exactly the old snapshot's keys, each with the same table |
| `StatsCache.InsertAll` | src/vendor/github.com/pingcap/tidb/statistics/handle.go:178-181 | after inserting, the keys are the old keys plus every inserted id; each id holds the last table carrying it; ids not inserted keep their old table |
| `StatsCache.DeleteAll` | src/vendor/github.com/pingcap/tidb/statistics/handle.go:182-184 | after deleting, the keys are the old keys minus every listed id, and surviving entries are unchanged |
| `StatsCache.UpdateTableStats` | src/vendor/github.com/pingcap/tidb/statistics/handle.go:175-186 | the new snapshot's keys are (old + inserted) − deleted; a deleted id is absent even if also inserted; for a repeated id the later table wins; ids in neither list keep their old entry or absence |
| `StatsCache.UpdateOne` | src/vendor/github.com/pingcap/tidb/statistics/handle.go:176-186 | publishing one table with no deletions is a single map update at that table's id |
| `StatsCache.UpdateKeepsWellKeyed` | src/vendor/github.com/pingcap/tidb/statistics/handle.go:178-181 | publishing tables with keyed columns keeps a well-keyed snapshot well keyed, because insertion keys by `TableID` |
| `StatsHandle.NewHandle` | src/vendor/github.com/pingcap/tidb/statistics/handle.go:84-98 | a new handle has an empty snapshot, zero watermarks, empty queues, empty delta and rate maps, no feedback, and the registry as given |
| `StatsHandle.Clear` | src/vendor/github.com/pingcap/tidb/statistics/handle.go:64-78 | after Clear the snapshot is empty, both watermarks are 0, both queues are empty, and the collector, delta and rate maps are empty; the load registry and the feedback list are kept |
| `StatsHandle.ClearIsReset` | src/vendor/github.com/pingcap/tidb/statistics/handle.go:64-98 | a cleared handle equals a new handle that kept the old feedback, and Clear is idempotent |
| `StatsHandle.GetTableStats` | src/vendor/github.com/pingcap/tidb/statistics/handle.go:156-164 | a hit returns the cached table and leaves the handle unchanged; a miss returns the pseudo table and adds exactly that entry (under the pseudo table's id), leaving every other entry and field alone |
| `StatsHandle.MissThenHit` | src/vendor/github.com/pingcap/tidb/statistics/handle.go:156-164 | when the pseudo table carries the requested id, a second call right after the first is a hit that returns the same table and changes nothing, and the snapshot grew by at most one entry |
| `StatsHandle.EmptyIsWellKeyed` | src/vendor/github.com/pingcap/tidb/statistics/handle.go:65-96 | new and cleared handles start from a well-keyed snapshot |
| `StatsHandle.GetKeepsWellKeyed` | src/vendor/github.com/pingcap/tidb/statistics/handle.go:158-160 | a lookup keeps the snapshot well keyed when the pseudo table's columns are keyed |
| `StatsUpdate.Classify` | src/vendor/github.com/pingcap/tidb/statistics/handle.go:129-149 | a row drops its id exactly when the catalog lacks the table or storage has no stats for it; it is skipped exactly when the rebuild errs; otherwise it installs the very table storage rebuilt, with the row's version, count and modify count written over it |
| `StatsUpdate.ClassifyCoherent` | src/vendor/github.com/pingcap/tidb/statistics/handle.go:135-149 | with a coherent catalog and rebuilder, an installed table carries the row's table id and keyed columns |
| `StatsUpdate.DroppedMembers` | src/vendor/github.com/pingcap/tidb/statistics/handle.go:129-145 | an id is in the deleted list exactly when some row with that id is dropped |
| `StatsUpdate.InstalledMembers` | src/vendor/github.com/pingcap/tidb/statistics/handle.go:146-149 | a table is in the insert list exactly when some row installs it |
| `StatsUpdate.InstalledLast` | src/vendor/github.com/pingcap/tidb/statistics/handle.go:123-150 | the table installed by the last row installing an id is the last table with that id in the insert list |
| `StatsUpdate.ScanRows` | src/vendor/github.com/pingcap/tidb/statistics/handle.go:121-150 | the loop leaves the watermark at the last row's version (or where it was, with no rows); the insert and delete lists are the installing and dropping rows, in row order |
| `StatsUpdate.Update` | src/vendor/github.com/pingcap/tidb/statistics/handle.go:114-153 | it errs exactly when the query at `PrevLastVersion` fails, and then the handle is unchanged; otherwise `PrevLastVersion` takes the old `LastVersion`, `LastVersion` becomes the last row's version or stays; only the snapshot and the watermarks change |
| `StatsUpdate.UpdatePublishes` | src/vendor/github.com/pingcap/tidb/statistics/handle.go:121-151 | a successful refresh is one snapshot replacement with the installed tables and the dropped ids |
| `StatsUpdate.UpdateDropRemoves` | src/vendor/github.com/pingcap/tidb/statistics/handle.go:129-145 | a row whose table is unknown or has no stats leaves its id out of the new snapshot |
| `StatsUpdate.UpdateInstallWins` | src/vendor/github.com/pingcap/tidb/statistics/handle.go:146-151 | the last installing row of an id no row drops leaves the rebuilt table, with the row's version, count and modify count |
| `StatsUpdate.UpdateSkipKeeps` | src/vendor/github.com/pingcap/tidb/statistics/handle.go:136-141 | an id whose rows all fail to rebuild (or that has no rows) keeps its entry or its absence |
| `StatsUpdate.NoRowsIsIdempotent` | src/vendor/github.com/pingcap/tidb/statistics/handle.go:115-128 | with no rows the snapshot and `LastVersion` stay put, and a second such refresh returns the handle unchanged |
| `StatsUpdate.UpdateKeepsWellKeyedCache` | src/vendor/github.com/pingcap/tidb/statistics/handle.go:146-151 | a refresh with coherent collaborators keeps the snapshot well keyed |
| `StatsUpdate.OneRowExample` | src/vendor/github.com/pingcap/tidb/statistics/handle.go:123-151 | one row (version 5, table 1, modify 3, count 100) for a known table gives table 1 with those numbers, `PrevLastVersion` = old `LastVersion` and `LastVersion` = 5 |
| `StatsUpdate.RowsAbove` | src/vendor/github.com/pingcap/tidb/statistics/handle.go:115 | the meta query returns exactly the stored rows whose version is above the floor, each as often as it is stored (same multiset as the filtered store), sorted by version (`order by version`) |
| `StatsUpdate.SortByVersion` | src/vendor/github.com/pingcap/tidb/statistics/handle.go:115 | the rows come back in non-decreasing version order and are a permutation of the input (same multiset) |
| `StatsUpdate.InsertByVersion` | src/vendor/github.com/pingcap/tidb/statistics/handle.go:115 | inserting a row into version-sorted rows keeps them sorted and adds exactly that row |
| `StatsUpdate.UpdateReachesNewest` | src/vendor/github.com/pingcap/tidb/statistics/handle.go:115-128 | when the query returns the rows above the floor in version order, a refresh sets `LastVersion` to the largest version above `PrevLastVersion`: no such row is newer, and one such row carries it |
| `StatsUpdate.LateRowIsRead` | src/vendor/github.com/pingcap/tidb/statistics/handle.go:37-40 | a row committed late, with a version above the watermark a refresh started from, is still read by the next refresh, whose floor is the previous watermark; a query floored at the current watermark would miss it whenever that watermark has passed its version |
| `StatsUpdate.LateRowIsInstalled` | src/vendor/github.com/pingcap/tidb/statistics/handle.go:114-151 | end to end: when a late row is the only stored row for its table and the table rebuilds, the next refresh installs the rebuilt table with the late row's version, although the current watermark had passed it |
| `HistogramLoader.LoadedColumn` | src/vendor/github.com/pingcap/tidb/statistics/handle.go:202-210 | the loaded column keeps the histogram id, distinct count, null count, last update version and total column size it had; it counts as loaded exactly when storage returned buckets; its count equals its histogram's total row count; it keeps the column info and takes the read sketch |
| `HistogramLoader.ReplaceColumn` | src/vendor/github.com/pingcap/tidb/statistics/handle.go:196-210 | the table copy differs from the original only in the replaced column, stored under its histogram id |
| `HistogramLoader.PublishReplaces` | src/vendor/github.com/pingcap/tidb/statistics/handle.go:211 | publishing a table already in a well-keyed snapshot replaces only its entry and keeps the snapshot well keyed |
| `HistogramLoader.ReplaceChangesOnlyColumn` | src/vendor/github.com/pingcap/tidb/statistics/handle.go:196-211 | storing a new version of the requested column changes no other column and no other table |
| `HistogramLoader.ReadColumn` | src/vendor/github.com/pingcap/tidb/statistics/handle.go:202-212 | it errs exactly when the histogram or the sketch read fails; on success the request is removed and only the requested column changes, to the loaded column |
| `HistogramLoader.LoadColumn` | src/vendor/github.com/pingcap/tidb/statistics/handle.go:192-212 | table absent: nothing changes; column absent or already loaded: only the request is removed; otherwise the column is read, and on success only that column changes |
| `HistogramLoader.LoadLoop` | src/vendor/github.com/pingcap/tidb/statistics/handle.go:191-214 | the loader never adds requests, keeps every request it was not asked to serve, and keeps the snapshot's tables and its well-keyedness |
| `HistogramLoader.LoadLoadsRequested` | src/vendor/github.com/pingcap/tidb/statistics/handle.go:191-212 | an error-free run over requests listed once loads every listed column that was present and unloaded: both reads succeed and the column ends up as the one built from them |
| `HistogramLoader.LoadFirstRequested` | src/vendor/github.com/pingcap/tidb/statistics/handle.go:202-212 | when the first served request is a present, unloaded column, an error-free run leaves it as loaded from storage, and no later request changes it |
| `HistogramLoader.LoadNeededHistograms` | src/vendor/github.com/pingcap/tidb/statistics/handle.go:189-215 | only the snapshot and the registry change, the registry only shrinks, and the snapshot keeps its tables |
| `HistogramLoader.LoadSuccessRegistry` | src/vendor/github.com/pingcap/tidb/statistics/handle.go:192-212 | after an error-free run, a served request stays outstanding exactly when its table is not in the snapshot |
| `HistogramLoader.LoadErrorKeepsRest` | src/vendor/github.com/pingcap/tidb/statistics/handle.go:191-212 | a run stopped by a storage error stops at the first request whose load errs: the requests before it run without error, the run ends in the state they left (so their published columns stay published), and the failing request and every later request not served before it keep their registry status |
| `HistogramLoader.LoadOnlyRequestedColumns` | src/vendor/github.com/pingcap/tidb/statistics/handle.go:196-211 | a column nobody requested is unchanged, and so is every non-column field of every table |
| `HistogramLoader.LoadNeededSuccess` | src/vendor/github.com/pingcap/tidb/statistics/handle.go:189-214 | over the whole registry, an error-free run leaves exactly the requests whose table is not cached, and every requested column that was present and unloaded ends up as the column built from what storage returned |
| `HistogramLoader.LoadNeededError` | src/vendor/github.com/pingcap/tidb/statistics/handle.go:189-214 | over the whole registry, a run that errs stops at the first failing request: the handle keeps the snapshot and registry the earlier requests left, and the failing request and all later ones stay outstanding |
| `HistogramLoader.LoadNeededErrorServed` | src/vendor/github.com/pingcap/tidb/statistics/handle.go:191-212 | over the whole well-keyed registry, a run that errs treats the requests before the failing one as an error-free run does: each stays outstanding exactly when its table is not cached, and each present, unloaded column among them ends up loaded from storage |
| `StatsFlush.AllRequestsCount` | src/vendor/github.com/pingcap/tidb/statistics/handle.go:233-240 | there is one save request per histogram of the queued analyze results |
| `StatsFlush.DrainDDL` | src/vendor/github.com/pingcap/tidb/statistics/handle.go:224-229 | every queued DDL event is handled once, in queue order, whether or not handling fails; each is handled on the snapshot the earlier events left, its attempt records the outcome the handler reported, and the drain ends with the snapshot the last event left |
| `StatsFlush.InertDDLKeepsCache` | src/vendor/github.com/pingcap/tidb/statistics/handle.go:224-229 | a handler that never changes the snapshot leaves the drained snapshot as it was, whatever outcomes it reports |
| `StatsFlush.SaveHistograms` | src/vendor/github.com/pingcap/tidb/statistics/handle.go:235-239 | each histogram of a result, from the given position on, gets exactly one save attempt with the sketch at the same position; a failed save does not stop the later ones |
| `StatsFlush.DrainAnalyze` | src/vendor/github.com/pingcap/tidb/statistics/handle.go:233-240 | the save attempts are exactly the flattened requests of the whole queue, in order |
| `StatsFlush.FlushStats` | src/vendor/github.com/pingcap/tidb/statistics/handle.go:223-244 | both queues end empty; the snapshot is the one the DDL events leave, the delta maps and feedback are what the two dumpers keep; the trace is the DDL attempts in order with their reported outcomes, one delta dump, one save per histogram in queue order and one feedback dump, each with its reported outcome; watermarks and registry are unchanged |
| `StatsFlush.FlushSaveAt` | src/vendor/github.com/pingcap/tidb/statistics/handle.go:233-240 | a position of the flush trace is a save attempt exactly when it lies in the save block, and then it tries the matching histogram |
| `StatsFlush.SavesIgnoreOutcomes` | src/vendor/github.com/pingcap/tidb/statistics/handle.go:233-240 | two flushes that differ only in their collaborators' outcomes attempt the same saves at the same positions, one per histogram |

## Left out

- `atomic.Value` and every interleaving of concurrent readers and writers. The snapshot swap is plain replacement, and the model is sequential.
- Concurrent producers are not modelled. In Go, the drains read until `len(ch) == 0`, so events enqueued during a drain may also be handled. The model drains the queue as it stands.
- Channel capacities (100 and 1) are not modelled. Producers, and what happens when a queue is full, are outside this file.
- SQL text and `ExecRestrictedSQL` are left out. The meta query is a function of the floor version. Its text shows the floor is `PrevLastVersion`, and that is kept. `StatsUpdate.Update` accepts rows in any order, and its lemmas hold for every order. The query's `order by version` is modelled by `StatsUpdate.RowsAbove`, which sorts, and `StatsUpdate.UpdateReachesNewest` states what that ordering buys.
- These calls are function parameters, not modelled code, because their code is not part of this model: `tableStatsFromStorage`, `histogramFromStorage`, `cmSketchFromStorage`, `PseudoTable`, `HandleDDLEvent`, `DumpStatsDeltaToKV`, `SaveStatsToStorage` and `DumpStatsFeedbackToKV`. They are pure functions of their inputs, so storage state that changes from one call to the next is not modelled.
- Histogram buckets and sketch contents are not modelled. A histogram keeps its header, a bucket count (loaded iff the count is above 0) and a total row count. A sketch is opaque.
- `Column.Count`: Go converts `hg.totalRowCount()`, a float64, to int64. The model takes the total row count as an int64 already, so that conversion is not modelled.
- Table indices and column fields other than histogram, info, sketch and count are not modelled. The loader rebuilds the loaded column from those four fields only, so in Go every other field of that column is reset to its zero value.
- Logging, `Lease` and time, `MaxChunkSize` (set to 1 by `Clear`), `MaxQueryFeedbackCount`, the feedback capacity, `GetQueryFeedback`, and the `AnalyzeResultCh` / `LoadMetaCh` accessors are left out. They hold no cache logic.
- The registry `histogramNeededColumns` is package-level in Go. Here it is a field of the handle, and `NewHandle` takes it as it stands. The order in which `allCols()` lists it is a parameter. The whole-registry loader lemmas assume that order lists each outstanding request once (`Enumerates`).
- StatsFlush.FlushStats: requires each analyze result to have at least as many sketches as histograms. Go indexes `t.Cms[i]` for each histogram and would panic otherwise.
- The in-memory effect of the delta and feedback dumps is left to those collaborators. They return what stays in memory, and `StatsFlush.FlushStats` keeps exactly what they return.
- StatsUpdate.Update: the model does not prove that `LastVersion` never decreases. The code sets it to the last returned row's version. That version can be below the current `LastVersion`, because rows are only filtered against `PrevLastVersion` and a stats-meta row may be deleted between refreshes.
- StatsHandle.MissThenHit: assumes the pseudo-table builder returns a table under the requested id. `StatsUpdate.UpdateInstallWins`, `StatsUpdate.UpdateSkipKeeps`, `StatsUpdate.UpdateKeepsWellKeyedCache`, `StatsUpdate.OneRowExample` and `StatsUpdate.LateRowIsInstalled` require `StatsUpdate.Coherent`: the catalog resolves an id to that id, and the rebuilder builds tables under the requested id with columns keyed by histogram id. The source relies on both without checking them, because insertion keys by `tbl.TableID`. `StatsCache.UpdateKeepsWellKeyed` and `StatsHandle.GetKeepsWellKeyed` need only keyed columns.

Three behaviours of the code that the model keeps:

- `FlushStats` empties both queues whether or not individual handlers fail. Failed items are not kept for a retry.
- `Clear` does not touch the load registry or the feedback list.
- The refresh watermarks are not guaranteed to be monotonic, as explained in the `StatsUpdate.Update` item above.
