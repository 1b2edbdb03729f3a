/** The statistics handle as an immutable record: the published snapshot,
    the two refresh watermarks, the outstanding histogram load requests, the
    two event queues and the delta/feedback accumulators. Every operation is
    a transition from one record to the next. */
module StatsHandle {
  import opened Wrappers
  import opened StatsTypes
  import opened StatsCache

  /** The accumulated usage deltas: the head session collector and the
      coordinator-owned delta and error-rate maps. */
  datatype Deltas = Deltas(
    listHead: SessionCollector,
    globalMap: map<TableID, TableDelta>,
    rateMap: map<TableID, ErrorRateDelta>)

  datatype Handle = Handle(
    cache: Cache,
    /** The latest version seen by the last refresh. */
    lastVersion: uint64,
    /** The value `lastVersion` had before the last refresh; the floor of the
        next meta query. */
    prevLastVersion: uint64,
    /** The outstanding histogram load requests. */
    needed: set<NeededColumn>,
    ddlEvents: seq<DDLEvent>,
    analyzeResults: seq<AnalyzeResult>,
    deltas: Deltas,
    feedback: seq<QueryFeedback>)

  /** The outcome of a fallible operation: the next handle, and the error
      the operation returned, if any. */
  datatype Step = Step(h: Handle, err: Option<string>)

  function EmptyDeltas(): Deltas {
    Deltas(SessionCollector(map[], map[]), map[], map[])
  }

  /** Nothing cached, nothing queued, nothing accumulated. */
  predicate IsEmptyState(h: Handle) {
    && h.cache == map[]
    && h.lastVersion == 0
    && h.prevLastVersion == 0
    && h.ddlEvents == []
    && h.analyzeResults == []
    && h.deltas.listHead.mapper == map[]
    && h.deltas.listHead.rateMap == map[]
    && h.deltas.globalMap == map[]
    && h.deltas.rateMap == map[]
  }

  /** A fresh handle. The load-request registry lives outside the handle, so
      it is passed in as it stands. */
  function NewHandle(needed: set<NeededColumn>): (h: Handle)
    ensures IsEmptyState(h) && h.feedback == []
    ensures h.needed == needed
  {
    Handle(map[], 0, 0, needed, [], [], EmptyDeltas(), [])
  }

  /** Resets the handle: empty snapshot, zero watermarks, both queues drained,
      fresh delta maps. The load-request registry and the feedback list are
      not touched. */
  function Clear(h: Handle): (r: Handle)
    ensures IsEmptyState(r)
    ensures r.needed == h.needed && r.feedback == h.feedback
  {
    h.(cache := map[],
       lastVersion := 0,
       prevLastVersion := 0,
       ddlEvents := [],
       analyzeResults := [],
       deltas := EmptyDeltas())
  }

  /** A cleared handle is a new handle that kept its feedback list, and
      clearing twice is clearing once. */
  lemma ClearIsReset(h: Handle)
    ensures Clear(h) == NewHandle(h.needed).(feedback := h.feedback)
    ensures Clear(Clear(h)) == Clear(h)
  {
  }

  /** Looks a table up in the snapshot. On a miss the pseudo table built from
      the catalog metadata is published (under its own id) and returned. */
  function GetTableStats(h: Handle, info: TableInfo, pseudoTable: TableInfo -> Table): (r: (Handle, Table))
    ensures info.id in h.cache ==> r.0 == h && r.1 == h.cache[info.id]
    ensures info.id !in h.cache ==>
              && r.1 == pseudoTable(info)
              && r.0 == h.(cache := r.0.cache)
              && r.0.cache.Keys == h.cache.Keys + {r.1.tableID}
              && r.0.cache[r.1.tableID] == r.1
              && forall id :: id in h.cache && id != r.1.tableID ==> r.0.cache[id] == h.cache[id]
  {
    if info.id in h.cache then (h, h.cache[info.id])
    else
      var tbl := pseudoTable(info);
      assert IsLastFor([tbl], 0);
      (h.(cache := UpdateTableStats(h.cache, [tbl], [])), tbl)
  }

  /** When the pseudo table carries the requested id, a miss is followed by a
      hit on the same table, and the snapshot gains exactly that one entry. */
  lemma MissThenHit(h: Handle, info: TableInfo, pseudoTable: TableInfo -> Table)
    requires pseudoTable(info).tableID == info.id
    ensures var (h1, t1) := GetTableStats(h, info, pseudoTable);
            var (h2, t2) := GetTableStats(h1, info, pseudoTable);
            && info.id in h1.cache
            && h2 == h1 && t2 == t1
            && |h1.cache| == |h.cache| + (if info.id in h.cache then 0 else 1)
  {
    var (h1, t1) := GetTableStats(h, info, pseudoTable);
    if info.id !in h.cache {
      assert h1.cache.Keys == h.cache.Keys + {info.id};
      assert |h1.cache.Keys| == |h.cache.Keys| + 1;
    }
  }

  /** A new or cleared handle starts from a well-keyed (empty) snapshot. */
  lemma EmptyIsWellKeyed(h: Handle)
    ensures WellKeyed(NewHandle(h.needed).cache) && WellKeyed(Clear(h).cache)
  {
  }

  /** Looking up keeps the snapshot well keyed when the pseudo table's
      columns are keyed by their ids. */
  lemma GetKeepsWellKeyed(h: Handle, info: TableInfo, pseudoTable: TableInfo -> Table)
    requires WellKeyed(h.cache)
    requires ColumnsKeyed(pseudoTable(info))
    ensures WellKeyed(GetTableStats(h, info, pseudoTable).0.cache)
  {
    if info.id !in h.cache {
      UpdateOne(h.cache, pseudoTable(info));
    }
  }
}
