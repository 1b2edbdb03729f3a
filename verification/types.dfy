/** The entities the statistics cache holds: tables, their columns and
    histograms, and the requests and events queued for the handle. */
module StatsTypes {
  import opened Wrappers

  /** Go's uint64 (stats versions) and int64 (table ids, counts). No
      arithmetic is done on them here, so they never wrap. */
  type uint64 = x: int | 0 <= x < 0x1_0000_0000_0000_0000
  type int64 = x: int | -0x8000_0000_0000_0000 <= x < 0x8000_0000_0000_0000

  type TableID = int64
  type ColumnID = int64

  /** Column metadata from the schema catalog. */
  datatype ColumnInfo = ColumnInfo(name: string, fieldType: nat)

  /** A column histogram. The header (id, distinct count, null count, last
      update version, total column size) is known before the buckets are
      loaded; `buckets` is `Len()`, so the histogram is loaded exactly when
      `buckets > 0`. Bucket contents are abstracted to their total row count. */
  datatype Histogram = Histogram(
    id: ColumnID,
    ndv: int64,
    nullCount: int64,
    lastUpdateVersion: uint64,
    totColSize: int64,
    buckets: nat,
    totalRowCount: int64)
  {
    predicate Loaded() { buckets > 0 }
  }

  /** What reading a histogram's buckets from storage yields. */
  datatype HistogramData = HistogramData(buckets: nat, totalRowCount: int64)

  /** A count-min sketch; its contents are opaque to the cache. */
  datatype CMSketch = CMSketch(counts: seq<seq<nat>>)

  datatype Column = Column(hist: Histogram, info: ColumnInfo, cms: Option<CMSketch>, count: int64)

  /** The statistics of one table, as published in the cache. */
  datatype Table = Table(
    tableID: TableID,
    version: uint64,
    count: int64,
    modifyCount: int64,
    columns: map<ColumnID, Column>,
    pseudo: bool)

  /** Table metadata from the schema catalog. */
  datatype TableInfo = TableInfo(id: TableID, name: string)

  /** One outstanding histogram load request (table id, column id). */
  datatype NeededColumn = NeededColumn(tableID: TableID, columnID: ColumnID)

  /** A schema-change notification; its handling is done by a collaborator. */
  datatype DDLEvent = DDLEvent(kind: nat, tableID: TableID)

  /** The outcome of an analyze job: one histogram (and sketch) per analyzed
      column or index, all belonging to one table. */
  datatype AnalyzeResult = AnalyzeResult(
    tableID: TableID,
    isIndex: bool,
    count: int64,
    hist: seq<Histogram>,
    cms: seq<Option<CMSketch>>)

  /** Row-count and modify-count change accumulated for one table. */
  datatype TableDelta = TableDelta(delta: int64, count: int64)

  /** Estimated-versus-actual error accumulated for one table. */
  datatype ErrorRateDelta = ErrorRateDelta(estimated: int64, actual: int64)

  /** A per-session accumulator of deltas and error rates. */
  datatype SessionCollector = SessionCollector(mapper: map<TableID, TableDelta>, rateMap: map<TableID, ErrorRateDelta>)

  /** An observed selectivity record from query execution. */
  datatype QueryFeedback = QueryFeedback(tableID: TableID, expected: int64, actual: int64)

  /** Every column of `t` is stored under its own histogram id. */
  predicate ColumnsKeyed(t: Table) {
    forall c :: c in t.columns ==> t.columns[c].hist.id == c
  }
}
