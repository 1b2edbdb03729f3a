/** The lazy histogram loader: for every outstanding (table, column) load
    request, read the column's buckets and sketch from storage and publish a
    copy of the table with that one column replaced. */
module HistogramLoader {
  import opened Wrappers
  import opened StatsTypes
  import opened StatsCache
  import opened StatsHandle

  /** The storage readers the loader uses: a column's buckets (given the
      column's header) and its count-min sketch. */
  datatype Storage = Storage(
    histogram: (TableID, Column) -> Result<HistogramData>,
    sketch: (TableID, ColumnID) -> Result<Option<CMSketch>>)

  /** The part of the handle the loader reads and writes. */
  datatype LoadState = LoadState(cache: Cache, needed: set<NeededColumn>)

  /** Column `cid` of `t` exists and its histogram has no buckets yet. */
  predicate Unloaded(t: Table, cid: ColumnID) {
    cid in t.columns && !t.columns[cid].hist.Loaded()
  }

  /** Column `cid` is present in both tables or in neither, and equal if present. */
  predicate SameColumn(t: Table, u: Table, cid: ColumnID) {
    && (cid in t.columns <==> cid in u.columns)
    && (cid in t.columns ==> t.columns[cid] == u.columns[cid])
  }

  /** The column that replaces `c` once its buckets and sketch are read: the
      histogram header and the column metadata are kept, the buckets and
      sketch are the ones read, and the column count is the histogram's
      total row count. */
  function LoadedColumn(c: Column, d: HistogramData, cms: Option<CMSketch>): (r: Column)
    ensures r.hist.id == c.hist.id && r.hist.ndv == c.hist.ndv && r.hist.nullCount == c.hist.nullCount
    ensures r.hist.lastUpdateVersion == c.hist.lastUpdateVersion && r.hist.totColSize == c.hist.totColSize
    ensures r.hist.Loaded() <==> d.buckets > 0
    ensures r.count == r.hist.totalRowCount == d.totalRowCount
    ensures r.info == c.info && r.cms == cms
  {
    Column(c.hist.(buckets := d.buckets, totalRowCount := d.totalRowCount), c.info, cms, d.totalRowCount)
  }

  /** A copy of `t` with column `c` stored under its histogram id. */
  function ReplaceColumn(t: Table, c: Column): (u: Table)
    ensures u == t.(columns := u.columns)
    ensures c.hist.id in u.columns && u.columns[c.hist.id] == c
    ensures forall cid :: cid != c.hist.id ==> SameColumn(u, t, cid)
    ensures ColumnsKeyed(t) ==> ColumnsKeyed(u)
  {
    t.(columns := t.columns[c.hist.id := c])
  }

  /** Publishing a table already in a well-keyed snapshot replaces exactly
      that entry and keeps the snapshot well keyed. */
  lemma PublishReplaces(cache: Cache, t: Table)
    requires WellKeyed(cache) && t.tableID in cache && ColumnsKeyed(t)
    ensures UpdateTableStats(cache, [t], []) == cache[t.tableID := t]
    ensures WellKeyed(cache[t.tableID := t])
  {
    UpdateOne(cache, t);
  }

  /** Between two snapshots only column `col` of its table may differ: both
      are well keyed, hold the same tables, and agree on every non-column
      field and on every other column. */
  predicate OnlyColumnChanged(before: Cache, after: Cache, col: NeededColumn) {
    && WellKeyed(after)
    && after.Keys == before.Keys
    && (forall id :: id in before ==> after[id] == before[id].(columns := after[id].columns))
    && (forall id, cid :: id in before && NeededColumn(id, cid) != col ==>
          SameColumn(after[id], before[id], cid))
  }

  /** Storing a new version of column `col` (one that keeps the column's
      histogram id) in its table changes only that column. */
  lemma ReplaceChangesOnlyColumn(cache: Cache, col: NeededColumn, nc: Column)
    requires WellKeyed(cache)
    requires col.tableID in cache && col.columnID in cache[col.tableID].columns
    requires nc.hist.id == col.columnID
    ensures OnlyColumnChanged(cache, cache[col.tableID := ReplaceColumn(cache[col.tableID], nc)], col)
  {
    var t' := ReplaceColumn(cache[col.tableID], nc);
    var after := cache[col.tableID := t'];
    forall id, cid | id in cache && NeededColumn(id, cid) != col
      ensures SameColumn(after[id], cache[id], cid)
    {
      if id == col.tableID {
        assert cid != nc.hist.id;
      }
    }
  }

  /** Reads the buckets and sketch of a present, unloaded column and
      publishes a copy of its table with that column replaced. If either
      read fails the error is returned and nothing changes. */
  function ReadColumn(s: LoadState, col: NeededColumn, st: Storage): (r: Result<LoadState>)
    requires col.tableID in s.cache && Unloaded(s.cache[col.tableID], col.columnID)
    ensures var c := s.cache[col.tableID].columns[col.columnID];
            r.Err? <==> st.histogram(col.tableID, c).Err? || st.sketch(col.tableID, col.columnID).Err?
    ensures r.Ok? ==> r.value.needed == s.needed - {col}
    ensures r.Ok? && WellKeyed(s.cache) ==>
              && OnlyColumnChanged(s.cache, r.value.cache, col)
              && var c := s.cache[col.tableID].columns[col.columnID];
                 && col.columnID in r.value.cache[col.tableID].columns
                 && r.value.cache[col.tableID].columns[col.columnID] ==
                      LoadedColumn(c, st.histogram(col.tableID, c).value, st.sketch(col.tableID, col.columnID).value)
  {
    var tbl := s.cache[col.tableID];
    var c := tbl.columns[col.columnID];
    match st.histogram(col.tableID, c)
    case Err(e) => Err(e)
    case Ok(d) =>
      match st.sketch(col.tableID, col.columnID)
      case Err(e) => Err(e)
      case Ok(cms) =>
        var tbl' := ReplaceColumn(tbl, LoadedColumn(c, d, cms));
        assert WellKeyed(s.cache) ==>
                 && UpdateTableStats(s.cache, [tbl'], []) == s.cache[col.tableID := tbl']
                 && OnlyColumnChanged(s.cache, s.cache[col.tableID := tbl'], col) by {
          if WellKeyed(s.cache) {
            PublishReplaces(s.cache, tbl');
            ReplaceChangesOnlyColumn(s.cache, col, LoadedColumn(c, d, cms));
          }
        }
        Ok(LoadState(UpdateTableStats(s.cache, [tbl'], []), s.needed - {col}))
  }

  /** Serves one load request. A request for a table not in the snapshot
      stays outstanding. A request for a missing or already loaded column is
      dropped. Otherwise the column is read from storage: on an error nothing
      changes, on success the column is published and the request dropped. */
  function LoadColumn(s: LoadState, col: NeededColumn, st: Storage): (r: Result<LoadState>)
    ensures col.tableID !in s.cache ==> r == Ok(s)
    ensures col.tableID in s.cache && !Unloaded(s.cache[col.tableID], col.columnID) ==>
              r == Ok(LoadState(s.cache, s.needed - {col}))
    ensures col.tableID in s.cache && Unloaded(s.cache[col.tableID], col.columnID) ==>
              r == ReadColumn(s, col, st)
    ensures r.Ok? ==> r.value.needed == s.needed - {col} || r.value.needed == s.needed
    ensures r.Ok? && WellKeyed(s.cache) ==> OnlyColumnChanged(s.cache, r.value.cache, col)
  {
    if col.tableID !in s.cache then Ok(s)
    else if !Unloaded(s.cache[col.tableID], col.columnID) then Ok(LoadState(s.cache, s.needed - {col}))
    else ReadColumn(s, col, st)
  }

  /** Serves the requests in `order`, stopping at the first storage error. */
  function LoadLoop(order: seq<NeededColumn>, s: LoadState, st: Storage): (r: (LoadState, Option<string>))
    ensures r.0.needed <= s.needed
    ensures forall e :: e in s.needed && e !in order ==> e in r.0.needed
    ensures WellKeyed(s.cache) ==> WellKeyed(r.0.cache) && r.0.cache.Keys == s.cache.Keys
    decreases |order|
  {
    if order == [] then (s, None)
    else
      match LoadColumn(s, order[0], st)
      case Err(e) => (s, Some(e))
      case Ok(s1) => LoadLoop(order[1..], s1, st)
  }

  /** `order` lists the outstanding requests, each once: a snapshot of the
      registry. */
  predicate Enumerates(order: seq<NeededColumn>, needed: set<NeededColumn>) {
    && (forall e :: e in order ==> e in needed)
    && (forall e :: e in needed ==> e in order)
    && Distinct(order)
  }

  /** Serves every outstanding request, in the order the registry lists
      them, and publishes each loaded column as it goes. */
  function LoadNeededHistograms(h: Handle, order: seq<NeededColumn>, st: Storage): (r: Step)
    ensures r.h == h.(cache := r.h.cache, needed := r.h.needed)
    ensures r.h.needed <= h.needed
    ensures WellKeyed(h.cache) ==> WellKeyed(r.h.cache) && r.h.cache.Keys == h.cache.Keys
  {
    var (s, err) := LoadLoop(order, LoadState(h.cache, h.needed), st);
    Step(h.(cache := s.cache, needed := s.needed), err)
  }

  /** After a run without errors, a request stays outstanding exactly when its
      table is not in the snapshot. */
  lemma {:induction false} LoadSuccessRegistry(order: seq<NeededColumn>, s: LoadState, st: Storage, e: NeededColumn)
    requires WellKeyed(s.cache)
    requires LoadLoop(order, s, st).1.None?
    requires e in order && e in s.needed
    ensures e in LoadLoop(order, s, st).0.needed <==> e.tableID !in s.cache
    decreases |order|
  {
    var s1 := LoadColumn(s, order[0], st).value;
    var r := LoadLoop(order[1..], s1, st).0;
    if e == order[0] {
      if e.tableID in s.cache {
        assert e !in s1.needed;
      } else if e in order[1..] {
        LoadSuccessRegistry(order[1..], s1, st, e);
      }
    } else {
      assert e in order[1..];
      LoadSuccessRegistry(order[1..], s1, st, e);
    }
  }

  /** When a run stops at a storage error, it stops at request `k`: the
      requests before `k` are served without error, request `k` fails, and
      the run ends in the state the requests before `k` left (so every
      column loaded before the error stays published). The failing request
      and every request after it that was not served earlier keep their
      registry status. */
  lemma {:induction false} LoadErrorKeepsRest(order: seq<NeededColumn>, s: LoadState, st: Storage) returns (k: int)
    requires LoadLoop(order, s, st).1.Some?
    ensures 0 <= k < |order|
    ensures LoadLoop(order[..k], s, st).1.None?
    ensures LoadColumn(LoadLoop(order[..k], s, st).0, order[k], st).Err?
    ensures LoadLoop(order, s, st).0 == LoadLoop(order[..k], s, st).0
    ensures forall j :: k <= j < |order| && order[j] !in order[..k] ==>
              (order[j] in LoadLoop(order, s, st).0.needed <==> order[j] in s.needed)
    decreases |order|
  {
    var step := LoadColumn(s, order[0], st);
    if step.Err? {
      k := 0;
      assert order[..0] == [];
    } else {
      var s1 := step.value;
      assert s1.needed == s.needed - {order[0]} || s1.needed == s.needed;
      var k' := LoadErrorKeepsRest(order[1..], s1, st);
      var r := LoadLoop(order[1..], s1, st).0;
      assert LoadLoop(order, s, st).0 == r;
      k := k' + 1;
      assert order[..k][0] == order[0];
      assert order[..k][1..] == order[1..][..k'];
      assert LoadLoop(order[..k], s, st) == LoadLoop(order[1..][..k'], s1, st);
      assert order[k] == order[1..][k'];
      forall j | k <= j < |order| && order[j] !in order[..k]
        ensures order[j] in r.needed <==> order[j] in s.needed
      {
        assert order[..k] == [order[0]] + order[1..][..k'];
        assert order[1..][j - 1] == order[j];
        assert order[j] != order[0];
        assert order[1..][j - 1] !in order[1..][..k'];
      }
    }
  }

  /** Request `e` was served from storage: both reads succeeded and `after`
      holds the column built from them, in place of the unloaded column
      `before` had. */
  predicate LoadedFromStorage(before: Cache, after: Cache, e: NeededColumn, st: Storage)
    requires e.tableID in before && e.columnID in before[e.tableID].columns
  {
    var c := before[e.tableID].columns[e.columnID];
    && st.histogram(e.tableID, c).Ok?
    && st.sketch(e.tableID, e.columnID).Ok?
    && e.tableID in after
    && e.columnID in after[e.tableID].columns
    && after[e.tableID].columns[e.columnID] ==
         LoadedColumn(c, st.histogram(e.tableID, c).value, st.sketch(e.tableID, e.columnID).value)
  }

  /** `order` lists no request twice. */
  predicate Distinct(order: seq<NeededColumn>) {
    forall i, j :: 0 <= i < j < |order| ==> order[i] != order[j]
  }

  /** An error-free run that serves a present, unloaded column first
      loads it, and no later request touches it. */
  lemma LoadFirstRequested(order: seq<NeededColumn>, s: LoadState, st: Storage)
    requires WellKeyed(s.cache)
    requires LoadLoop(order, s, st).1.None?
    requires Distinct(order) && order != []
    requires order[0].tableID in s.cache && Unloaded(s.cache[order[0].tableID], order[0].columnID)
    ensures LoadedFromStorage(s.cache, LoadLoop(order, s, st).0.cache, order[0], st)
  {
    var e := order[0];
    var r := ReadColumn(s, e, st);
    assert LoadColumn(s, e, st) == r;
    var s1 := r.value;
    assert LoadLoop(order, s, st) == LoadLoop(order[1..], s1, st);
    assert LoadedFromStorage(s.cache, s1.cache, e, st);
    assert e !in order[1..] by {
      forall j | 0 <= j < |order[1..]|
        ensures order[1..][j] != e
      {
        assert order[1..][j] == order[j + 1];
      }
    }
    LoadOnlyRequestedColumns(order[1..], s1, st, e.tableID, e.columnID);
  }

  /** A prefix of a list without repeats has no repeats. */
  lemma DistinctPrefix(order: seq<NeededColumn>, k: int)
    requires Distinct(order) && 0 <= k <= |order|
    ensures Distinct(order[..k])
  {
    forall i, j | 0 <= i < j < |order[..k]|
      ensures order[..k][i] != order[..k][j]
    {
      assert order[..k][i] == order[i] && order[..k][j] == order[j];
    }
  }

  /** An error-free run loads every listed request whose column was present
      and unloaded: the column ends up as storage returned it. */
  lemma {:induction false} LoadLoadsRequested(order: seq<NeededColumn>, s: LoadState, st: Storage, e: NeededColumn)
    requires WellKeyed(s.cache)
    requires LoadLoop(order, s, st).1.None?
    requires Distinct(order)
    requires e in order
    requires e.tableID in s.cache && Unloaded(s.cache[e.tableID], e.columnID)
    ensures LoadedFromStorage(s.cache, LoadLoop(order, s, st).0.cache, e, st)
    decreases |order|
  {
    var step := LoadColumn(s, order[0], st);
    var s1 := step.value;
    assert LoadLoop(order, s, st) == LoadLoop(order[1..], s1, st);
    assert OnlyColumnChanged(s.cache, s1.cache, order[0]);
    assert Distinct(order[1..]) by {
      forall i, j | 0 <= i < j < |order[1..]|
        ensures order[1..][i] != order[1..][j]
      {
        assert order[1..][i] == order[i + 1] && order[1..][j] == order[j + 1];
      }
    }
    if order[0] == e {
      LoadFirstRequested(order, s, st);
    } else {
      assert SameColumn(s1.cache[e.tableID], s.cache[e.tableID], e.columnID);
      assert e in order[1..];
      LoadLoadsRequested(order[1..], s1, st, e);
    }
  }

  /** Only requested columns change: every other column of every table, and
      every non-column field of every table, is left as it was. */
  lemma {:induction false} LoadOnlyRequestedColumns(order: seq<NeededColumn>, s: LoadState, st: Storage, id: TableID, cid: ColumnID)
    requires WellKeyed(s.cache)
    requires id in s.cache
    requires NeededColumn(id, cid) !in order
    ensures var c := LoadLoop(order, s, st).0.cache;
            && id in c
            && c[id] == s.cache[id].(columns := c[id].columns)
            && SameColumn(c[id], s.cache[id], cid)
    decreases |order|
  {
    if order != [] {
      match LoadColumn(s, order[0], st)
      case Err(_) =>
      case Ok(s1) =>
        LoadOnlyRequestedColumns(order[1..], s1, st, id, cid);
    }
  }

  /** A run over the whole registry that meets no storage error leaves
      outstanding exactly the requests whose table is not in the snapshot. */
  lemma LoadNeededSuccess(h: Handle, order: seq<NeededColumn>, st: Storage)
    requires WellKeyed(h.cache)
    requires Enumerates(order, h.needed)
    requires LoadNeededHistograms(h, order, st).err.None?
    ensures LoadNeededHistograms(h, order, st).h.needed == set e | e in h.needed && e.tableID !in h.cache
    ensures forall e :: e in h.needed && e.tableID in h.cache && Unloaded(h.cache[e.tableID], e.columnID) ==>
              LoadedFromStorage(h.cache, LoadNeededHistograms(h, order, st).h.cache, e, st)
  {
    var s := LoadState(h.cache, h.needed);
    var r := LoadNeededHistograms(h, order, st).h;
    forall e | e in h.needed
      ensures e in r.needed <==> e.tableID !in h.cache
    {
      LoadSuccessRegistry(order, s, st, e);
    }
    forall e | e in h.needed && e.tableID in h.cache && Unloaded(h.cache[e.tableID], e.columnID)
      ensures LoadedFromStorage(h.cache, r.cache, e, st)
    {
      LoadLoadsRequested(order, s, st, e);
    }
  }

  /** A run over the whole registry that stops at a storage error stops at
      request `k`: the requests before it are served without error, request
      `k` fails, the handle keeps everything those earlier requests
      published, and the failing request and every later one stay
      outstanding. */
  lemma LoadNeededError(h: Handle, order: seq<NeededColumn>, st: Storage) returns (k: int)
    requires Enumerates(order, h.needed)
    requires LoadNeededHistograms(h, order, st).err.Some?
    ensures 0 <= k < |order|
    ensures var prefix := LoadLoop(order[..k], LoadState(h.cache, h.needed), st);
            && prefix.1.None?
            && LoadColumn(prefix.0, order[k], st).Err?
            && LoadNeededHistograms(h, order, st).h.cache == prefix.0.cache
            && LoadNeededHistograms(h, order, st).h.needed == prefix.0.needed
    ensures forall j :: k <= j < |order| ==> order[j] in LoadNeededHistograms(h, order, st).h.needed
  {
    k := LoadErrorKeepsRest(order, LoadState(h.cache, h.needed), st);
  }

  /** In a run over the whole well-keyed registry that stops at a storage
      error, a request served before the failing one stays outstanding
      exactly when its table is not in the snapshot. */
  lemma LoadNeededErrorServed(h: Handle, order: seq<NeededColumn>, st: Storage) returns (k: int)
    requires WellKeyed(h.cache)
    requires Enumerates(order, h.needed)
    requires LoadNeededHistograms(h, order, st).err.Some?
    ensures 0 <= k < |order|
    ensures LoadColumn(LoadLoop(order[..k], LoadState(h.cache, h.needed), st).0, order[k], st).Err?
    ensures forall j :: 0 <= j < k ==>
              (order[j] in LoadNeededHistograms(h, order, st).h.needed <==> order[j].tableID !in h.cache)
    ensures forall j :: 0 <= j < k && order[j].tableID in h.cache && Unloaded(h.cache[order[j].tableID], order[j].columnID) ==>
              LoadedFromStorage(h.cache, LoadNeededHistograms(h, order, st).h.cache, order[j], st)
  {
    var s := LoadState(h.cache, h.needed);
    k := LoadErrorKeepsRest(order, s, st);
    forall j | 0 <= j < k
      ensures order[j] in LoadNeededHistograms(h, order, st).h.needed <==> order[j].tableID !in h.cache
    {
      assert order[..k][j] == order[j];
      LoadSuccessRegistry(order[..k], s, st, order[j]);
    }
    DistinctPrefix(order, k);
    var prefix := LoadLoop(order[..k], s, st);
    assert LoadNeededHistograms(h, order, st).h.cache == prefix.0.cache;
    forall j | 0 <= j < k && order[j].tableID in h.cache && Unloaded(h.cache[order[j].tableID], order[j].columnID)
      ensures LoadedFromStorage(h.cache, prefix.0.cache, order[j], st)
    {
      assert order[..k][j] == order[j];
      LoadLoadsRequested(order[..k], s, st, order[j]);
    }
  }
}
