/** The periodic refresh: read the stats-meta rows newer than the previous
    watermark, classify each row against the catalog and storage, and
    publish one new snapshot. */
module StatsUpdate {
  import opened Wrappers
  import opened StatsTypes
  import opened StatsCache
  import opened StatsHandle

  /** One row of the stats-meta table. */
  datatype MetaRow = MetaRow(version: uint64, tableID: TableID, modifyCount: int64, count: int64)

  /** The collaborators a refresh consults: the schema catalog, and the
      reader that rebuilds a table's statistics from storage (`Ok(None)`
      when storage has no statistics for it). */
  datatype Sources = Sources(
    catalog: TableID -> Option<TableInfo>,
    loadTable: TableInfo -> Result<Option<Table>>)

  /** The catalog resolves an id to that id's metadata, and storage rebuilds
      a table under the id it was asked for, with every column stored under
      its own histogram id. */
  ghost predicate Coherent(src: Sources) {
    && (forall id :: src.catalog(id).Some? ==> src.catalog(id).value.id == id)
    && (forall info :: src.loadTable(info).Ok? && src.loadTable(info).value.Some? ==>
          && src.loadTable(info).value.value.tableID == info.id
          && ColumnsKeyed(src.loadTable(info).value.value))
  }

  /** What a refresh does with one row: remove the table, leave its entry
      alone, or install rebuilt statistics. */
  datatype Fate = Drop | Skip | Install(table: Table)

  function Classify(row: MetaRow, src: Sources): (f: Fate)
    ensures f.Drop? <==>
              src.catalog(row.tableID).None? ||
              src.loadTable(src.catalog(row.tableID).value) == Ok(None)
    ensures f.Skip? <==>
              src.catalog(row.tableID).Some? && src.loadTable(src.catalog(row.tableID).value).Err?
    ensures f.Install? ==>
              && f.table.version == row.version
              && f.table.count == row.count
              && f.table.modifyCount == row.modifyCount
    ensures f.Install? ==>
              && src.catalog(row.tableID).Some?
              && src.loadTable(src.catalog(row.tableID).value).Ok?
              && src.loadTable(src.catalog(row.tableID).value).value.Some?
              && var tbl := src.loadTable(src.catalog(row.tableID).value).value.value;
                 f.table == tbl.(version := row.version, count := row.count, modifyCount := row.modifyCount)
  {
    match src.catalog(row.tableID)
    case None => Drop
    case Some(info) =>
      match src.loadTable(info)
      case Err(_) => Skip
      case Ok(None) => Drop
      case Ok(Some(tbl)) =>
        Install(tbl.(version := row.version, count := row.count, modifyCount := row.modifyCount))
  }

  /** With coherent collaborators a row installs its table under the row's
      own id, with columns keyed by their ids. */
  lemma ClassifyCoherent(row: MetaRow, src: Sources)
    requires Coherent(src)
    requires Classify(row, src).Install?
    ensures Classify(row, src).table.tableID == row.tableID
    ensures ColumnsKeyed(Classify(row, src).table)
  {
  }

  /** Row `i` installs a table and no later row installs one with that id. */
  predicate LastInstallOf(rows: seq<MetaRow>, src: Sources, i: int) {
    && 0 <= i < |rows|
    && Classify(rows[i], src).Install?
    && forall j :: i < j < |rows| && Classify(rows[j], src).Install? ==>
         Classify(rows[j], src).table.tableID != Classify(rows[i], src).table.tableID
  }

  /** The table a fate installs, if any. */
  function InstallOf(f: Fate): seq<Table> {
    if f.Install? then [f.table] else []
  }

  /** The id a row's fate drops, if any. */
  function DropOf(row: MetaRow, f: Fate): seq<TableID> {
    if f.Drop? then [row.tableID] else []
  }

  /** The tables the rows install, in row order. */
  function Installed(rows: seq<MetaRow>, src: Sources): seq<Table>
    decreases |rows|
  {
    if rows == [] then []
    else
      InstallOf(Classify(rows[0], src)) + Installed(rows[1..], src)
  }

  /** The ids of the rows that drop their table, in row order. */
  function Dropped(rows: seq<MetaRow>, src: Sources): seq<TableID>
    decreases |rows|
  {
    if rows == [] then []
    else DropOf(rows[0], Classify(rows[0], src)) + Dropped(rows[1..], src)
  }

  /** An id is dropped exactly when some row with that id drops its table. */
  lemma {:induction false} DroppedMembers(rows: seq<MetaRow>, src: Sources, id: TableID)
    ensures id in Dropped(rows, src) <==>
              exists i :: 0 <= i < |rows| && rows[i].tableID == id && Classify(rows[i], src).Drop?
    decreases |rows|
  {
    if rows != [] {
      DroppedMembers(rows[1..], src, id);
      if exists i :: 0 <= i < |rows| && rows[i].tableID == id && Classify(rows[i], src).Drop? {
        var i :| 0 <= i < |rows| && rows[i].tableID == id && Classify(rows[i], src).Drop?;
        if i > 0 {
          assert rows[1..][i - 1] == rows[i];
        }
      }
      if id in Dropped(rows[1..], src) {
        var i :| 0 <= i < |rows[1..]| && rows[1..][i].tableID == id && Classify(rows[1..][i], src).Drop?;
        assert rows[i + 1] == rows[1..][i];
      }
    }
  }

  /** A table is installed exactly when some row installs it. */
  lemma {:induction false} InstalledMembers(rows: seq<MetaRow>, src: Sources, t: Table)
    ensures t in Installed(rows, src) <==> exists i :: 0 <= i < |rows| && Classify(rows[i], src) == Install(t)
    decreases |rows|
  {
    if rows != [] {
      InstalledMembers(rows[1..], src, t);
      if exists i :: 0 <= i < |rows| && Classify(rows[i], src) == Install(t) {
        var i :| 0 <= i < |rows| && Classify(rows[i], src) == Install(t);
        if i > 0 {
          assert rows[1..][i - 1] == rows[i];
        }
      }
      if t in Installed(rows[1..], src) {
        var i :| 0 <= i < |rows[1..]| && Classify(rows[1..][i], src) == Install(t);
        assert rows[i + 1] == rows[1..][i];
      }
    }
  }

  /** The table installed by the last row installing its id is the last table
      with that id in the installed sequence, so it is the one that wins. */
  lemma {:induction false} InstalledLast(rows: seq<MetaRow>, src: Sources, i: int) returns (k: int)
    requires LastInstallOf(rows, src, i)
    ensures IsLastFor(Installed(rows, src), k)
    ensures Installed(rows, src)[k] == Classify(rows[i], src).table
    decreases |rows|
  {
    var rest := Installed(rows[1..], src);
    var ts := Installed(rows, src);
    var head := InstallOf(Classify(rows[0], src));
    assert ts == head + rest;
    if i == 0 {
      var t := Classify(rows[0], src).table;
      forall k' | 0 < k' < |ts|
        ensures ts[k'].tableID != t.tableID
      {
        var u := ts[k'];
        assert u in rest;
        InstalledMembers(rows[1..], src, u);
        var j :| 0 <= j < |rows[1..]| && Classify(rows[1..][j], src) == Install(u);
        assert rows[j + 1] == rows[1..][j];
      }
      k := 0;
    } else {
      forall j | i - 1 < j < |rows[1..]|
        ensures rows[1..][j] == rows[j + 1]
      {
      }
      assert LastInstallOf(rows[1..], src, i - 1);
      var k' := InstalledLast(rows[1..], src, i - 1);
      k := k' + |head|;
    }
  }

  /** What the refresh loop accumulates: the watermark it has reached, the
      tables to install and the ids to remove. */
  datatype Batch = Batch(last: uint64, tables: seq<Table>, deleted: seq<TableID>)

  /** The refresh loop: every row advances the watermark to its version,
      whatever its fate. */
  function ScanRows(rows: seq<MetaRow>, src: Sources, acc: Batch): (b: Batch)
    ensures b.last == if rows == [] then acc.last else rows[|rows| - 1].version
    ensures b.tables == acc.tables + Installed(rows, src)
    ensures b.deleted == acc.deleted + Dropped(rows, src)
    decreases |rows|
  {
    if rows == [] then acc
    else
      var row := rows[0];
      var fate := Classify(row, src);
      var next := Batch(row.version, acc.tables + InstallOf(fate), acc.deleted + DropOf(row, fate));
      var b := ScanRows(rows[1..], src, next);
      assert acc.tables + InstallOf(fate) + Installed(rows[1..], src) ==
             acc.tables + (InstallOf(fate) + Installed(rows[1..], src));
      assert acc.deleted + DropOf(row, fate) + Dropped(rows[1..], src) ==
             acc.deleted + (DropOf(row, fate) + Dropped(rows[1..], src));
      b
  }

  /** The stats-meta rows with version above the given floor, in version order. */
  type MetaQuery = uint64 -> Result<seq<MetaRow>>

  /** Refreshes the snapshot from the rows above the previous watermark. A
      failed query changes nothing. Otherwise the previous watermark takes the
      current one's value, the current one moves to the last row's version
      (or stays, when there are no rows), and one snapshot replacement applies
      every row's fate. Nothing else in the handle changes. */
  function Update(h: Handle, query: MetaQuery, src: Sources): (r: Step)
    ensures r.err.Some? <==> query(h.prevLastVersion).Err?
    ensures r.err.Some? ==> r.h == h
    ensures r.err.None? ==>
              var rows := query(h.prevLastVersion).value;
              && r.h.prevLastVersion == h.lastVersion
              && r.h.lastVersion == (if rows == [] then h.lastVersion else rows[|rows| - 1].version)
    ensures r.h == h.(cache := r.h.cache, lastVersion := r.h.lastVersion, prevLastVersion := r.h.prevLastVersion)
  {
    match query(h.prevLastVersion)
    case Err(e) => Step(h, Some(e))
    case Ok(rows) =>
      var b := ScanRows(rows, src, Batch(h.lastVersion, [], []));
      Step(h.(prevLastVersion := h.lastVersion,
                 lastVersion := b.last,
                 cache := UpdateTableStats(h.cache, b.tables, b.deleted)), None)
  }

  /** A successful refresh publishes the tables its rows install and
      removes the ids its rows drop, in one replacement. */
  lemma UpdatePublishes(h: Handle, query: MetaQuery, src: Sources)
    requires query(h.prevLastVersion).Ok?
    ensures var rows := query(h.prevLastVersion).value;
            Update(h, query, src).h.cache ==
              UpdateTableStats(h.cache, Installed(rows, src), Dropped(rows, src))
  {
    var rows := query(h.prevLastVersion).value;
    var b := ScanRows(rows, src, Batch(h.lastVersion, [], []));
    assert b.tables == Installed(rows, src) by {
      assert [] + Installed(rows, src) == Installed(rows, src);
    }
    assert b.deleted == Dropped(rows, src) by {
      assert [] + Dropped(rows, src) == Dropped(rows, src);
    }
  }

  /** A row whose table the catalog does not know, or whose statistics
      storage does not have, leaves its id out of the new snapshot. */
  lemma UpdateDropRemoves(h: Handle, query: MetaQuery, src: Sources, i: int)
    requires query(h.prevLastVersion).Ok?
    requires 0 <= i < |query(h.prevLastVersion).value|
    requires Classify(query(h.prevLastVersion).value[i], src).Drop?
    ensures query(h.prevLastVersion).value[i].tableID !in Update(h, query, src).h.cache
  {
    var rows := query(h.prevLastVersion).value;
    UpdatePublishes(h, query, src);
    DroppedMembers(rows, src, rows[i].tableID);
  }

  /** The last row that installs an id, when no row drops that id, leaves the
      rebuilt table in the new snapshot, carrying that row's version, count
      and modify count. */
  lemma UpdateInstallWins(h: Handle, query: MetaQuery, src: Sources, i: int)
    requires Coherent(src)
    requires query(h.prevLastVersion).Ok?
    requires var rows := query(h.prevLastVersion).value;
             && 0 <= i < |rows|
             && Classify(rows[i], src).Install?
             && (forall j :: i < j < |rows| && rows[j].tableID == rows[i].tableID ==> Classify(rows[j], src).Skip?)
             && (forall j :: 0 <= j < i && rows[j].tableID == rows[i].tableID ==> !Classify(rows[j], src).Drop?)
    ensures var row := query(h.prevLastVersion).value[i];
            var c := Update(h, query, src).h.cache;
            && row.tableID in c
            && c[row.tableID] == Classify(row, src).table
            && c[row.tableID].version == row.version
            && c[row.tableID].count == row.count
            && c[row.tableID].modifyCount == row.modifyCount
  {
    var rows := query(h.prevLastVersion).value;
    var t := Classify(rows[i], src).table;
    ClassifyCoherent(rows[i], src);
    assert rows[i].tableID !in Dropped(rows, src) by {
      DroppedMembers(rows, src, rows[i].tableID);
    }
    assert LastInstallOf(rows, src, i) by {
      forall j | i < j < |rows| && Classify(rows[j], src).Install?
        ensures Classify(rows[j], src).table.tableID != t.tableID
      {
        ClassifyCoherent(rows[j], src);
      }
    }
    var k := InstalledLast(rows, src, i);
    UpdatePublishes(h, query, src);
  }

  /** An id whose rows all failed to rebuild (or that has no row at all)
      keeps its entry, or its absence, unchanged. */
  lemma UpdateSkipKeeps(h: Handle, query: MetaQuery, src: Sources, id: TableID)
    requires Coherent(src)
    requires query(h.prevLastVersion).Ok?
    requires var rows := query(h.prevLastVersion).value;
             forall i :: 0 <= i < |rows| && rows[i].tableID == id ==> Classify(rows[i], src).Skip?
    ensures var c := Update(h, query, src).h.cache;
            (id in c <==> id in h.cache) && (id in h.cache ==> c[id] == h.cache[id])
  {
    var rows := query(h.prevLastVersion).value;
    var ts := Installed(rows, src);
    assert id !in Dropped(rows, src) by {
      DroppedMembers(rows, src, id);
    }
    forall t | t in ts
      ensures t.tableID != id
    {
      InstalledMembers(rows, src, t);
      var i :| 0 <= i < |rows| && Classify(rows[i], src) == Install(t);
      ClassifyCoherent(rows[i], src);
    }
    UpdatePublishes(h, query, src);
  }

  /** With no new rows the snapshot and the current watermark stay put, and a
      second such refresh changes nothing at all. */
  lemma NoRowsIsIdempotent(h: Handle, query: MetaQuery, src: Sources)
    requires query(h.prevLastVersion) == Ok([])
    requires query(h.lastVersion) == Ok([])
    ensures var h1 := Update(h, query, src).h;
            && h1.cache == h.cache
            && h1.lastVersion == h.lastVersion
            && h1.prevLastVersion == h.lastVersion
            && Update(h1, query, src) == Step(h1, None)
  {
    var h1 := Update(h, query, src).h;
    assert h1.cache == h.cache;
    assert UpdateTableStats(h1.cache, [], []) == h1.cache;
  }

  /** A refresh keeps the snapshot well keyed. */
  lemma UpdateKeepsWellKeyedCache(h: Handle, query: MetaQuery, src: Sources)
    requires Coherent(src)
    requires WellKeyed(h.cache)
    ensures WellKeyed(Update(h, query, src).h.cache)
  {
    if query(h.prevLastVersion).Ok? {
      var rows := query(h.prevLastVersion).value;
      var ts := Installed(rows, src);
      forall i | 0 <= i < |ts|
        ensures ColumnsKeyed(ts[i])
      {
        InstalledMembers(rows, src, ts[i]);
        var j :| 0 <= j < |rows| && Classify(rows[j], src) == Install(ts[i]);
        ClassifyCoherent(rows[j], src);
      }
      UpdatePublishes(h, query, src);
      UpdateKeepsWellKeyed(h.cache, ts, Dropped(rows, src));
    }
  }

  /** The worked refresh: one row at version 5 for table 1 (modify count 3,
      count 100) whose table the catalog knows installs table 1 with exactly
      those numbers and moves the watermarks to (old current, 5). */
  lemma OneRowExample(h: Handle, src: Sources, tbl: Table)
    requires Coherent(src)
    requires src.catalog(1).Some?
    requires src.loadTable(src.catalog(1).value) == Ok(Some(tbl))
    ensures var query := (floor: uint64) => Ok([MetaRow(5, 1, 3, 100)]);
            var h1 := Update(h, query, src).h;
            && 1 in h1.cache
            && h1.cache[1].version == 5
            && h1.cache[1].count == 100
            && h1.cache[1].modifyCount == 3
            && h1.prevLastVersion == h.lastVersion
            && h1.lastVersion == 5
  {
    var query := (floor: uint64) => Ok([MetaRow(5, 1, 3, 100)]);
    var rows := [MetaRow(5, 1, 3, 100)];
    assert query(h.prevLastVersion) == Ok(rows);
    UpdateInstallWins(h, query, src, 0);
  }

  /** Versions never decrease along `rows`. */
  predicate SortedByVersion(rows: seq<MetaRow>) {
    forall i, j :: 0 <= i < j < |rows| ==> rows[i].version <= rows[j].version
  }

  /** A row no later than every row of a sorted sequence can go in front. */
  lemma SortedCons(a: MetaRow, rows: seq<MetaRow>)
    requires SortedByVersion(rows)
    requires forall y :: y in rows ==> a.version <= y.version
    ensures SortedByVersion([a] + rows)
  {
    forall i, j | 0 <= i < j < |[a] + rows|
      ensures ([a] + rows)[i].version <= ([a] + rows)[j].version
    {
      if i == 0 {
        assert ([a] + rows)[j] == rows[j - 1];
        assert rows[j - 1] in rows;
      } else {
        assert ([a] + rows)[i] == rows[i - 1] && ([a] + rows)[j] == rows[j - 1];
      }
    }
  }

  /** The first row of a sorted sequence is no later than any of its rows. */
  lemma SortedHead(rows: seq<MetaRow>, y: MetaRow)
    requires SortedByVersion(rows)
    requires y in rows
    ensures rows[0].version <= y.version
  {
    var j :| 0 <= j < |rows| && rows[j] == y;
    if j > 0 {
      assert rows[0].version <= rows[j].version;
    }
  }

  /** Puts `x` into the version-sorted `rows` before the first row with a
      larger version. */
  function InsertByVersion(x: MetaRow, rows: seq<MetaRow>): (r: seq<MetaRow>)
    requires SortedByVersion(rows)
    ensures forall y :: y in r <==> y == x || y in rows
    ensures SortedByVersion(r)
    ensures multiset(r) == multiset(rows) + multiset{x}
    decreases |rows|
  {
    if rows == [] || x.version <= rows[0].version then
      assert forall y :: y in rows ==> x.version <= y.version by {
        forall y | y in rows
          ensures x.version <= y.version
        {
          SortedHead(rows, y);
        }
      }
      SortedCons(x, rows);
      [x] + rows
    else
      SortedTail(rows);
      var rest := InsertByVersion(x, rows[1..]);
      assert forall y :: y in rest ==> rows[0].version <= y.version by {
        forall y | y in rest
          ensures rows[0].version <= y.version
        {
          if y != x {
            SortedHead(rows, y);
          }
        }
      }
      SortedCons(rows[0], rest);
      assert rows == [rows[0]] + rows[1..];
      assert multiset([rows[0]] + rest) == multiset([rows[0]]) + multiset(rest);
      assert multiset(rows) == multiset([rows[0]]) + multiset(rows[1..]);
      [rows[0]] + rest
  }

  /** Dropping the first row keeps a sequence sorted. */
  lemma SortedTail(rows: seq<MetaRow>)
    requires SortedByVersion(rows) && rows != []
    ensures SortedByVersion(rows[1..])
  {
    forall i, j | 0 <= i < j < |rows[1..]|
      ensures rows[1..][i].version <= rows[1..][j].version
    {
      assert rows[1..][i] == rows[i + 1] && rows[1..][j] == rows[j + 1];
    }
  }

  /** The rows in version order, as the meta query's `order by version`
      returns them. */
  function SortByVersion(rows: seq<MetaRow>): (r: seq<MetaRow>)
    ensures multiset(r) == multiset(rows)
    ensures SortedByVersion(r)
    decreases |rows|
  {
    if rows == [] then []
    else
      assert rows == [rows[0]] + rows[1..];
      InsertByVersion(rows[0], SortByVersion(rows[1..]))
  }

  /** The rows of `store` above `floor`, in store order. */
  function Above(store: seq<MetaRow>, floor: uint64): (rows: seq<MetaRow>)
    ensures forall r :: r in rows <==> r in store && r.version > floor
    ensures |rows| <= |store|
    decreases |store|
  {
    if store == [] then []
    else (if store[0].version > floor then [store[0]] else []) + Above(store[1..], floor)
  }

  /** What the meta query returns when the stats-meta table holds `store`:
      the rows above `floor`, in version order. */
  function RowsAbove(store: seq<MetaRow>, floor: uint64): (rows: seq<MetaRow>)
    ensures forall r :: r in rows <==> r in store && r.version > floor
    ensures SortedByVersion(rows)
    ensures multiset(rows) == multiset(Above(store, floor))
    ensures |rows| <= |store|
  {
    var above := Above(store, floor);
    var rows := SortByVersion(above);
    assert forall r :: r in rows <==> r in above by {
      forall r
        ensures r in rows <==> r in above
      {
        assert r in rows <==> r in multiset(rows);
        assert r in above <==> r in multiset(above);
      }
    }
    assert |rows| == |multiset(rows)| == |multiset(above)| == |above|;
    rows
  }

  /** The last row of a sorted sequence is no earlier than any of its rows. */
  lemma SortedLast(rows: seq<MetaRow>, y: MetaRow)
    requires SortedByVersion(rows)
    requires y in rows
    ensures y.version <= rows[|rows| - 1].version
  {
    var j :| 0 <= j < |rows| && rows[j] == y;
    if j < |rows| - 1 {
      assert rows[j].version <= rows[|rows| - 1].version;
    }
  }

  /** Refreshing from a query that returns the rows above the floor in
      version order moves the current watermark to the largest version
      above the previous watermark: every such row's version is at most the
      new watermark, and, when there is such a row, one of them carries it. */
  lemma UpdateReachesNewest(h: Handle, store: seq<MetaRow>, src: Sources)
    ensures var h1 := Update(h, (floor: uint64) => Ok(RowsAbove(store, floor)), src).h;
            forall r :: r in store && r.version > h.prevLastVersion ==> r.version <= h1.lastVersion
    ensures var h1 := Update(h, (floor: uint64) => Ok(RowsAbove(store, floor)), src).h;
            (exists r :: r in store && r.version > h.prevLastVersion) ==>
              exists r :: r in store && r.version > h.prevLastVersion && r.version == h1.lastVersion
  {
    var query := (floor: uint64) => Ok(RowsAbove(store, floor));
    var rows := RowsAbove(store, h.prevLastVersion);
    assert query(h.prevLastVersion) == Ok(rows);
    var v := Update(h, query, src).h.lastVersion;
    assert v == if rows == [] then h.lastVersion else rows[|rows| - 1].version;
    forall r | r in store && r.version > h.prevLastVersion
      ensures r.version <= v
    {
      SortedLast(rows, r);
    }
    if exists r :: r in store && r.version > h.prevLastVersion {
      var r :| r in store && r.version > h.prevLastVersion;
      assert r in rows;
      assert rows[|rows| - 1] in rows;
    }
  }

  /** Version skew: a row committed late, with a version above the watermark
      the previous refresh started from, is still read by the next refresh,
      even when that refresh already moved the current watermark past it
      (because the next query's floor is the previous watermark, not the
      current one); a query floored at the current watermark would miss it. */
  lemma LateRowIsRead(h: Handle, before: seq<MetaRow>, after: seq<MetaRow>, src: Sources, late: MetaRow)
    requires late in after
    requires late.version > h.lastVersion
    ensures var h1 := Update(h, (floor: uint64) => Ok(RowsAbove(before, floor)), src).h;
            late in RowsAbove(after, h1.prevLastVersion)
    ensures var h1 := Update(h, (floor: uint64) => Ok(RowsAbove(before, floor)), src).h;
            late.version <= h1.lastVersion ==> late !in RowsAbove(after, h1.lastVersion)
  {
  }

  /** The position of the last copy of `x` in `rows`. */
  lemma LastRowIndex(rows: seq<MetaRow>, x: MetaRow) returns (i: int)
    requires x in rows
    ensures 0 <= i < |rows| && rows[i] == x
    ensures forall j :: i < j < |rows| ==> rows[j] != x
  {
    i := |rows| - 1;
    while rows[i] != x
      invariant 0 <= i < |rows|
      invariant forall j :: i < j < |rows| ==> rows[j] != x
      decreases i
    {
      i := i - 1;
    }
  }

  /** Version skew, end to end: when the late row is the only stored row for
      its table and the table rebuilds, the next refresh installs the
      rebuilt table carrying the late row's version, although the current
      watermark had already passed it. */
  lemma LateRowIsInstalled(h: Handle, before: seq<MetaRow>, after: seq<MetaRow>, src: Sources, late: MetaRow)
    requires Coherent(src)
    requires late in after
    requires late.version > h.lastVersion
    requires forall r :: r in after && r.tableID == late.tableID ==> r == late
    requires Classify(late, src).Install?
    ensures var h1 := Update(h, (floor: uint64) => Ok(RowsAbove(before, floor)), src).h;
            var h2 := Update(h1, (floor: uint64) => Ok(RowsAbove(after, floor)), src).h;
            && late.tableID in h2.cache
            && h2.cache[late.tableID] == Classify(late, src).table
            && h2.cache[late.tableID].version == late.version
  {
    var q1 := (floor: uint64) => Ok(RowsAbove(before, floor));
    var q2 := (floor: uint64) => Ok(RowsAbove(after, floor));
    assert q1(h.prevLastVersion).Ok?;
    var h1 := Update(h, q1, src).h;
    assert h1.prevLastVersion == h.lastVersion;
    var rows := RowsAbove(after, h1.prevLastVersion);
    assert q2(h1.prevLastVersion) == Ok(rows);
    assert late in rows;
    var i := LastRowIndex(rows, late);
    forall j | 0 <= j < |rows| && rows[j].tableID == late.tableID
      ensures rows[j] == late
    {
      assert rows[j] in rows;
    }
    UpdateInstallWins(h1, q2, src, i);
  }
}
