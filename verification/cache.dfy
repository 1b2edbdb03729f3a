/** The copy-on-write statistics snapshot: a map from table id to table
    statistics that is never changed in place, only replaced by a new map
    built from a copy of the old one. */
module StatsCache {
  import opened StatsTypes

  type Cache = map<TableID, Table>

  /** The ids of the tables in `tables`. */
  function IDsOf(tables: seq<Table>): set<TableID> {
    set t | t in tables :: t.tableID
  }

  /** The ids listed in `ids`. */
  function SetOf(ids: seq<TableID>): set<TableID> {
    set id | id in ids
  }

  /** `tables[i]` is the last table in `tables` carrying its id. */
  predicate IsLastFor(tables: seq<Table>, i: int) {
    && 0 <= i < |tables|
    && forall j :: i < j < |tables| ==> tables[j].tableID != tables[i].tableID
  }

  /** Every table is stored under its own id. */
  predicate KeyedByTableID(cache: Cache) {
    forall id :: id in cache ==> cache[id].tableID == id
  }

  /** Every table is stored under its own id, and every column of every
      table under its own histogram id. */
  predicate WellKeyed(cache: Cache) {
    && KeyedByTableID(cache)
    && forall id :: id in cache ==> ColumnsKeyed(cache[id])
  }

  /** The copy the writer starts from: the same entries as the old snapshot. */
  function CopyFromOldCache(current: Cache): (copy: Cache)
    ensures copy.Keys == current.Keys
    ensures forall id :: id in current ==> copy[id] == current[id]
  {
    map id | id in current :: current[id]
  }

  /** Stores each table under its id, front to back. */
  function InsertAll(m: Cache, tables: seq<Table>): (r: Cache)
    ensures forall i :: IsLastFor(tables, i) ==> tables[i].tableID in r && r[tables[i].tableID] == tables[i]
    ensures forall id :: id in m && id !in IDsOf(tables) ==> id in r && r[id] == m[id]
    ensures r.Keys == m.Keys + IDsOf(tables)
    decreases |tables|
  {
    if tables == [] then m
    else
      var rest := InsertAll(m[tables[0].tableID := tables[0]], tables[1..]);
      assert IDsOf(tables) == {tables[0].tableID} + IDsOf(tables[1..]) by {
        assert forall t :: t in tables <==> t == tables[0] || t in tables[1..];
      }
      assert forall i :: 1 <= i && IsLastFor(tables, i) ==> IsLastFor(tables[1..], i - 1);
      rest
  }

  /** Removes each listed id, front to back. */
  function DeleteAll(m: Cache, ids: seq<TableID>): (r: Cache)
    ensures forall id :: id in r ==> id in m && r[id] == m[id]
    ensures r.Keys == m.Keys - SetOf(ids)
    decreases |ids|
  {
    if ids == [] then m
    else
      assert SetOf(ids) == {ids[0]} + SetOf(ids[1..]);
      DeleteAll(m - {ids[0]}, ids[1..])
  }

  /** Builds the next snapshot: copy the old one, store every table under its
      id, then remove every deleted id. A deletion beats an insertion, a later
      table beats an earlier one with the same id, and every other entry is
      carried over unchanged. */
  function UpdateTableStats(cache: Cache, tables: seq<Table>, deletedIDs: seq<TableID>): (r: Cache)
    ensures forall id :: id in deletedIDs ==> id !in r
    ensures forall i :: IsLastFor(tables, i) && tables[i].tableID !in deletedIDs ==>
              tables[i].tableID in r && r[tables[i].tableID] == tables[i]
    ensures forall id :: id !in deletedIDs && id !in IDsOf(tables) ==>
              (id in r <==> id in cache) && (id in cache ==> r[id] == cache[id])
    ensures r.Keys == (cache.Keys + IDsOf(tables)) - SetOf(deletedIDs)
  {
    DeleteAll(InsertAll(CopyFromOldCache(cache), tables), deletedIDs)
  }

  /** Publishing a single table with nothing deleted stores it under its id
      and changes nothing else. */
  lemma UpdateOne(cache: Cache, t: Table)
    ensures UpdateTableStats(cache, [t], []) == cache[t.tableID := t]
  {
    var copy := CopyFromOldCache(cache);
    assert copy == cache;
    assert [t][1..] == [];
    assert InsertAll(copy, [t]) == InsertAll(cache[t.tableID := t], []);
  }

  /** Publishing tables whose columns are keyed by their histogram ids keeps
      a well-keyed snapshot well keyed. */
  lemma UpdateKeepsWellKeyed(cache: Cache, tables: seq<Table>, deletedIDs: seq<TableID>)
    requires WellKeyed(cache)
    requires forall i :: 0 <= i < |tables| ==> ColumnsKeyed(tables[i])
    ensures WellKeyed(UpdateTableStats(cache, tables, deletedIDs))
  {
    var r := UpdateTableStats(cache, tables, deletedIDs);
    forall id | id in r
      ensures r[id].tableID == id && ColumnsKeyed(r[id])
    {
      if id in IDsOf(tables) {
        var i := LastIndexOf(tables, id);
      }
    }
  }

  /** The position of the last table in `tables` carrying `id`. */
  lemma LastIndexOf(tables: seq<Table>, id: TableID) returns (i: int)
    requires id in IDsOf(tables)
    ensures IsLastFor(tables, i) && tables[i].tableID == id
  {
    i := |tables| - 1;
    while tables[i].tableID != id
      invariant 0 <= i < |tables|
      invariant forall j :: i < j < |tables| ==> tables[j].tableID != id
      decreases i
    {
      i := i - 1;
    }
  }
}
