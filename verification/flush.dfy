/** Flushing: drain the schema-change queue, dump the accumulated deltas,
    drain the analyze-result queue saving every histogram, and dump the
    query feedback. Every call the flush makes to a collaborator is recorded
    in a trace, with whether it reported success. */
module StatsFlush {
  import opened Wrappers
  import opened StatsTypes
  import opened StatsCache
  import opened StatsHandle

  /** One histogram (with its sketch) to persist for a table. */
  datatype SaveRequest = SaveRequest(
    tableID: TableID,
    count: int64,
    isIndex: bool,
    hist: Histogram,
    cms: Option<CMSketch>)

  /** A call the flush made, and whether it succeeded. */
  datatype Attempt =
    | HandleDDL(event: DDLEvent, ok: bool)
    | DumpDelta(ok: bool)
    | Save(request: SaveRequest, ok: bool)
    | DumpFeedback(ok: bool)

  /** The collaborators a flush calls: the schema-change handler (which may
      change the snapshot), the delta dumper and the feedback dumper (which
      return what is left to keep in memory), and the histogram saver. */
  datatype Collaborators = Collaborators(
    handleDDL: (Cache, DDLEvent) -> (Cache, bool),
    dumpDelta: Deltas -> (Deltas, bool),
    save: SaveRequest -> bool,
    dumpFeedback: seq<QueryFeedback> -> (seq<QueryFeedback>, bool))

  /** An analyze result carries a sketch slot for each of its histograms. */
  predicate Saveable(t: AnalyzeResult) {
    |t.cms| >= |t.hist|
  }

  /** The save requests an analyze result calls for: one per histogram, in
      order, each with the sketch at the same position. */
  function RequestsOf(t: AnalyzeResult): (reqs: seq<SaveRequest>)
    requires Saveable(t)
  {
    seq(|t.hist|, i requires 0 <= i < |t.hist| =>
      SaveRequest(t.tableID, t.count, t.isIndex, t.hist[i], t.cms[i]))
  }

  /** The save requests a queue of analyze results calls for, in order. */
  function AllRequests(results: seq<AnalyzeResult>): seq<SaveRequest>
    requires forall i :: 0 <= i < |results| ==> Saveable(results[i])
    decreases |results|
  {
    if results == [] then [] else RequestsOf(results[0]) + AllRequests(results[1..])
  }

  /** The number of histograms in a queue of analyze results. */
  function HistogramCount(results: seq<AnalyzeResult>): nat
    decreases |results|
  {
    if results == [] then 0 else |results[0].hist| + HistogramCount(results[1..])
  }

  /** There is one save request per histogram. */
  lemma {:induction false} AllRequestsCount(results: seq<AnalyzeResult>)
    requires forall i :: 0 <= i < |results| ==> Saveable(results[i])
    ensures |AllRequests(results)| == HistogramCount(results)
    decreases |results|
  {
    if results != [] {
      AllRequestsCount(results[1..]);
    }
  }

  /** The trace `attempts` tries exactly `reqs`, in order, each once, with
      the outcome the saver reports. */
  predicate SavesExactly(attempts: seq<Attempt>, reqs: seq<SaveRequest>, co: Collaborators) {
    && |attempts| == |reqs|
    && forall k :: 0 <= k < |attempts| ==> attempts[k] == Save(reqs[k], co.save(reqs[k]))
  }

  /** Two traces that each try their requests exactly, one after the other,
      try the concatenated requests exactly. */
  lemma SavesConcat(a: seq<Attempt>, ra: seq<SaveRequest>, b: seq<Attempt>, rb: seq<SaveRequest>, co: Collaborators)
    requires SavesExactly(a, ra, co) && SavesExactly(b, rb, co)
    ensures SavesExactly(a + b, ra + rb, co)
  {
    forall k | 0 <= k < |a + b|
      ensures (a + b)[k] == Save((ra + rb)[k], co.save((ra + rb)[k]))
    {
      if k >= |a| {
        assert (a + b)[k] == b[k - |a|];
        assert (ra + rb)[k] == rb[k - |a|];
      }
    }
  }

  /** The snapshot after the handler has seen the first `k` events, each
      applied to the snapshot the previous one left. */
  function CacheAfterDDL(cache: Cache, events: seq<DDLEvent>, k: nat, co: Collaborators): Cache
    requires k <= |events|
    decreases k
  {
    if k == 0 then cache else co.handleDDL(CacheAfterDDL(cache, events, k - 1, co), events[k - 1]).0
  }

  /** Handling the first event and then `k` more is handling `k + 1` events. */
  lemma {:induction false} CacheAfterFirst(cache: Cache, events: seq<DDLEvent>, k: nat, co: Collaborators)
    requires k < |events|
    ensures CacheAfterDDL(cache, events, k + 1, co) ==
              CacheAfterDDL(co.handleDDL(cache, events[0]).0, events[1..], k, co)
    decreases k
  {
    if k > 0 {
      CacheAfterFirst(cache, events, k - 1, co);
      assert events[1..][k - 1] == events[k];
    }
  }

  /** `attempts` handles each of `events` once, in order, each with the
      outcome the handler reports on the snapshot the earlier events left. */
  predicate HandlesInOrder(attempts: seq<Attempt>, cache: Cache, events: seq<DDLEvent>, co: Collaborators) {
    && |attempts| == |events|
    && forall k :: 0 <= k < |events| ==> HandledAt(attempts, cache, events, co, k)
  }

  /** Attempt `k` handles event `k` with the outcome the handler reports on
      the snapshot the first `k` events left. */
  predicate HandledAt(attempts: seq<Attempt>, cache: Cache, events: seq<DDLEvent>, co: Collaborators, k: nat)
    requires k < |attempts| && k < |events|
  {
    attempts[k] == HandleDDL(events[k], co.handleDDL(CacheAfterDDL(cache, events, k, co), events[k]).1)
  }

  /** Handling the first event and then the rest, on the snapshot the first
      left, handles all of them in order. */
  lemma HandlesStep(cache: Cache, events: seq<DDLEvent>, co: Collaborators, rest: seq<Attempt>)
    requires events != []
    requires HandlesInOrder(rest, co.handleDDL(cache, events[0]).0, events[1..], co)
    ensures HandlesInOrder([HandleDDL(events[0], co.handleDDL(cache, events[0]).1)] + rest, cache, events, co)
  {
    var next := co.handleDDL(cache, events[0]).0;
    var all := [HandleDDL(events[0], co.handleDDL(cache, events[0]).1)] + rest;
    forall k | 0 <= k < |events|
      ensures HandledAt(all, cache, events, co, k)
    {
      if k > 0 {
        assert HandledAt(rest, next, events[1..], co, k - 1);
        CacheAfterFirst(cache, events, k - 1, co);
        assert all[k] == rest[k - 1];
        assert events[1..][k - 1] == events[k];
      }
    }
  }

  /** A trace that handles events in order holds only schema-change
      attempts, one per event, each for its event. */
  lemma HandlesAreDDL(attempts: seq<Attempt>, cache: Cache, events: seq<DDLEvent>, co: Collaborators)
    requires HandlesInOrder(attempts, cache, events, co)
    ensures forall j :: 0 <= j < |attempts| ==> attempts[j].HandleDDL? && attempts[j].event == events[j]
  {
    forall j | 0 <= j < |attempts|
      ensures attempts[j].HandleDDL? && attempts[j].event == events[j]
    {
      assert HandledAt(attempts, cache, events, co, j);
    }
  }

  /** Handles the queued schema-change events in order; a failing event is
      recorded and the drain goes on. Each event sees the snapshot the
      previous one left, and the drain ends with the last such snapshot. */
  function DrainDDL(cache: Cache, events: seq<DDLEvent>, co: Collaborators): (r: (Cache, seq<Attempt>))
    ensures HandlesInOrder(r.1, cache, events, co)
    ensures r.0 == CacheAfterDDL(cache, events, |events|, co)
    decreases |events|
  {
    if events == [] then (cache, [])
    else
      var (next, ok) := co.handleDDL(cache, events[0]);
      var (last, rest) := DrainDDL(next, events[1..], co);
      HandlesStep(cache, events, co, rest);
      CacheAfterFirst(cache, events, |events| - 1, co);
      (last, [HandleDDL(events[0], ok)] + rest)
  }

  /** A handler that never changes the snapshot leaves the drain's snapshot
      as it was, whatever it reports. */
  lemma {:induction false} CacheAfterInertHandler(cache: Cache, events: seq<DDLEvent>, k: nat, co: Collaborators)
    requires forall c, e :: co.handleDDL(c, e).0 == c
    requires k <= |events|
    ensures CacheAfterDDL(cache, events, k, co) == cache
    decreases k
  {
    if k > 0 {
      CacheAfterInertHandler(cache, events, k - 1, co);
    }
  }

  /** Draining with a handler that never changes the snapshot keeps it. */
  lemma InertDDLKeepsCache(cache: Cache, events: seq<DDLEvent>, co: Collaborators)
    requires forall c, e :: co.handleDDL(c, e).0 == c
    ensures DrainDDL(cache, events, co).0 == cache
  {
    CacheAfterInertHandler(cache, events, |events|, co);
  }

  /** Saves the histograms of one analyze result from position `i` on; a
      failing save is recorded and the later ones are still tried. */
  function SaveHistograms(t: AnalyzeResult, i: nat, co: Collaborators): (attempts: seq<Attempt>)
    requires Saveable(t) && i <= |t.hist|
    ensures SavesExactly(attempts, RequestsOf(t)[i..], co)
    decreases |t.hist| - i
  {
    if i == |t.hist| then []
    else
      var req := SaveRequest(t.tableID, t.count, t.isIndex, t.hist[i], t.cms[i]);
      [Save(req, co.save(req))] + SaveHistograms(t, i + 1, co)
  }

  /** Saves every histogram of every queued analyze result, in queue order. */
  function DrainAnalyze(results: seq<AnalyzeResult>, co: Collaborators): (attempts: seq<Attempt>)
    requires forall i :: 0 <= i < |results| ==> Saveable(results[i])
    ensures SavesExactly(attempts, AllRequests(results), co)
    decreases |results|
  {
    if results == [] then []
    else
      var head := SaveHistograms(results[0], 0, co);
      var rest := DrainAnalyze(results[1..], co);
      assert RequestsOf(results[0])[0..] == RequestsOf(results[0]);
      SavesConcat(head, RequestsOf(results[0]), rest, AllRequests(results[1..]), co);
      head + rest
  }

  /** The outcome of a flush: the next handle and the calls it made. */
  datatype Flush = Flush(h: Handle, trace: seq<Attempt>)

  /** Flushes the handle. Both queues end empty whatever the collaborators
      report; the trace is the schema-change events in queue order, one delta
      dump, one save per histogram of every analyze result in queue order,
      and one feedback dump, each with the outcome its collaborator reported.
      The snapshot is the one the schema-change handler leaves, the deltas
      and feedback are what the dumpers keep in memory, and the watermarks
      and the load-request registry do not change. */
  function FlushStats(h: Handle, co: Collaborators): (r: Flush)
    requires forall i :: 0 <= i < |h.analyzeResults| ==> Saveable(h.analyzeResults[i])
    ensures r.h.ddlEvents == [] && r.h.analyzeResults == []
    ensures r.h.deltas == co.dumpDelta(h.deltas).0
    ensures r.h.feedback == co.dumpFeedback(h.feedback).0
    ensures r.h == h.(cache := r.h.cache, ddlEvents := [], analyzeResults := [],
                      deltas := r.h.deltas, feedback := r.h.feedback)
    ensures var n := |h.ddlEvents|;
            var reqs := AllRequests(h.analyzeResults);
            && |r.trace| == n + |reqs| + 2
            && r.trace[n] == DumpDelta(co.dumpDelta(h.deltas).1)
            && r.trace[|r.trace| - 1] == DumpFeedback(co.dumpFeedback(h.feedback).1)
            && HandlesInOrder(r.trace[..n], h.cache, h.ddlEvents, co)
            && SavesExactly(r.trace[n + 1..n + 1 + |reqs|], reqs, co)
    ensures r.h.cache == CacheAfterDDL(h.cache, h.ddlEvents, |h.ddlEvents|, co)
  {
    var (cache, ddl) := DrainDDL(h.cache, h.ddlEvents, co);
    var (deltas, deltaOk) := co.dumpDelta(h.deltas);
    var saves := DrainAnalyze(h.analyzeResults, co);
    var (feedback, feedbackOk) := co.dumpFeedback(h.feedback);
    var trace := ddl + [DumpDelta(deltaOk)] + saves + [DumpFeedback(feedbackOk)];
    assert trace[|ddl| + 1..|ddl| + 1 + |saves|] == saves;
    assert trace[..|ddl|] == ddl;
    assert trace[|ddl|] == DumpDelta(deltaOk);
    assert trace[|trace| - 1] == DumpFeedback(feedbackOk);
    Flush(h.(cache := cache, ddlEvents := [], analyzeResults := [], deltas := deltas, feedback := feedback), trace)
  }

  /** In a trace made of `n` schema-change attempts, one delta dump, the
      saves of `reqs` and one feedback dump, position `k` is a save exactly
      when it lies in the save block, and then it tries the matching request. */
  lemma SaveBlockAt(t: seq<Attempt>, n: nat, reqs: seq<SaveRequest>, co: Collaborators, k: int)
    requires |t| == n + |reqs| + 2
    requires forall j :: 0 <= j < n ==> t[j].HandleDDL?
    requires t[n].DumpDelta? && t[|t| - 1].DumpFeedback?
    requires SavesExactly(t[n + 1..n + 1 + |reqs|], reqs, co)
    requires 0 <= k < |t|
    ensures t[k].Save? <==> n + 1 <= k < n + 1 + |reqs|
    ensures n + 1 <= k < n + 1 + |reqs| ==> t[k].request == reqs[k - n - 1]
  {
    if n + 1 <= k < n + 1 + |reqs| {
      assert t[k] == t[n + 1..n + 1 + |reqs|][k - n - 1];
    }
  }

  /** Position `k` of a flush's trace is a save attempt exactly when it
      lies in the save block, and then it tries the matching request. */
  lemma FlushSaveAt(h: Handle, co: Collaborators, k: int)
    requires forall i :: 0 <= i < |h.analyzeResults| ==> Saveable(h.analyzeResults[i])
    requires 0 <= k < |FlushStats(h, co).trace|
    ensures var n := |h.ddlEvents|;
            var reqs := AllRequests(h.analyzeResults);
            FlushStats(h, co).trace[k].Save? <==> n + 1 <= k < n + 1 + |reqs|
    ensures var n := |h.ddlEvents|;
            var reqs := AllRequests(h.analyzeResults);
            n + 1 <= k < n + 1 + |reqs| ==> FlushStats(h, co).trace[k].request == reqs[k - n - 1]
  {
    var n := |h.ddlEvents|;
    var t := FlushStats(h, co).trace;
    HandlesAreDDL(t[..n], h.cache, h.ddlEvents, co);
    forall j | 0 <= j < n
      ensures t[j].HandleDDL?
    {
      assert t[j] == t[..n][j];
    }
    SaveBlockAt(t, n, AllRequests(h.analyzeResults), co, k);
  }

  /** Every histogram gets exactly one save attempt, whatever the saver
      reports: the requests a flush tries do not depend on the outcomes. */
  lemma SavesIgnoreOutcomes(h: Handle, co1: Collaborators, co2: Collaborators)
    requires forall i :: 0 <= i < |h.analyzeResults| ==> Saveable(h.analyzeResults[i])
    ensures var t1 := FlushStats(h, co1).trace;
            var t2 := FlushStats(h, co2).trace;
            && |t1| == |t2| == |h.ddlEvents| + HistogramCount(h.analyzeResults) + 2
            && forall k :: 0 <= k < |t1| && t1[k].Save? ==> t2[k].Save? && t2[k].request == t1[k].request
  {
    AllRequestsCount(h.analyzeResults);
    var t1 := FlushStats(h, co1).trace;
    var t2 := FlushStats(h, co2).trace;
    forall k | 0 <= k < |t1| && t1[k].Save?
      ensures t2[k].Save? && t2[k].request == t1[k].request
    {
      FlushSaveAt(h, co1, k);
      FlushSaveAt(h, co2, k);
    }
  }
}
