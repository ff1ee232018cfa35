/** A build-progress watch session: once the output directory exists, the
    progress of the build is computed from a count of its entries; a session
    that is already complete only signals the end, otherwise a watch reports
    one progress value per `add`/`addDir` event and closes itself once the
    progress reaches 100. */
module Watcher {

  /** The file-system events the watch can deliver; the session only
      listens to `add` and `addDir`. */
  datatype Event = Add | AddDir | Change | Unlink | UnlinkDir

  predicate Listened(e: Event)
  {
    e == Add || e == AddDir
  }

  /** An event together with the entry count taken when it is handled. */
  datatype Observation = Observation(event: Event, count: nat)

  // ---------------------------------------------------------------------
  // Reference: what a session reports over a trace of events
  // ---------------------------------------------------------------------

  /** The observations that reach the handler, in order. */
  function ListenedEvents(trace: seq<Observation>): (evs: seq<Observation>)
    ensures |evs| <= |trace|
    ensures forall i :: 0 <= i < |evs| ==> Listened(evs[i].event) && evs[i] in trace
    ensures forall o :: o in evs <==> o in trace && Listened(o.event)
  {
    if |trace| == 0 then []
    else (if Listened(trace[0].event) then [trace[0]] else []) + ListenedEvents(trace[1..])
  }

  /** Order: filtering distributes over concatenation, so the listened
      events keep their relative order in the trace. */
  lemma {:induction false} ListenedEventsAppend(a: seq<Observation>, b: seq<Observation>)
    ensures ListenedEvents(a + b) == ListenedEvents(a) + ListenedEvents(b)
  {
    if |a| > 0 {
      assert (a + b)[0] == a[0];
      assert (a + b)[1..] == a[1..] + b;
      ListenedEventsAppend(a[1..], b);
    } else {
      assert a + b == b;
    }
  }

  /** The progress computed afresh from each observation's own count. */
  function ProgressOf(calculate: (nat, int) -> int, totalFiles: int, evs: seq<Observation>): (values: seq<int>)
    ensures |values| == |evs|
    ensures forall i :: 0 <= i < |evs| ==> values[i] == calculate(evs[i].count, totalFiles)
  {
    seq(|evs|, i requires 0 <= i < |evs| => calculate(evs[i].count, totalFiles))
  }

  /** A report log that has reached completion. */
  predicate Completes(values: seq<int>)
  {
    |values| > 0 && values[|values| - 1] >= 100
  }

  /** The values up to and including the first one that reaches 100. */
  function UpToCompletion(values: seq<int>): seq<int>
  {
    if |values| == 0 then []
    else if values[0] >= 100 then [values[0]]
    else [values[0]] + UpToCompletion(values[1..])
  }

  /** The truncation is a prefix; it has completed exactly when some value
      reaches 100, in which case only its last value does, and otherwise it
      keeps every value. */
  lemma {:induction false} UpToCompletionShape(values: seq<int>)
    ensures var r := UpToCompletion(values);
      r <= values &&
      (Completes(r) <==> exists i :: 0 <= i < |values| && values[i] >= 100) &&
      (forall i :: 0 <= i < |r| - 1 ==> r[i] < 100) &&
      (!Completes(r) ==> r == values)
  {
    if |values| > 0 && values[0] < 100 {
      var tail := values[1..];
      UpToCompletionShape(tail);
      var r := UpToCompletion(values);
      assert r == [values[0]] + UpToCompletion(tail);
      if exists i :: 0 <= i < |values| && values[i] >= 100 {
        var i :| 0 <= i < |values| && values[i] >= 100;
        assert tail[i - 1] == values[i];
      }
      forall i | 0 <= i < |tail| && tail[i] >= 100
        ensures exists j :: 0 <= j < |values| && values[j] >= 100
      {
        assert values[i + 1] == tail[i];
      }
      forall i | 0 <= i < |r| - 1 ensures r[i] < 100 {
        if i > 0 { assert r[i] == UpToCompletion(tail)[i - 1]; }
      }
      assert [values[0]] + tail == values;
    }
  }

  /** Extending the values by one: nothing changes once completed,
      otherwise the new value is appended. */
  lemma {:induction false} UpToCompletionSnoc(values: seq<int>, v: int)
    ensures UpToCompletion(values + [v]) ==
      if Completes(UpToCompletion(values)) then UpToCompletion(values) else UpToCompletion(values) + [v]
  {
    if |values| == 0 {
      assert values + [v] == [v];
    } else {
      assert (values + [v])[0] == values[0];
      assert (values + [v])[1..] == values[1..] + [v];
      if values[0] < 100 {
        UpToCompletionSnoc(values[1..], v);
      }
    }
  }

  /** What a session reports: nothing if it was complete at start, else
      the fresh progress of each listened event up to completion. */
  function ExpectedReports(calculate: (nat, int) -> int, totalFiles: int, initialCount: nat,
                           trace: seq<Observation>): seq<int>
  {
    if calculate(initialCount, totalFiles) >= 100 then []
    else UpToCompletion(ProgressOf(calculate, totalFiles, ListenedEvents(trace)))
  }

  /** Each report is the progress of the count taken at the matching listened
      event; at most one report reaches 100 and it is the last; a session
      complete at start reports nothing; there are never more reports than
      events. */
  lemma ExpectedReportsShape(calculate: (nat, int) -> int, totalFiles: int, initialCount: nat,
                             trace: seq<Observation>)
    ensures var r := ExpectedReports(calculate, totalFiles, initialCount, trace);
      var evs := ListenedEvents(trace);
      |r| <= |evs| <= |trace| &&
      (forall k :: 0 <= k < |r| ==> Listened(evs[k].event) && r[k] == calculate(evs[k].count, totalFiles)) &&
      (forall k :: 0 <= k < |r| - 1 ==> r[k] < 100) &&
      (calculate(initialCount, totalFiles) >= 100 ==> r == [])
  {
    var values := ProgressOf(calculate, totalFiles, ListenedEvents(trace));
    UpToCompletionShape(values);
  }

  /** Once a session has completed, later events change nothing. */
  lemma {:induction false} NoReportsAfterCompletion(calculate: (nat, int) -> int, totalFiles: int,
                                                    initialCount: nat, trace: seq<Observation>,
                                                    later: seq<Observation>)
    requires Completes(ExpectedReports(calculate, totalFiles, initialCount, trace))
    ensures ExpectedReports(calculate, totalFiles, initialCount, trace + later) ==
            ExpectedReports(calculate, totalFiles, initialCount, trace)
    decreases |later|
  {
    if |later| > 0 {
      var front := trace + later[..|later| - 1];
      assert trace + later == front + [later[|later| - 1]];
      NoReportsAfterCompletion(calculate, totalFiles, initialCount, trace, later[..|later| - 1]);
      ReportsSnoc(calculate, totalFiles, initialCount, front, later[|later| - 1]);
    } else {
      assert trace + later == trace;
    }
  }

  /** The reports after one more observation, in terms of those before it. */
  lemma ReportsSnoc(calculate: (nat, int) -> int, totalFiles: int, initialCount: nat,
                    trace: seq<Observation>, o: Observation)
    ensures var before := ExpectedReports(calculate, totalFiles, initialCount, trace);
      ExpectedReports(calculate, totalFiles, initialCount, trace + [o]) ==
        if calculate(initialCount, totalFiles) < 100 && !Completes(before) && Listened(o.event)
        then before + [calculate(o.count, totalFiles)]
        else before
  {
    ListenedEventsAppend(trace, [o]);
    assert ListenedEvents([o]) == if Listened(o.event) then [o] else [];
    var evs := ListenedEvents(trace);
    if Listened(o.event) {
      var values := ProgressOf(calculate, totalFiles, evs);
      assert ProgressOf(calculate, totalFiles, evs + [o]) == values + [calculate(o.count, totalFiles)];
      UpToCompletionSnoc(values, calculate(o.count, totalFiles));
    } else {
      assert evs + [] == evs;
    }
  }

  // ---------------------------------------------------------------------
  // The session
  // ---------------------------------------------------------------------

  /** One call of `watchDirectory`. `calculateProgress` and `totalFiles` are
      its progress function and expected file total; `stopIsFunction` says
      whether the stop callback is a function. `reported` logs the values
      passed to the progress callback and `stopCalls` counts calls of the
      stop callback. */
  class WatchSession {
    const calculateProgress: (nat, int) -> int
    const totalFiles: int
    const stopIsFunction: bool
    const initialCount: nat
    var watcherCreated: bool
    var closed: bool
    var reported: seq<int>
    var stopCalls: nat
    ghost var trace: seq<Observation>

    ghost predicate Valid()
      reads this
    {
      watcherCreated == (calculateProgress(initialCount, totalFiles) < 100) &&
      reported == ExpectedReports(calculateProgress, totalFiles, initialCount, trace) &&
      closed == (watcherCreated && Completes(reported)) &&
      stopCalls == (if stopIsFunction && (!watcherCreated || closed) then 1 else 0)
    }

    /** `watchDirectory` from the moment the directory exists, with
        `initialCount` its entry count at that moment: complete already, it
        calls the stop callback (when a function) and creates no watcher;
        otherwise it opens a watch that ignores the entries already there. */
    constructor Start(calculateProgress: (nat, int) -> int, totalFiles: int, stopIsFunction: bool,
                      initialCount: nat)
      ensures Valid()
      ensures this.calculateProgress == calculateProgress && this.totalFiles == totalFiles
      ensures this.stopIsFunction == stopIsFunction && this.initialCount == initialCount
      ensures trace == [] && reported == [] && !closed
      ensures watcherCreated == (calculateProgress(initialCount, totalFiles) < 100)
      ensures stopCalls == (if stopIsFunction && calculateProgress(initialCount, totalFiles) >= 100 then 1 else 0)
    {
      this.calculateProgress := calculateProgress;
      this.totalFiles := totalFiles;
      this.stopIsFunction := stopIsFunction;
      this.initialCount := initialCount;
      new;
      trace := [];
      reported := [];
      closed := false;
      stopCalls := 0;
      var initialProgress := calculateProgress(initialCount, totalFiles);
      if initialProgress >= 100 {
        if stopIsFunction {
          stopCalls := stopCalls + 1;
        }
        watcherCreated := false;
        return;
      }
      watcherCreated := true;
    }

    /** The watch delivers `event`, with `count` the directory's entry count
        when the handler runs. Only an open watcher delivers, and only `add`
        and `addDir` reach `updateProgress`, which reports the progress of
        that count and, at 100 or more, closes the watcher and then calls
        the stop callback (when a function). */
    method OnEvent(event: Event, count: nat)
      requires Valid()
      modifies this
      ensures Valid()
      ensures trace == old(trace) + [Observation(event, count)]
      ensures watcherCreated == old(watcherCreated)
      ensures if old(watcherCreated && !closed) && Listened(event) then
          reported == old(reported) + [calculateProgress(count, totalFiles)] &&
          closed == (calculateProgress(count, totalFiles) >= 100) &&
          stopCalls == (if closed && stopIsFunction then 1 else 0)
        else
          reported == old(reported) && closed == old(closed) && stopCalls == old(stopCalls)
    {
      ReportsSnoc(calculateProgress, totalFiles, initialCount, trace, Observation(event, count));
      trace := trace + [Observation(event, count)];
      if !watcherCreated || closed || !Listened(event) {
        return;
      }
      var progress := calculateProgress(count, totalFiles);
      reported := reported + [progress];
      if progress >= 100 {
        closed := true;
        if stopIsFunction {
          stopCalls := stopCalls + 1;
        }
      }
    }
  }
}
