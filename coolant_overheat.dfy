/** The coolant-overheat interval detector: one pass over the samples that reports
    every maximal stretch of samples whose coolant reading is at or above a threshold. */
module CoolantOverheat {
  import opened Telemetry
  import opened Events

  /** The threshold used when the caller gives none. */
  const DefaultThresholdC: real := 130.0

  /** A sample counts as overheated when its coolant reading reaches the threshold. */
  predicate Hot(s: Sample, thresholdC: real) {
    s.coolantC >= thresholdC
  }

  /** The samples at indices `start` up to, but not including, `stop`. */
  datatype Run = Run(start: nat, stop: nat)

  /** The first index at or after `i` whose sample is not overheated, or the length
      of the sequence when every sample from `i` on is overheated. */
  function RunEnd(samples: seq<Sample>, thresholdC: real, i: nat): (j: nat)
    requires i <= |samples|
    ensures i <= j <= |samples|
    ensures forall m :: i <= m < j ==> Hot(samples[m], thresholdC)
    ensures j < |samples| ==> !Hot(samples[j], thresholdC)
    decreases |samples| - i
  {
    if i == |samples| || !Hot(samples[i], thresholdC) then i
    else RunEnd(samples, thresholdC, i + 1)
  }

  /** The overheated runs of `samples[i..]`, left to right. */
  function RunsFrom(samples: seq<Sample>, thresholdC: real, i: nat): (runs: seq<Run>)
    requires i <= |samples|
    ensures forall k :: 0 <= k < |runs| ==> i <= runs[k].start < runs[k].stop <= |samples|
    decreases |samples| - i
  {
    if i == |samples| then []
    else if !Hot(samples[i], thresholdC) then RunsFrom(samples, thresholdC, i + 1)
    else
      var j := RunEnd(samples, thresholdC, i);
      [Run(i, j)] + RunsFrom(samples, thresholdC, j)
  }

  function Runs(samples: seq<Sample>, thresholdC: real): seq<Run> {
    RunsFrom(samples, thresholdC, 0)
  }

  /** `r` is a maximal run: non-empty, every sample in it overheated, and neither
      neighbour overheated. */
  ghost predicate IsMaximalRun(samples: seq<Sample>, thresholdC: real, r: Run) {
    && r.start < r.stop <= |samples|
    && (forall m :: r.start <= m < r.stop ==> Hot(samples[m], thresholdC))
    && (r.start == 0 || !Hot(samples[r.start - 1], thresholdC))
    && (r.stop == |samples| || !Hot(samples[r.stop], thresholdC))
  }

  /** The largest coolant reading of a non-empty stretch of samples, kept the way the
      detector keeps it: a later reading replaces the maximum only when strictly larger. */
  function MaxCoolant(xs: seq<Sample>): (m: real)
    requires |xs| > 0
    ensures exists k :: 0 <= k < |xs| && xs[k].coolantC == m
    ensures forall k :: 0 <= k < |xs| ==> xs[k].coolantC <= m
  {
    if |xs| == 1 then xs[0].coolantC
    else
      var prev := MaxCoolant(xs[..|xs| - 1]);
      assert forall k :: 0 <= k < |xs| - 1 ==> xs[..|xs| - 1][k] == xs[k];
      if xs[|xs| - 1].coolantC > prev then xs[|xs| - 1].coolantC else prev
  }

  /** The event reported for a run: it starts at the run's first sample and ends at
      the first sample below the threshold, or at the last sample when the run
      reaches the end of the data. */
  function EventOf(samples: seq<Sample>, thresholdC: real, r: Run): Event
    requires r.start < r.stop <= |samples|
  {
    var endS := if r.stop < |samples| then samples[r.stop].timeS else samples[|samples| - 1].timeS;
    Event(CoolantOverheatKind, samples[r.start].timeS, endS,
          CoolantDetails(MaxCoolant(samples[r.start..r.stop]), thresholdC))
  }

  /** The events for the runs of `samples[i..]`, one per run, in run order. It walks
      the samples the way `RunsFrom` does rather than mapping `EventOf` over its
      result, because the detector's loop invariant needs the events still to come
      after sample `k`; `EventsFromRuns` proves the two readings agree. */
  function EventsFrom(samples: seq<Sample>, thresholdC: real, i: nat): seq<Event>
    requires i <= |samples|
    decreases |samples| - i
  {
    if i == |samples| then []
    else if !Hot(samples[i], thresholdC) then EventsFrom(samples, thresholdC, i + 1)
    else
      var j := RunEnd(samples, thresholdC, i);
      [EventOf(samples, thresholdC, Run(i, j))] + EventsFrom(samples, thresholdC, j)
  }

  /** The events from `i` on are those of the runs from `i` on, one each, in order. */
  lemma {:induction false} EventsFromRuns(samples: seq<Sample>, thresholdC: real, i: nat)
    requires i <= |samples|
    ensures var runs := RunsFrom(samples, thresholdC, i);
      var events := EventsFrom(samples, thresholdC, i);
      |events| == |runs| &&
      forall k :: 0 <= k < |runs| ==> events[k] == EventOf(samples, thresholdC, runs[k])
    decreases |samples| - i
  {
    if i < |samples| {
      if !Hot(samples[i], thresholdC) {
        EventsFromRuns(samples, thresholdC, i + 1);
      } else {
        EventsFromRuns(samples, thresholdC, RunEnd(samples, thresholdC, i));
      }
    }
  }

  /** What the detector reports for `samples`: one event per maximal overheated run. */
  function OverheatEvents(samples: seq<Sample>, thresholdC: real): seq<Event> {
    EventsFrom(samples, thresholdC, 0)
  }

  /** Closing a run at the first cool sample `k`: its event comes first, and the
      events after it are those of the samples after `k`. */
  lemma CloseRun(samples: seq<Sample>, thresholdC: real, start: nat, k: nat)
    requires start < k < |samples|
    requires forall m :: start <= m < k ==> Hot(samples[m], thresholdC)
    requires !Hot(samples[k], thresholdC)
    ensures EventsFrom(samples, thresholdC, start)
         == [EventOf(samples, thresholdC, Run(start, k))] + EventsFrom(samples, thresholdC, k + 1)
  {
    assert RunEnd(samples, thresholdC, start) == k;
  }

  /** A run that reaches the end of the data is the last one. */
  lemma CloseAtEnd(samples: seq<Sample>, thresholdC: real, start: nat)
    requires start < |samples|
    requires forall m :: start <= m < |samples| ==> Hot(samples[m], thresholdC)
    ensures EventsFrom(samples, thresholdC, start)
         == [EventOf(samples, thresholdC, Run(start, |samples|))]
  {
    assert RunEnd(samples, thresholdC, start) == |samples|;
  }

  /** Extending a stretch by one sample updates its maximum the way the detector does. */
  lemma MaxCoolantExtend(samples: seq<Sample>, start: nat, k: nat)
    requires start < k < |samples|
    ensures MaxCoolant(samples[start..k + 1])
         == if samples[k].coolantC > MaxCoolant(samples[start..k]) then samples[k].coolantC
            else MaxCoolant(samples[start..k])
  {
    assert samples[start..k + 1][..k - start] == samples[start..k];
  }

  /** The detector: a single pass that opens a run at the first overheated sample,
      tracks the running maximum, and closes the run at the first sample below the
      threshold, or at the last sample when the data ends inside a run. */
  method DetectCoolantOverheat(samples: seq<Sample>, thresholdC: real := DefaultThresholdC) returns (events: seq<Event>)
    ensures events == OverheatEvents(samples, thresholdC)
  {
    events := [];
    var inOverheat := false;
    var startS := 0.0;
    var maxTemp := 0.0;  // read only once a run is open
    ghost var runStart: nat := 0;
    ghost var spec := OverheatEvents(samples, thresholdC);
    var k := 0;
    while k < |samples|
      invariant 0 <= k <= |samples|
      invariant !inOverheat ==>
        events + EventsFrom(samples, thresholdC, k) == spec
      invariant inOverheat ==>
        && runStart < k
        && events + EventsFrom(samples, thresholdC, runStart) == spec
        && (forall m :: runStart <= m < k ==> Hot(samples[m], thresholdC))
        && startS == samples[runStart].timeS
        && maxTemp == MaxCoolant(samples[runStart..k])
    {
      var t := samples[k];
      if t.coolantC >= thresholdC {
        if !inOverheat {
          inOverheat := true;
          runStart := k;
          startS := t.timeS;
          maxTemp := t.coolantC;
        } else {
          MaxCoolantExtend(samples, runStart, k);
          if t.coolantC > maxTemp {
            maxTemp := t.coolantC;
          }
        }
      } else {
        if inOverheat {
          var e := Event(CoolantOverheatKind, startS, t.timeS, CoolantDetails(maxTemp, thresholdC));
          CloseRun(samples, thresholdC, runStart, k);
          assert e == EventOf(samples, thresholdC, Run(runStart, k));
          assert (events + [e]) + EventsFrom(samples, thresholdC, k + 1)
              == events + EventsFrom(samples, thresholdC, runStart);
          events := events + [e];
          inOverheat := false;
        } else {
          assert EventsFrom(samples, thresholdC, k) == EventsFrom(samples, thresholdC, k + 1);
        }
      }
      k := k + 1;
    }
    if inOverheat && |samples| > 0 {
      var e := Event(CoolantOverheatKind, startS, samples[|samples| - 1].timeS,
                     CoolantDetails(maxTemp, thresholdC));
      CloseAtEnd(samples, thresholdC, runStart);
      assert e == EventOf(samples, thresholdC, Run(runStart, |samples|));
      events := events + [e];
    } else {
      assert EventsFrom(samples, thresholdC, |samples|) == [];
    }
  }

  // ---------------------------------------------------------------------------
  // The runs are exactly the maximal overheated runs, in order.

  /** `r` is overheated throughout, ends at a cool sample or at the end of the
      data, and is preceded by a cool sample unless it starts at `from`. */
  ghost predicate RunFrom(samples: seq<Sample>, thresholdC: real, from: nat, r: Run) {
    && r.start < r.stop <= |samples|
    && (forall m :: r.start <= m < r.stop ==> Hot(samples[m], thresholdC))
    && (r.stop == |samples| || !Hot(samples[r.stop], thresholdC))
    && from <= r.start
    && (r.start == from || !Hot(samples[r.start - 1], thresholdC))
  }

  lemma {:induction false} RunsFromMaximal(samples: seq<Sample>, thresholdC: real, i: nat)
    requires i <= |samples|
    ensures forall r :: r in RunsFrom(samples, thresholdC, i) ==> RunFrom(samples, thresholdC, i, r)
    decreases |samples| - i
  {
    var runs := RunsFrom(samples, thresholdC, i);
    if i == |samples| {
    } else if !Hot(samples[i], thresholdC) {
      assert runs == RunsFrom(samples, thresholdC, i + 1);
      RunsFromMaximal(samples, thresholdC, i + 1);
    } else {
      var j := RunEnd(samples, thresholdC, i);
      var rest := RunsFrom(samples, thresholdC, j);
      assert runs == [Run(i, j)] + rest;
      RunsFromMaximal(samples, thresholdC, j);
      forall r | r in rest ensures RunFrom(samples, thresholdC, i, r) {
        assert Hot(samples[r.start], thresholdC);
      }
    }
  }

  /** Each run ends strictly before the next one starts. */
  ghost predicate Separated(runs: seq<Run>) {
    forall k :: 0 < k < |runs| ==> runs[k - 1].stop < runs[k].start
  }

  /** Consecutive runs are separated by at least one cool sample. */
  lemma {:induction false} RunsFromOrdered(samples: seq<Sample>, thresholdC: real, i: nat)
    requires i <= |samples|
    ensures Separated(RunsFrom(samples, thresholdC, i))
    decreases |samples| - i
  {
    var runs := RunsFrom(samples, thresholdC, i);
    if i == |samples| {
    } else if !Hot(samples[i], thresholdC) {
      assert runs == RunsFrom(samples, thresholdC, i + 1);
      RunsFromOrdered(samples, thresholdC, i + 1);
    } else {
      var j := RunEnd(samples, thresholdC, i);
      var rest := RunsFrom(samples, thresholdC, j);
      assert runs == [Run(i, j)] + rest;
      RunsFromOrdered(samples, thresholdC, j);
      if j < |samples| {
        assert rest == RunsFrom(samples, thresholdC, j + 1);
        assert |rest| > 0 ==> rest[0].start > j;
      } else {
        assert rest == [];
      }
      forall k | 0 < k < |runs| ensures runs[k - 1].stop < runs[k].start {
        assert runs[k] == rest[k - 1];
        if k > 1 {
          assert runs[k - 1] == rest[k - 2];
        }
      }
    }
  }

  /** Every overheated sample from `i` on lies inside one of the runs. */
  lemma {:induction false} RunsFromCover(samples: seq<Sample>, thresholdC: real, i: nat, m: nat)
    requires i <= m < |samples|
    requires Hot(samples[m], thresholdC)
    ensures exists r :: r in RunsFrom(samples, thresholdC, i) && r.start <= m < r.stop
    decreases |samples| - i
  {
    var runs := RunsFrom(samples, thresholdC, i);
    if !Hot(samples[i], thresholdC) {
      assert runs == RunsFrom(samples, thresholdC, i + 1);
      RunsFromCover(samples, thresholdC, i + 1, m);
    } else {
      var j := RunEnd(samples, thresholdC, i);
      var rest := RunsFrom(samples, thresholdC, j);
      assert runs == [Run(i, j)] + rest;
      if m < j {
        assert Run(i, j) in runs;
      } else {
        RunsFromCover(samples, thresholdC, j, m);
        var r :| r in rest && r.start <= m < r.stop;
        assert r in runs;
      }
    }
  }

  /** The runs of the whole sequence are maximal, in order, and between them they
      hold every overheated sample. */
  lemma RunsAreMaximalRuns(samples: seq<Sample>, thresholdC: real)
    ensures forall r :: r in Runs(samples, thresholdC) ==> IsMaximalRun(samples, thresholdC, r)
    ensures Separated(Runs(samples, thresholdC))
    ensures forall m :: 0 <= m < |samples| && Hot(samples[m], thresholdC) ==>
      exists r :: r in Runs(samples, thresholdC) && r.start <= m < r.stop
  {
    RunsFromMaximal(samples, thresholdC, 0);
    RunsFromOrdered(samples, thresholdC, 0);
    forall m | 0 <= m < |samples| && Hot(samples[m], thresholdC)
      ensures exists r :: r in Runs(samples, thresholdC) && r.start <= m < r.stop
    {
      RunsFromCover(samples, thresholdC, 0, m);
    }
  }

  /** Conversely, every maximal run is one of the runs found: so the runs are
      exactly the maximal overheated runs. */
  lemma MaximalRunIsFound(samples: seq<Sample>, thresholdC: real, r: Run)
    requires IsMaximalRun(samples, thresholdC, r)
    ensures r in Runs(samples, thresholdC)
  {
    RunsAreMaximalRuns(samples, thresholdC);
    assert Hot(samples[r.start], thresholdC);
    var q :| q in Runs(samples, thresholdC) && q.start <= r.start < q.stop;
    assert IsMaximalRun(samples, thresholdC, q);
  }

  // ---------------------------------------------------------------------------
  // What the reported events say.

  /** One event per maximal run, in run order: each starts at its run's first
      sample, ends at the following cool sample (or the last sample when the run
      reaches the end of the data), and reports the run's largest coolant reading,
      which is at or above the threshold. */
  lemma OverheatEventsDescribeRuns(samples: seq<Sample>, thresholdC: real)
    ensures var events := OverheatEvents(samples, thresholdC);
      var runs := Runs(samples, thresholdC);
      && |events| == |runs|
      && forall k :: 0 <= k < |events| ==> DescribesRun(samples, thresholdC, runs[k], events[k])
  {
    var events := OverheatEvents(samples, thresholdC);
    var runs := Runs(samples, thresholdC);
    EventsFromRuns(samples, thresholdC, 0);
    RunsFromMaximal(samples, thresholdC, 0);
    forall k | 0 <= k < |events| ensures DescribesRun(samples, thresholdC, runs[k], events[k]) {
      assert runs[k] in runs;
      EventOfDescribesRun(samples, thresholdC, runs[k]);
    }
  }

  /** `e` is the event of the overheated run `r`: it has kind `COOLANT_OVERHEAT`,
      starts at the run's first sample, ends at the following cool sample (or the
      last sample when the run reaches the end of the data), and reports the run's
      largest coolant reading, which is at or above the threshold. */
  ghost predicate DescribesRun(samples: seq<Sample>, thresholdC: real, r: Run, e: Event)
    requires r.start < r.stop <= |samples|
  {
    && e.kind == CoolantOverheatKind
    && e.startS == samples[r.start].timeS
    && e.endS == (if r.stop < |samples| then samples[r.stop].timeS else samples[|samples| - 1].timeS)
    && e.details.thresholdC == thresholdC
    && e.details.maxCoolantC >= thresholdC
    && (forall m :: r.start <= m < r.stop ==> samples[m].coolantC <= e.details.maxCoolantC)
    && (exists m :: r.start <= m < r.stop && samples[m].coolantC == e.details.maxCoolantC)
  }

  lemma EventOfDescribesRun(samples: seq<Sample>, thresholdC: real, r: Run)
    requires RunFrom(samples, thresholdC, 0, r)
    ensures DescribesRun(samples, thresholdC, r, EventOf(samples, thresholdC, r))
  {
    var e := EventOf(samples, thresholdC, r);
    var xs := samples[r.start..r.stop];
    assert forall m :: r.start <= m < r.stop ==> samples[m] == xs[m - r.start];
    var w :| 0 <= w < |xs| && xs[w].coolantC == MaxCoolant(xs);
    assert samples[r.start + w].coolantC == e.details.maxCoolantC;
    assert xs[0].coolantC >= thresholdC;
  }

  /** No overheated sample from `i` on, no event from `i` on. */
  lemma {:induction false} NoHotSampleNoEventFrom(samples: seq<Sample>, thresholdC: real, i: nat)
    requires i <= |samples|
    requires forall m :: i <= m < |samples| ==> !Hot(samples[m], thresholdC)
    ensures EventsFrom(samples, thresholdC, i) == []
    decreases |samples| - i
  {
    if i < |samples| {
      NoHotSampleNoEventFrom(samples, thresholdC, i + 1);
    }
  }

  /** No overheated sample, no event. */
  lemma NoHotSampleNoEvent(samples: seq<Sample>, thresholdC: real)
    requires forall m :: 0 <= m < |samples| ==> !Hot(samples[m], thresholdC)
    ensures OverheatEvents(samples, thresholdC) == []
  {
    NoHotSampleNoEventFrom(samples, thresholdC, 0);
  }

  /** A single overheated sample gives one zero-width event at its own time. */
  lemma SingleHotSample(s: Sample, thresholdC: real)
    requires Hot(s, thresholdC)
    ensures OverheatEvents([s], thresholdC)
         == [Event(CoolantOverheatKind, s.timeS, s.timeS, CoolantDetails(s.coolantC, thresholdC))]
  {
    assert RunEnd([s], thresholdC, 0) == 1;
    assert EventsFrom([s], thresholdC, 1) == [];
    assert [s][0..1] == [s];
    assert MaxCoolant([s]) == s.coolantC;
    assert OverheatEvents([s], thresholdC) == [EventOf([s], thresholdC, Run(0, 1))];
  }

  /** With timestamps that never go backwards, every event starts no later than it ends. */
  lemma EventsStartBeforeEnd(samples: seq<Sample>, thresholdC: real)
    requires NonDecreasingTimes(samples)
    ensures forall e :: e in OverheatEvents(samples, thresholdC) ==> e.startS <= e.endS
  {
    OverheatEventsDescribeRuns(samples, thresholdC);
  }
}
