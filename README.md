# Telemetry anomaly detectors

A Dafny model of the detection core of a vehicle telemetry analyser. Two detectors read an
ordered sequence of telemetry samples and report anomalous intervals:

- the **coolant-overheat interval detector** (`src/detectors.py`), a single pass that reports
  one event per maximal stretch of samples whose coolant reading is at or above a threshold;
- the **idle-RPM instability detector** (`src/detectors/rpm_instability.py`), a per-sample
  state machine that, while the vehicle idles, keeps a time-bounded rolling window of engine
  speed readings, computes its mean, population variance and peak-to-peak spread, and emits
  at most one event per instability episode, with a debounce on entry and hysteresis on exit.

Files:

- `telemetry.dfy` (module `Telemetry`): the sample record, with the coolant temperature the
  RPM detector looks up as an `Option<real>`.
- `events.dfy` (module `Events`): the event record of `src/events.py`, with its free-form
  `details` string replaced by the structured pair it formats (largest coolant reading,
  threshold).
- `coolant_overheat.dfy` (module `CoolantOverheat`): the detector as a method with a loop,
  proved equal to a recursive specification (`OverheatEvents`) built from the maximal runs
  (`Runs`), and lemmas that those runs are exactly the maximal overheated runs, in order.
- `rpm_instability.dfy` (module `RpmInstability`): the configuration with its defaults, the
  idling gate, eviction, the window statistics, the detector as a pure state machine
  (`Step`, with `Judge` for debounce and hysteresis and `Feed` for a sequence of updates),
  and the detector class `RpmInstabilityDetector` whose `Update` method is proved to move
  its fields exactly as `Step` says.

Timestamps, readings and thresholds are `real`. The standard deviation is never computed:
`StdAtLeast` and `StdAtMost` compare the variance with the squared threshold, and two lemmas
prove these are exactly the comparisons of the non-negative square root with the threshold,
for thresholds of either sign.

Two behaviours of the source that a reader might not expect:

- The RPM detector's update can fail. With the warm gate on, a sample without a coolant
  temperature makes the gate's attribute lookup fail. This happens only after the rpm, speed
  and throttle checks pass, and the state is left untouched (`Err(MissingCoolantTemp)`).
  With `min_samples <= 0` and a window emptied by eviction, the mean divides by zero after
  the window was already updated (`Err(EmptyWindow)`). A third failure, at every emission,
  is not modelled; see `RpmInstability.Step` under "Left out".
- "Window entries always lie within `window_s` of now" holds only when timestamps do not go
  backwards, because eviction looks at the front of the window only. `StepKeepsWindowWithin`
  proves it under that condition.

## Model

| member | source | states |
|---|---|---|
| `CoolantOverheat.DetectCoolantOverheat` | src/detectors.py:8-51 | the single pass (open a run, track the running maximum, close at the first sample below the threshold or at the last sample) returns exactly the events of the maximal runs, `OverheatEvents`; the threshold defaults to 130.0 (`DefaultThresholdC`) |
| `CoolantOverheat.EventOf` | src/detectors.py:30-49 | the event of a run: kind `COOLANT_OVERHEAT`, start at the run's first sample, end at the sample that closes it or at the last sample when the data ends inside it, details holding the run's largest reading and the threshold |
| `CoolantOverheat.RunEnd` | src/detectors.py:19-28 | a run that starts at `i` extends over overheated samples only and stops at the first sample below the threshold, or at the end of the data |
| `CoolantOverheat.MaxCoolant` | src/detectors.py:23-26 | the maximum kept by "replace when strictly larger" is one of the run's readings and no reading of the run exceeds it |
| `CoolantOverheat.EventsFromRuns` | src/detectors.py:18-49 | the specification's events are one per run found, in run order, each built from its run as the detector builds it |
| `CoolantOverheat.RunsFromMaximal` | src/detectors.py:19-28 | every run found is overheated throughout, ends at a cool sample or at the end of the data, and starts after a cool sample |
| `CoolantOverheat.RunsFromOrdered` | src/detectors.py:18-38 | consecutive runs are separated by at least one cool sample, so events come in run order |
| `CoolantOverheat.RunsFromCover` | src/detectors.py:19-23 | every overheated sample lies inside some run |
| `CoolantOverheat.RunsAreMaximalRuns` | src/detectors.py:18-49 | the runs of the whole data are maximal, ordered and cover every overheated sample |
| `CoolantOverheat.MaximalRunIsFound` | src/detectors.py:18-49 | every maximal overheated run is among the runs, so the events correspond one to one to the maximal runs |
| `CoolantOverheat.OverheatEventsDescribeRuns` | src/detectors.py:20-47 | as many events as maximal runs; each has kind `COOLANT_OVERHEAT`, starts at its run's first sample, ends at the following cool sample or at the last sample, and reports the run's largest coolant reading, which is at or above the threshold, with the threshold |
| `CoolantOverheat.EventOfDescribesRun` | src/detectors.py:30-47 | the event of a maximal run has kind `COOLANT_OVERHEAT`, the run's start time, the closing sample's (or last sample's) time as end, the threshold, and the run's largest reading, which is at or above the threshold |
| `CoolantOverheat.NoHotSampleNoEvent` | src/detectors.py:12-41 | no sample at or above the threshold, in particular empty input, gives no event |
| `CoolantOverheat.SingleHotSample` | src/detectors.py:41-49 | a single overheated sample gives exactly one event with start and end at its own time and its own reading as maximum |
| `CoolantOverheat.EventsStartBeforeEnd` | src/detectors.py:32-46 | with timestamps that never go backwards every event starts no later than it ends |
| `RpmInstability.IsIdling` | src/detectors/rpm_instability.py:126-140 | not idling exactly when rpm is below the running minimum, speed or throttle is above its maximum, or the warm gate is on and the coolant is colder than its minimum; a missing coolant temperature is an error only when the first three checks pass and the warm gate is on |
| `RpmInstability.DefaultConfigHysteresis` | src/detectors/rpm_instability.py:24-41 | the default configuration (`DefaultConfig`: 2.0 kph, 5 %, 500 rpm, 60 °C, 8 s, 10 samples, 60 and 180 rpm to trigger, 3 s, 40 and 120 rpm to reset) has a positive window and sample count and reset thresholds below the trigger thresholds, so a window it reads as stable is never read as unstable |
| `RpmInstability.Evicted` | src/detectors/rpm_instability.py:142-145 | eviction stops at the first entry not older than the cutoff, and every entry before it is older |
| `RpmInstability.Trim` | src/detectors/rpm_instability.py:142-145 | the window without its leading entries older than the cutoff; its properties are `Evicted`'s and `TrimRemovesOnlyStaleFront`'s |
| `RpmInstability.Admit` | src/detectors/rpm_instability.py:83-85 | append `(time, rpm)` at the back, then trim to `time - window_s`; proved to keep the window bounds by `AdmitKeepsWindowWithin` and to keep the new sample by `NewestSampleKept` |
| `RpmInstability.TrimRemovesOnlyStaleFront` | src/detectors/rpm_instability.py:142-145 | trimming keeps a suffix of the window, removes only entries older than the cutoff, keeps a first entry at or after it, and on a time-ordered window keeps only entries at or after it |
| `RpmInstability.NewestSampleKept` | src/detectors/rpm_instability.py:84-85 | with `window_s >= 0` the sample just appended survives trimming as the last entry |
| `RpmInstability.AdmitKeepsWindowWithin` | src/detectors/rpm_instability.py:83-85 | appending a sample no older than the window and trimming keeps the window time-ordered and within `window_s` of that sample |
| `RpmInstability.StepKeepsWindowWithin` | src/detectors/rpm_instability.py:77-85 | every update keeps the window time-ordered and within `[now - window_s, now]` when timestamps do not go backwards |
| `RpmInstability.SquaredDeviations` | src/detectors/rpm_instability.py:151 | the sum of squared deviations is never negative |
| `RpmInstability.Max` | src/detectors/rpm_instability.py:153 | the maximum is a reading of the window and no reading exceeds it |
| `RpmInstability.Min` | src/detectors/rpm_instability.py:153 | the minimum is a reading of the window and no reading is below it |
| `RpmInstability.SumBounds` | src/detectors/rpm_instability.py:150 | a sum of n readings within `[lo, hi]` lies within `[n * lo, n * hi]` |
| `RpmInstability.MeanWithinRange` | src/detectors/rpm_instability.py:148-153 | the mean lies between the smallest and the largest reading |
| `RpmInstability.Stats` | src/detectors/rpm_instability.py:147-154 | on a non-empty window: minimum <= mean <= maximum, variance >= 0, peak-to-peak >= 0 and bounds the difference of any two readings |
| `RpmInstability.StdAtLeastIsRootComparison` | src/detectors/rpm_instability.py:92-93 | for the non-negative square root of the variance, `std >= threshold` holds exactly when `StdAtLeast` does |
| `RpmInstability.StdAtMostIsRootComparison` | src/detectors/rpm_instability.py:94-95 | for the non-negative square root of the variance, `std <= threshold` holds exactly when `StdAtMost` does |
| `RpmInstability.UnstableNow` | src/detectors/rpm_instability.py:92-93 | unstable when the standard deviation reaches `std_threshold_rpm` (as `StdAtLeast` on the variance) or peak-to-peak reaches `peak_to_peak_threshold_rpm` |
| `RpmInstability.StableNow` | src/detectors/rpm_instability.py:94-95 | stable when the standard deviation is at most `stable_reset_std_rpm` (as `StdAtMost` on the variance) and peak-to-peak at most `stable_reset_p2p_rpm` |
| `RpmInstability.Judge` | src/detectors/rpm_instability.py:92-124 | debounce and hysteresis: start the unstable stretch's timer, emit once the stretch has lasted `min_unstable_duration_s` with no active episode, end the episode on a stable window, clear the timer whenever the window is not unstable; its properties are the `Step` lemmas below |
| `RpmInstability.Step` | src/detectors/rpm_instability.py:63-124 | one update on the state as a value: the gate (error, or reset on leaving idle), admission to the window, the `min_samples` wait, the statistics (error on an empty window) and `Judge`; its properties are the lemmas below, and `RpmInstabilityDetector.Update` is proved to follow it |
| `RpmInstability.GateOutcome` | src/detectors/rpm_instability.py:77-81 | leaving the idling gate empties the window, clears the timer and the episode, and emits nothing; a missing coolant temperature fails and changes nothing |
| `RpmInstability.AtMostOneEvent` | src/detectors/rpm_instability.py:87-124 | an update emits at most one event, and none while the window holds fewer than `min_samples` readings |
| `RpmInstability.EmitsExactlyWhen` | src/detectors/rpm_instability.py:98-113 | an event is emitted exactly when the gate passes, the window is full enough, the readings are unstable, the unstable stretch has lasted `min_unstable_duration_s` and no episode is active; it carries the sample's time, the statistics and `window_s`, and the episode is active afterwards |
| `RpmInstability.StepDebounce` | src/detectors/rpm_instability.py:98-103 | an update whose sample is less than `min_unstable_duration_s` after a time no unstable stretch began before emits nothing and records no earlier stretch start |
| `RpmInstability.ActiveEpisodeSuppresses` | src/detectors/rpm_instability.py:103 | while an episode is active no update emits |
| `RpmInstability.EpisodeEndsOnGateOrStable` | src/detectors/rpm_instability.py:115-118 | an active episode ends exactly when the gate closes or a full window reads stable, and its end clears the timer |
| `RpmInstability.DeadZoneKeepsEpisode` | src/detectors/rpm_instability.py:115-122 | during an episode a reading neither unstable nor stable emits nothing, keeps the episode active and clears the timer |
| `RpmInstability.CalmReadingRestartsTimer` | src/detectors/rpm_instability.py:120-122 | a full window that is not unstable emits nothing and clears the timer |
| `RpmInstability.StepActiveAccounting` | src/detectors/rpm_instability.py:98-122 | an emission turns the episode flag on; otherwise an update can only turn it off; a failed update leaves it alone |
| `RpmInstability.EpisodeAccounting` | src/detectors/rpm_instability.py:98-122 | over any sequence of updates, events plus an initially active episode equal episode ends plus a finally active episode, and events exceed episode ends by at most one |
| `RpmInstability.ActiveEpisodeWaitsForEnd` | src/detectors/rpm_instability.py:103-118 | from an active episode, updates that end no episode emit nothing and leave it active; with `StepActiveAccounting` (an event fires only from an inactive state and leaves the episode active) any two events are separated by an episode end, so there is at most one event per episode |
| `RpmInstability.DebounceHoldsOff` | src/detectors/rpm_instability.py:98-103 | when every sample falls within `min_unstable_duration_s` after a time no unstable stretch began before, nothing is emitted, however unstable the readings |
| `RpmInstability.RpmInstabilityDetector.constructor` | src/detectors/rpm_instability.py:51-56 | the configuration given, or the default one when none is given; empty window, no timer, no active episode |
| `RpmInstability.RpmInstabilityDetector.Reset` | src/detectors/rpm_instability.py:58-61 | empty window, no timer, no active episode |
| `RpmInstability.RpmInstabilityDetector.TrimWindow` | src/detectors/rpm_instability.py:142-145 | the window loses exactly its leading entries older than `now - window_s`; timer and episode flag unchanged |
| `RpmInstability.RpmInstabilityDetector.Update` | src/detectors/rpm_instability.py:63-124 | the new fields and the returned events are exactly those of `Step` on the old fields; at most one event |

## Left out

- CSV loading and number parsing (`src/telemetry.py`), the command-line entry point
  (`src/main.py`) and the package re-exports (`src/detectors/__init__.py`) are not part of this
  model. Samples are taken as an already-validated sequence.
- The sample record unifies two spellings of the same fields. `TelemetryRow` has `time_s` and
  `speed_kmh`; the RPM detector reads `timestamp`, `vehicle_speed_kph` and a `coolant_temp_c`
  attribute that `TelemetryRow` lacks. The model has one record: `timeS`, `speedKph`, and an
  optional `coolantTempC`.
- The `details` text of an overheat event (two numbers formatted to one decimal place) is
  modelled as the structured pair it formats. Its rounding is not modelled.
- `RpmUnstableEvent` carries only the fields the detector passes: time, mean, variance,
  peak-to-peak, `window_s` and the message. The source declares it as an extension of the
  event record but does not pass the record's `kind`, `start_s`, `end_s` and `details`. The
  model gives it none of those fields.
- RpmInstability.Step (and so `RpmInstabilityDetector.Update`): returns the event on emission,
  as the class documentation intends. As written, the event construction at
  `src/detectors/rpm_instability.py:106-112` omits the four inherited fields, none of which
  has a default, so it raises a `TypeError`. That happens after the timer is set and the
  episode marked active (lines 100 and 104), so the source never returns an event, and its
  state after the failure is exactly the state `Judge`'s emitting branch builds.
- RpmInstability.Stats: returns the population variance and not the standard deviation (its square root),
  because square roots of reals are not available. The event carries the variance for the
  same reason. The threshold comparisons are exact; see the two root-comparison lemmas.
- Floating-point rounding is not modelled; all quantities are exact reals.
- The overheat detector's initial maximum (negative infinity) is never read before a run
  opens. The model starts it at 0.0.
- `Feed`, which describes a caller feeding samples one by one, stops at the first failed
  update, since the failure propagates to the caller as an exception. What a caller would do
  after catching it is not modelled.
