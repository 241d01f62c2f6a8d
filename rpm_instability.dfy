/** The idle-RPM instability detector: while the vehicle idles it keeps a rolling,
    time-bounded window of engine-speed readings, and reports one event per episode
    of sustained dispersion, with a debounce on entry and hysteresis on exit. */
module RpmInstability {
  import opened Telemetry

  // ---------------------------------------------------------------------------
  // Configuration, events and errors

  /** Thresholds and durations, fixed when the detector is built. A `None`
      minimum coolant temperature switches the warm-engine gate off. */
  datatype Config = Config(
    maxSpeedKph: real,
    maxThrottlePct: real,
    minRpmRunning: real,
    minCoolantTempC: Option<real>,
    windowS: real,
    minSamples: int,
    stdThresholdRpm: real,
    peakToPeakThresholdRpm: real,
    minUnstableDurationS: real,
    stableResetStdRpm: real,
    stableResetP2pRpm: real)

  /** The configuration used when the detector is built without one. */
  const DefaultConfig: Config := Config(
    maxSpeedKph := 2.0,
    maxThrottlePct := 5.0,
    minRpmRunning := 500.0,
    minCoolantTempC := Some(60.0),
    windowS := 8.0,
    minSamples := 10,
    stdThresholdRpm := 60.0,
    peakToPeakThresholdRpm := 180.0,
    minUnstableDurationS := 3.0,
    stableResetStdRpm := 40.0,
    stableResetP2pRpm := 120.0)

  /** The default thresholds leave a dead zone between the two hysteresis bands:
      a window the defaults read as stable is never read as unstable, and a window
      of positive length keeps at least the newest sample. */
  lemma DefaultConfigHysteresis(st: WindowStats)
    ensures StableNow(DefaultConfig, st) ==> !UnstableNow(DefaultConfig, st)
    ensures DefaultConfig.windowS > 0.0 && DefaultConfig.minSamples > 0
    ensures DefaultConfig.stableResetStdRpm < DefaultConfig.stdThresholdRpm
    ensures DefaultConfig.stableResetP2pRpm < DefaultConfig.peakToPeakThresholdRpm
  {
  }

  const InstabilityMessage: string := "Idle RPM instability detected"

  /** What an instability event reports. The dispersion is carried as the
      population variance of the window; the standard deviation is its square root. */
  datatype RpmUnstableEvent = RpmUnstableEvent(
    timestamp: real,
    meanRpm: real,
    varianceRpm: real,
    peakToPeak: real,
    windowS: real,
    message: string)

  /** The failures of an update that the model keeps: the warm-engine gate is on
      and the sample carries no coolant temperature, or the statistics are asked of
      an empty window (possible only when `minSamples <= 0`). Building the event
      record fails too in the source, for want of the inherited event fields; the
      model returns the event instead (see README, "Left out"). */
  datatype Error = MissingCoolantTemp | EmptyWindow

  datatype Result<T> = Ok(value: T) | Err(error: Error)

  // ---------------------------------------------------------------------------
  // The idling gate

  /** Whether the vehicle idles: the engine runs, the vehicle stands, the throttle
      is closed and, with the warm gate on, the coolant is warm. The checks run in
      that order, so a missing coolant temperature is only an error once the first
      three pass. */
  function IsIdling(cfg: Config, s: Sample): (r: Result<bool>)
    ensures r == Ok(false) <==>
      || s.rpm < cfg.minRpmRunning
      || s.speedKph > cfg.maxSpeedKph
      || s.throttlePct > cfg.maxThrottlePct
      || (cfg.minCoolantTempC.Some? && s.coolantTempC.Some? &&
          s.coolantTempC.value < cfg.minCoolantTempC.value)
    ensures r == Ok(true) <==>
      && s.rpm >= cfg.minRpmRunning
      && s.speedKph <= cfg.maxSpeedKph
      && s.throttlePct <= cfg.maxThrottlePct
      && (cfg.minCoolantTempC.Some? ==>
            s.coolantTempC.Some? && s.coolantTempC.value >= cfg.minCoolantTempC.value)
    ensures r.Err? ==> r.error == MissingCoolantTemp
  {
    if s.rpm < cfg.minRpmRunning then Ok(false)
    else if s.speedKph > cfg.maxSpeedKph then Ok(false)
    else if s.throttlePct > cfg.maxThrottlePct then Ok(false)
    else if cfg.minCoolantTempC.Some? then
      if s.coolantTempC.None? then Err(MissingCoolantTemp)
      else if s.coolantTempC.value < cfg.minCoolantTempC.value then Ok(false)
      else Ok(true)
    else Ok(true)
  }

  // ---------------------------------------------------------------------------
  // The rolling window

  /** The number of leading entries of `w`, from index `i` on, that are older than
      `cutoff`: the entries the window loses on eviction. */
  function Evicted(w: seq<(real, real)>, cutoff: real, i: nat): (k: nat)
    requires i <= |w|
    ensures i <= k <= |w|
    ensures forall m :: i <= m < k ==> w[m].0 < cutoff
    ensures k < |w| ==> w[k].0 >= cutoff
    decreases |w| - i
  {
    if i < |w| && w[i].0 < cutoff then Evicted(w, cutoff, i + 1) else i
  }

  /** The window after eviction: the leading entries older than `cutoff` removed,
      and nothing else. */
  function Trim(w: seq<(real, real)>, cutoff: real): seq<(real, real)> {
    w[Evicted(w, cutoff, 0)..]
  }

  /** The entries are in time order and all lie within `windowS` of `now`. */
  ghost predicate WindowWithin(cfg: Config, w: seq<(real, real)>, now: real) {
    && (forall i, j :: 0 <= i <= j < |w| ==> w[i].0 <= w[j].0)
    && (forall i :: 0 <= i < |w| ==> now - cfg.windowS <= w[i].0 <= now)
  }

  // ---------------------------------------------------------------------------
  // Window statistics

  function Rpms(w: seq<(real, real)>): (xs: seq<real>)
    ensures |xs| == |w| && forall i :: 0 <= i < |w| ==> xs[i] == w[i].1
  {
    seq(|w|, i requires 0 <= i < |w| => w[i].1)
  }

  function Sum(xs: seq<real>): real {
    if xs == [] then 0.0 else xs[0] + Sum(xs[1..])
  }

  function Max(xs: seq<real>): (m: real)
    requires xs != []
    ensures m in xs && forall i :: 0 <= i < |xs| ==> xs[i] <= m
  {
    if |xs| == 1 then xs[0]
    else
      var rest := Max(xs[1..]);
      if xs[0] >= rest then xs[0] else rest
  }

  function Min(xs: seq<real>): (m: real)
    requires xs != []
    ensures m in xs && forall i :: 0 <= i < |xs| ==> m <= xs[i]
  {
    if |xs| == 1 then xs[0]
    else
      var rest := Min(xs[1..]);
      if xs[0] <= rest then xs[0] else rest
  }

  /** The sum of squared deviations from `mean`; never negative. */
  function SquaredDeviations(xs: seq<real>, mean: real): (d: real)
    ensures d >= 0.0
  {
    if xs == [] then 0.0
    else
      SquareNonNegative(xs[0] - mean);
      (xs[0] - mean) * (xs[0] - mean) + SquaredDeviations(xs[1..], mean)
  }

  lemma SquareNonNegative(x: real)
    ensures x * x >= 0.0
  {
    if x < 0.0 {
      assert x * x == (-x) * (-x);
    }
  }

  datatype WindowStats = WindowStats(mean: real, variance: real, peakToPeak: real)

  /** Mean, population variance (divided by n) and peak-to-peak spread of the
      window's readings. */
  function Stats(w: seq<(real, real)>): (st: WindowStats)
    requires w != []
    ensures Min(Rpms(w)) <= st.mean <= Max(Rpms(w))
    ensures st.variance >= 0.0
    ensures st.peakToPeak >= 0.0
    ensures forall i, j :: 0 <= i < |w| && 0 <= j < |w| ==> w[i].1 - w[j].1 <= st.peakToPeak
  {
    var xs := Rpms(w);
    var n := |xs| as real;
    var mean := Sum(xs) / n;
    MeanWithinRange(xs);
    SpreadWithinPeakToPeak(w);
    WindowStats(mean, SquaredDeviations(xs, mean) / n, Max(xs) - Min(xs))
  }

  /** The mean of the readings lies between their minimum and their maximum. */
  lemma MeanWithinRange(xs: seq<real>)
    requires xs != []
    ensures Min(xs) <= Sum(xs) / |xs| as real <= Max(xs)
  {
    MeanBounded(xs, Min(xs), Max(xs));
  }

  /** Readings that all lie in [lo, hi] have their mean in [lo, hi]. */
  lemma MeanBounded(xs: seq<real>, lo: real, hi: real)
    requires xs != []
    requires forall i :: 0 <= i < |xs| ==> lo <= xs[i] <= hi
    ensures lo <= Sum(xs) / |xs| as real <= hi
  {
    var n, total := |xs| as real, Sum(xs);
    assert n * lo <= total <= n * hi by {
      SumBounds(xs, lo, hi);
    }
    MeanBetween(total, n, lo, hi);
  }

  /** No two readings of the window differ by more than max - min. */
  lemma SpreadWithinPeakToPeak(w: seq<(real, real)>)
    requires w != []
    ensures forall i, j :: 0 <= i < |w| && 0 <= j < |w| ==> w[i].1 - w[j].1 <= Max(Rpms(w)) - Min(Rpms(w))
  {
    var xs := Rpms(w);
    assert forall i :: 0 <= i < |w| ==> Min(xs) <= w[i].1 <= Max(xs);
  }

  /** A sum of readings that all lie in [lo, hi] lies in [n * lo, n * hi]. */
  lemma {:induction false} SumBounds(xs: seq<real>, lo: real, hi: real)
    requires forall i :: 0 <= i < |xs| ==> lo <= xs[i] <= hi
    ensures |xs| as real * lo <= Sum(xs) <= |xs| as real * hi
  {
    if xs != [] {
      SumBounds(xs[1..], lo, hi);
    }
  }

  lemma MeanBetween(sum: real, n: real, lo: real, hi: real)
    requires n > 0.0 && n * lo <= sum <= n * hi
    ensures lo <= sum / n <= hi
  {
    var mean := sum / n;
    assert n * mean == sum;
  }

  // ---------------------------------------------------------------------------
  // Comparing the standard deviation without a square root

  /** `sqrt(variance) >= threshold`, stated on the variance. */
  predicate StdAtLeast(variance: real, threshold: real) {
    threshold <= 0.0 || variance >= threshold * threshold
  }

  /** `sqrt(variance) <= threshold`, stated on the variance. */
  predicate StdAtMost(variance: real, threshold: real) {
    threshold >= 0.0 && variance <= threshold * threshold
  }

  /** For the non-negative root `std` of `variance`, `StdAtLeast` is exactly the
      comparison `std >= threshold`. */
  lemma StdAtLeastIsRootComparison(variance: real, std: real, threshold: real)
    requires std >= 0.0 && std * std == variance
    ensures (std >= threshold) <==> StdAtLeast(variance, threshold)
  {
    if threshold > 0.0 {
      if std >= threshold {
        assert std * std >= threshold * std;
        assert threshold * std >= threshold * threshold;
      } else {
        var a, b, c := std * std, std * threshold, threshold * threshold;
        assert a <= b;
        assert b < c;
        assert variance < c;
      }
    }
  }

  /** For the non-negative root `std` of `variance`, `StdAtMost` is exactly the
      comparison `std <= threshold`. */
  lemma StdAtMostIsRootComparison(variance: real, std: real, threshold: real)
    requires std >= 0.0 && std * std == variance
    ensures (std <= threshold) <==> StdAtMost(variance, threshold)
  {
    if threshold >= 0.0 {
      if std <= threshold {
        assert std * std <= std * threshold;
        assert std * threshold <= threshold * threshold;
      } else {
        assert std * std > threshold * std;
        assert threshold * std >= threshold * threshold;
      }
    }
  }

  predicate UnstableNow(cfg: Config, st: WindowStats) {
    StdAtLeast(st.variance, cfg.stdThresholdRpm) || st.peakToPeak >= cfg.peakToPeakThresholdRpm
  }

  predicate StableNow(cfg: Config, st: WindowStats) {
    StdAtMost(st.variance, cfg.stableResetStdRpm) && st.peakToPeak <= cfg.stableResetP2pRpm
  }

  // ---------------------------------------------------------------------------
  // The detector as a state machine on values

  /** The detector's mutable state: the window of (time, rpm) pairs, the time the
      current unstable stretch began, and whether an event was already emitted for
      the current episode. */
  datatype State = State(window: seq<(real, real)>, unstableSince: Option<real>, active: bool)

  const Cleared: State := State([], None, false)

  datatype Outcome = Outcome(next: State, result: Result<seq<RpmUnstableEvent>>)

  /** Debounce and hysteresis once the window's statistics are known. */
  function Judge(cfg: Config, st: State, t: real, stats: WindowStats): Outcome {
    var unstable := UnstableNow(cfg, stats);
    var since := if unstable && st.unstableSince.None? then Some(t) else st.unstableSince;
    if unstable && t - since.value >= cfg.minUnstableDurationS && !st.active then
      Outcome(st.(unstableSince := since, active := true),
              Ok([RpmUnstableEvent(t, stats.mean, stats.variance, stats.peakToPeak, cfg.windowS,
                                   InstabilityMessage)]))
    else
      var closes := st.active && StableNow(cfg, stats);
      Outcome(State(st.window,
                    if closes || !unstable then None else since,
                    if closes then false else st.active),
              Ok([]))
  }

  /** The window after admitting the sample: appended at the back, then trimmed
      to the samples no older than `windowS` before it. */
  function Admit(cfg: Config, w: seq<(real, real)>, s: Sample): seq<(real, real)> {
    Trim(w + [(s.timeS, s.rpm)], s.timeS - cfg.windowS)
  }

  /** One update: gate, window maintenance, statistics, debounce and hysteresis. */
  function Step(cfg: Config, st: State, s: Sample): Outcome {
    match IsIdling(cfg, s)
    case Err(e) => Outcome(st, Err(e))
    case Ok(idle) =>
      if !idle then Outcome(Cleared, Ok([]))
      else
        var w := Admit(cfg, st.window, s);
        if |w| < cfg.minSamples then Outcome(st.(window := w), Ok([]))
        else if w == [] then Outcome(st.(window := w), Err(EmptyWindow))
        else Judge(cfg, st.(window := w), s.timeS, Stats(w))
  }

  // ---------------------------------------------------------------------------
  // Properties of the window

  /** Eviction removes only leading entries, all older than the cutoff, and stops at
      the first entry that is not; on a time-ordered window every entry kept is at
      or after the cutoff. */
  lemma TrimRemovesOnlyStaleFront(w: seq<(real, real)>, cutoff: real)
    ensures var r := Trim(w, cutoff);
      && |r| <= |w| && r == w[|w| - |r|..]
      && (forall i :: 0 <= i < |w| - |r| ==> w[i].0 < cutoff)
      && (r != [] ==> r[0].0 >= cutoff)
      && ((forall i, j :: 0 <= i <= j < |w| ==> w[i].0 <= w[j].0) ==>
            forall i :: 0 <= i < |r| ==> r[i].0 >= cutoff)
  {
    var k := Evicted(w, cutoff, 0);
    var r := Trim(w, cutoff);
    assert forall i :: 0 <= i < |r| ==> r[i] == w[k + i];
  }

  /** With a non-negative window length the sample just admitted is never evicted. */
  lemma NewestSampleKept(cfg: Config, w: seq<(real, real)>, s: Sample)
    requires cfg.windowS >= 0.0
    ensures var r := Admit(cfg, w, s);
      r != [] && r[|r| - 1] == (s.timeS, s.rpm)
  {
    var w' := w + [(s.timeS, s.rpm)];
    TrimRemovesOnlyStaleFront(w', s.timeS - cfg.windowS);
    var r := Admit(cfg, w, s);
    assert w'[|w'| - 1].0 >= s.timeS - cfg.windowS;
    assert |w'| - |r| <= |w'| - 1;
    assert r[|r| - 1] == w'[|w'| - 1];
  }

  /** Appending a sample no older than every entry keeps the window time-ordered
      with every entry at or before that sample. */
  lemma AppendKeepsOrder(cfg: Config, w: seq<(real, real)>, s: Sample, prev: real)
    requires WindowWithin(cfg, w, prev) && prev <= s.timeS
    ensures var w' := w + [(s.timeS, s.rpm)];
      && (forall i, j :: 0 <= i <= j < |w'| ==> w'[i].0 <= w'[j].0)
      && (forall i :: 0 <= i < |w'| ==> w'[i].0 <= s.timeS)
  {
  }

  /** A time-ordered window, trimmed at `now - windowS`, with every entry at or
      before `now`, lies within `windowS` of `now`. */
  lemma TrimKeepsWithin(cfg: Config, w: seq<(real, real)>, now: real)
    requires forall i, j :: 0 <= i <= j < |w| ==> w[i].0 <= w[j].0
    requires forall i :: 0 <= i < |w| ==> w[i].0 <= now
    ensures WindowWithin(cfg, Trim(w, now - cfg.windowS), now)
  {
    var k := Evicted(w, now - cfg.windowS, 0);
    var r := Trim(w, now - cfg.windowS);
    assert forall i :: 0 <= i < |r| ==> r[i] == w[k + i];
  }

  /** Admitting a sample no older than every entry keeps the window time-ordered and
      within `windowS` of that sample. */
  lemma AdmitKeepsWindowWithin(cfg: Config, w: seq<(real, real)>, s: Sample, prev: real)
    requires WindowWithin(cfg, w, prev) && prev <= s.timeS
    ensures WindowWithin(cfg, Admit(cfg, w, s), s.timeS)
  {
    AppendKeepsOrder(cfg, w, s, prev);
    TrimKeepsWithin(cfg, w + [(s.timeS, s.rpm)], s.timeS);
  }

  /** Every update keeps the window time-ordered and within `windowS` of the newest
      sample, provided timestamps do not go backwards (a missing coolant temperature
      leaves the state as it was). */
  lemma StepKeepsWindowWithin(cfg: Config, st: State, s: Sample, prev: real)
    requires WindowWithin(cfg, st.window, prev) && prev <= s.timeS
    ensures var o := Step(cfg, st, s);
      if IsIdling(cfg, s).Err? then o.next == st else WindowWithin(cfg, o.next.window, s.timeS)
  {
    AdmitKeepsWindowWithin(cfg, st.window, s, prev);
  }

  // ---------------------------------------------------------------------------
  // Properties of one update

  /** Leaving the idling gate clears window, timer and episode and emits nothing;
      a missing coolant temperature under the warm gate fails and changes nothing. */
  lemma GateOutcome(cfg: Config, st: State, s: Sample)
    ensures IsIdling(cfg, s) == Ok(false) ==> Step(cfg, st, s) == Outcome(Cleared, Ok([]))
    ensures IsIdling(cfg, s).Err? ==> Step(cfg, st, s) == Outcome(st, Err(MissingCoolantTemp))
  {
  }

  /** An update emits at most one event, and none unless the window holds at least
      `minSamples` readings. */
  lemma AtMostOneEvent(cfg: Config, st: State, s: Sample)
    ensures var o := Step(cfg, st, s);
      o.result.Ok? ==>
        && |o.result.value| <= 1
        && (|Admit(cfg, st.window, s)| < cfg.minSamples ==> o.result.value == [])
  {
  }

  /** An update emits exactly when the gate passes, the window is full enough, the
      readings are unstable, the unstable stretch has lasted `minUnstableDurationS`
      and no episode is active. The event carries the sample's time and the window's
      statistics, and the episode is active afterwards. */
  lemma EmitsExactlyWhen(cfg: Config, st: State, s: Sample)
    ensures var o := Step(cfg, st, s);
      var w := Admit(cfg, st.window, s);
      var since := if st.unstableSince.Some? then st.unstableSince.value else s.timeS;
      && ((o.result.Ok? && o.result.value != []) <==>
           && IsIdling(cfg, s) == Ok(true)
           && |w| >= cfg.minSamples && w != []
           && UnstableNow(cfg, Stats(w))
           && s.timeS - since >= cfg.minUnstableDurationS
           && !st.active)
      && (o.result.Ok? && o.result.value != [] ==>
           && w != []
           && o.result.value[0] == RpmUnstableEvent(s.timeS, Stats(w).mean, Stats(w).variance,
                                                     Stats(w).peakToPeak, cfg.windowS,
                                                     InstabilityMessage)
           && o.next == State(w, Some(since), true))
  {
  }

  /** While an episode is active no update emits. */
  lemma ActiveEpisodeSuppresses(cfg: Config, st: State, s: Sample)
    requires st.active
    ensures Step(cfg, st, s).result.Ok? ==> Step(cfg, st, s).result.value == []
  {
  }

  /** An active episode ends exactly when the gate closes or a full window reads
      stable; ending it also clears the timer. */
  lemma EpisodeEndsOnGateOrStable(cfg: Config, st: State, s: Sample)
    requires st.active
    ensures var o := Step(cfg, st, s);
      var w := Admit(cfg, st.window, s);
      && (!o.next.active <==>
           || IsIdling(cfg, s) == Ok(false)
           || (IsIdling(cfg, s) == Ok(true) && |w| >= cfg.minSamples && w != [] &&
               StableNow(cfg, Stats(w))))
      && (!o.next.active ==> o.next.unstableSince == None)
  {
  }

  /** During an episode, a reading in the dead zone between the stable and the
      unstable thresholds neither emits nor ends the episode, and restarts the timer. */
  lemma DeadZoneKeepsEpisode(cfg: Config, st: State, s: Sample)
    requires st.active && IsIdling(cfg, s) == Ok(true)
    requires var w := Admit(cfg, st.window, s);
      |w| >= cfg.minSamples && w != [] &&
      !UnstableNow(cfg, Stats(w)) && !StableNow(cfg, Stats(w))
    ensures Step(cfg, st, s) == Outcome(State(Admit(cfg, st.window, s), None, true), Ok([]))
  {
  }

  /** A full window that does not read unstable emits nothing and clears the timer,
      so the debounce starts afresh. */
  lemma CalmReadingRestartsTimer(cfg: Config, st: State, s: Sample)
    requires IsIdling(cfg, s) == Ok(true)
    requires var w := Admit(cfg, st.window, s);
      |w| >= cfg.minSamples && w != [] && !UnstableNow(cfg, Stats(w))
    ensures var o := Step(cfg, st, s);
      o.result == Ok([]) && o.next.unstableSince == None
  {
  }

  /** How one update moves the episode flag: an emission turns it on, otherwise it
      can only be turned off; a failed update leaves it alone. */
  lemma StepActiveAccounting(cfg: Config, st: State, s: Sample)
    ensures var o := Step(cfg, st, s);
      && (o.result.Err? ==> o.next.active == st.active)
      && (o.result.Ok? ==> |o.result.value| <= 1)
      && (o.result.Ok? && |o.result.value| == 1 ==> !st.active && o.next.active)
      && (o.result.Ok? && o.result.value == [] && o.next.active ==> st.active)
  {
  }

  // ---------------------------------------------------------------------------
  // A sequence of updates

  /** The outcome of feeding `ss` one by one: the final state, the events emitted,
      the number of episodes that ended, and whether an update failed (feeding stops
      at the first failure, as the failure propagates to the caller). */
  datatype Trace = Trace(final: State, events: seq<RpmUnstableEvent>, closes: nat, failed: bool)

  function Feed(cfg: Config, st: State, ss: seq<Sample>): Trace
    decreases |ss|
  {
    if ss == [] then Trace(st, [], 0, false)
    else
      var o := Step(cfg, st, ss[0]);
      if o.result.Err? then Trace(o.next, [], 0, true)
      else
        var rest := Feed(cfg, o.next, ss[1..]);
        Trace(rest.final, o.result.value + rest.events,
              rest.closes + (if st.active && !o.next.active then 1 else 0), rest.failed)
  }

  /** Events and episode ends alternate: every event opens an episode and every
      ending closes one, so over any sequence of updates there is at most one event
      per episode. */
  lemma {:induction false} EpisodeAccounting(cfg: Config, st: State, ss: seq<Sample>)
    ensures var tr := Feed(cfg, st, ss);
      |tr.events| + (if st.active then 1 else 0) == tr.closes + (if tr.final.active then 1 else 0)
    ensures |Feed(cfg, st, ss).events| <= Feed(cfg, st, ss).closes + 1
    decreases |ss|
  {
    if ss != [] {
      StepActiveAccounting(cfg, st, ss[0]);
      var o := Step(cfg, st, ss[0]);
      if o.result.Ok? {
        EpisodeAccounting(cfg, o.next, ss[1..]);
      }
    }
  }

  /** While an episode is active, a sequence of updates that ends no episode emits
      nothing and leaves the episode active: after an event, the next event can come
      only after an episode end. */
  lemma {:induction false} ActiveEpisodeWaitsForEnd(cfg: Config, st: State, ss: seq<Sample>)
    requires st.active
    requires Feed(cfg, st, ss).closes == 0
    ensures Feed(cfg, st, ss).events == []
    ensures Feed(cfg, st, ss).final.active
    decreases |ss|
  {
    if ss != [] {
      var o := Step(cfg, st, ss[0]);
      StepActiveAccounting(cfg, st, ss[0]);
      ActiveEpisodeSuppresses(cfg, st, ss[0]);
      if o.result.Ok? {
        ActiveEpisodeWaitsForEnd(cfg, o.next, ss[1..]);
      }
    }
  }

  /** One update neither emits nor records an unstable stretch earlier than `t0`
      when the sample is less than `minUnstableDurationS` after `t0` and no stretch
      began before `t0`. */
  lemma StepDebounce(cfg: Config, st: State, s: Sample, t0: real)
    requires st.unstableSince.Some? ==> st.unstableSince.value >= t0
    requires t0 <= s.timeS < t0 + cfg.minUnstableDurationS
    ensures var o := Step(cfg, st, s);
      && (o.result.Ok? ==> o.result.value == [])
      && (o.next.unstableSince.Some? ==> o.next.unstableSince.value >= t0)
  {
    if IsIdling(cfg, s) == Ok(true) {
      var w := Admit(cfg, st.window, s);
      if |w| >= cfg.minSamples && w != [] {
        JudgeDebounce(cfg, st.(window := w), s.timeS, Stats(w), t0);
      }
    }
  }

  lemma JudgeDebounce(cfg: Config, st: State, t: real, stats: WindowStats, t0: real)
    requires st.unstableSince.Some? ==> st.unstableSince.value >= t0
    requires t0 <= t < t0 + cfg.minUnstableDurationS
    ensures var o := Judge(cfg, st, t, stats);
      && o.result == Ok([])
      && (o.next.unstableSince.Some? ==> o.next.unstableSince.value >= t0)
  {
  }

  /** Debounce: when every sample falls within `minUnstableDurationS` after `t0` and
      no unstable stretch began before `t0`, nothing is emitted, however unstable the
      readings are. */
  lemma {:induction false} DebounceHoldsOff(cfg: Config, st: State, ss: seq<Sample>, t0: real)
    requires st.unstableSince.Some? ==> st.unstableSince.value >= t0
    requires forall i :: 0 <= i < |ss| ==> t0 <= ss[i].timeS < t0 + cfg.minUnstableDurationS
    ensures Feed(cfg, st, ss).events == []
    decreases |ss|
  {
    if ss != [] {
      StepDebounce(cfg, st, ss[0], t0);
      var o := Step(cfg, st, ss[0]);
      if o.result.Ok? {
        DebounceHoldsOff(cfg, o.next, ss[1..], t0);
      }
    }
  }

  // ---------------------------------------------------------------------------
  // The detector object

  class RpmInstabilityDetector {
    const cfg: Config
    var window: seq<(real, real)>
    var unstableSince: Option<real>
    var active: bool

    function Current(): State
      reads this
    {
      State(window, unstableSince, active)
    }

    /** A detector with an empty window; without a configuration it uses the default one. */
    constructor (cfg: Option<Config>)
      ensures this.cfg == if cfg.Some? then cfg.value else DefaultConfig
      ensures Current() == Cleared
    {
      this.cfg := if cfg.Some? then cfg.value else DefaultConfig;
      window := [];
      unstableSince := None;
      active := false;
    }

    method Reset()
      modifies this
      ensures Current() == Cleared
    {
      window := [];
      unstableSince := None;
      active := false;
    }

    /** Evicts, from the front, the entries older than `now - windowS`. */
    method TrimWindow(now: real)
      modifies this
      ensures window == Trim(old(window), now - cfg.windowS)
      ensures unstableSince == old(unstableSince) && active == old(active)
    {
      var cutoff := now - cfg.windowS;
      ghost var dropped: nat := 0;
      while |window| > 0 && window[0].0 < cutoff
        invariant dropped <= |old(window)| && window == old(window)[dropped..]
        invariant forall m :: 0 <= m < dropped ==> old(window)[m].0 < cutoff
        invariant unstableSince == old(unstableSince) && active == old(active)
        decreases |window|
      {
        window := window[1..];
        dropped := dropped + 1;
      }
      assert Evicted(old(window), cutoff, 0) == dropped;
    }

    /** Feeds one sample; returns the events it emits, at most one. */
    method Update(s: Sample) returns (r: Result<seq<RpmUnstableEvent>>)
      modifies this
      ensures Outcome(Current(), r) == Step(cfg, old(Current()), s)
      ensures r.Ok? ==> |r.value| <= 1
    {
      ghost var before := Current();
      var idle := IsIdling(cfg, s);
      if idle.Err? {
        return Err(idle.error);
      }
      if !idle.value {
        // leaving idle clears the window and the episode
        Reset();
        return Ok([]);
      }

      window := window + [(s.timeS, s.rpm)];
      TrimWindow(s.timeS);
      assert window == Admit(cfg, before.window, s);

      if |window| < cfg.minSamples {
        return Ok([]);
      }
      if |window| == 0 {
        return Err(EmptyWindow);
      }

      var stats := Stats(window);
      var unstable := UnstableNow(cfg, stats);
      var stable := StableNow(cfg, stats);
      ghost var judged := Judge(cfg, Current(), s.timeS, stats);
      assert Step(cfg, before, s) == judged;

      // debounce
      if unstable {
        if unstableSince.None? {
          unstableSince := Some(s.timeS);
        }
        var duration := s.timeS - unstableSince.value;
        if duration >= cfg.minUnstableDurationS && !active {
          active := true;
          return Ok([RpmUnstableEvent(s.timeS, stats.mean, stats.variance, stats.peakToPeak,
                                      cfg.windowS, InstabilityMessage)]);
        }
      }

      // hysteresis: the episode ends only on a stable reading
      if active && stable {
        active := false;
        unstableSince := None;
      }

      if !unstable {
        unstableSince := None;
      }
      return Ok([]);
    }
  }
}
