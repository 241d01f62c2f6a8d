/** The telemetry sample both detectors read.
    The loader that parses delimited text into samples is not part of this model:
    a sample here is an already-validated record. */
module Telemetry {

  datatype Option<+T> = None | Some(value: T)

  /** One telemetry sample. `coolantC` is the coolant reading the overheat detector
      uses; `coolantTempC` is the optional coolant reading the idle-RPM detector looks
      up by name, absent when the sample does not carry it. */
  datatype Sample = Sample(
    timeS: real,
    speedKph: real,
    rpm: real,
    coolantC: real,
    throttlePct: real,
    coolantTempC: Option<real>)

  /** Timestamps never go backwards across the sequence. */
  ghost predicate NonDecreasingTimes(samples: seq<Sample>) {
    forall i, j :: 0 <= i <= j < |samples| ==> samples[i].timeS <= samples[j].timeS
  }
}
