/** The immutable event record the detectors emit. */
module Events {

  /** What an overheat event reports about its interval: the largest coolant
      reading seen in it and the threshold it was judged against. */
  datatype CoolantDetails = CoolantDetails(maxCoolantC: real, thresholdC: real)

  datatype Event = Event(kind: string, startS: real, endS: real, details: CoolantDetails)

  const CoolantOverheatKind: string := "COOLANT_OVERHEAT"
}
