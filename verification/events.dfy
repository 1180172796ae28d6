/** What the control code does to the outside world, as an ordered trace:
    pin writes, fault reports handed to the `ErrorHandler`, and calls of
    `emergencyStop()`. */
module Events {
  import opened Arduino
  import opened ErrorHandling

  datatype Event =
    | DigitalWrite(pin: int, level: Level)
    | AnalogWrite(pin: int, value: int)
    | Reported(report: Report)
    | EmergencyStop

  /** The events of one `displayError(kind, message)` call: the report
      itself, then whatever `handleRecovery` does for its kind. */
  function DisplayErrorEvents(r: Report): (events: seq<Event>)
    ensures |events| >= 1 && events[0] == Reported(r)
    ensures EmergencyStop in events <==> r.kind == MotorError
  {
    [Reported(r)] + (if HandleRecovery(r.kind) == CallEmergencyStop then [EmergencyStop] else [])
  }
}
