/** The speed law of `hoverkart/PIDControl.h`: the same mapping as the root
    sketch, except that an invalid (negative) distance is also reported to
    the fault ledger as a general error. */
module HoverkartPidControl {
  import opened Arduino
  import opened ErrorHandling
  import PidControl

  const MIN_SPEED: Int32 := 1000
  const MAX_SPEED: Int32 := 2000

  const InvalidDistance: Report := Report(GeneralError, "Invalid distance to phone.")

  /** `calculateSpeed(distanceToPhone)` with `map` evaluated without
      overflow, and the reports it raises. */
  function CalculateSpeed(distanceToPhone: Int32): (r: Logged<int>)
    ensures MIN_SPEED <= r.value <= MAX_SPEED
    ensures distanceToPhone < 0 ==> r.value == MIN_SPEED && r.reports == [InvalidDistance]
    ensures distanceToPhone >= 0 ==> r.reports == []
    ensures distanceToPhone >= 0 ==> r.value == PidControl.CalculateSpeed(distanceToPhone)
  {
    if distanceToPhone < 0 then
      Logged(MIN_SPEED, [InvalidDistance])
    else
      PidControl.MapIsLinear(distanceToPhone);
      Logged(Constrain(Map(distanceToPhone, 100, 300, MIN_SPEED, MAX_SPEED), MIN_SPEED, MAX_SPEED), [])
  }

  /** The command is non-decreasing in the distance, pinned to MIN_SPEED up
      to 100 cm and to MAX_SPEED from 300 cm on; exactly the negative
      distances raise a report. */
  lemma CalculateSpeedShape(d: Int32, d': Int32)
    requires 0 <= d <= d'
    ensures CalculateSpeed(d).value <= CalculateSpeed(d').value
    ensures d' <= 100 ==> CalculateSpeed(d').value == MIN_SPEED
    ensures d >= 300 ==> CalculateSpeed(d).value == MAX_SPEED
    ensures CalculateSpeed(d).reports == [] && CalculateSpeed(-d - 1).reports != []
  {
    PidControl.CalculateSpeedMonotone(d, d');
  }

  /** `calculateSpeed` as the firmware evaluates it, on 32-bit `long`. */
  function CalculateSpeedAsWritten(distanceToPhone: Int32): (r: Logged<int>)
    ensures MIN_SPEED <= r.value <= MAX_SPEED
    ensures distanceToPhone < 0 <==> r.reports == [InvalidDistance]
    ensures distanceToPhone >= 0 ==> r.reports == [] && r.value == PidControl.CalculateSpeedAsWritten(distanceToPhone)
  {
    if distanceToPhone < 0 then
      Logged(MIN_SPEED, [InvalidDistance])
    else
      Logged(Constrain(MapLong(distanceToPhone, 100, 300, MIN_SPEED, MAX_SPEED), MIN_SPEED, MAX_SPEED), [])
  }

  /** The same wrap as in the root sketch: a valid distance of 2147584 cm
      is answered with MIN_SPEED and no report, although the intended
      command is MAX_SPEED. */
  lemma AsWrittenOverflowBreaksMonotonicity()
    ensures CalculateSpeedAsWritten(300) == Logged(MAX_SPEED, [])
    ensures CalculateSpeedAsWritten(2147584) == Logged(MIN_SPEED, [])
    ensures CalculateSpeed(2147584) == Logged(MAX_SPEED, [])
  {
    PidControl.AsWrittenOverflowBreaksMonotonicity();
  }
}
