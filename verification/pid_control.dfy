/** The speed law of `PIDControl.h`: the tracked distance to the phone (cm)
    is mapped linearly from [100, 300] onto the motor command range
    [MIN_SPEED, MAX_SPEED] and clamped. The `PID` objects declared beside it
    are never consulted, so the law has no gain or integrator input. */
module PidControl {
  import opened Arduino

  const MIN_SPEED: Int32 := 1000
  const MAX_SPEED: Int32 := 2000

  /** The distances (cm) that `map` sends to MIN_SPEED and MAX_SPEED. */
  const NEAR_DISTANCE: Int32 := 100
  const FAR_DISTANCE: Int32 := 300

  /** The smallest distance at which `(d - 100) * 1000` no longer fits a
      32-bit `long`. */
  const OVERFLOW_DISTANCE: Int32 := 2147584

  /** Over the mapped range, `map` is exact: five command units per cm. */
  lemma MapIsLinear(d: int)
    ensures Map(d, NEAR_DISTANCE, FAR_DISTANCE, MIN_SPEED, MAX_SPEED) == MIN_SPEED + 5 * (d - NEAR_DISTANCE)
  {
    assert (d - 100) * (2000 - 1000) == (5 * (d - 100)) * 200;
    TruncDivExact(5 * (d - 100), 200);
  }

  /** `calculateSpeed(distanceToPhone)` with `map` evaluated without
      overflow: a negative distance is invalid and gives MIN_SPEED; otherwise
      the command saturates at MIN_SPEED up to 100 cm, rises by 5 per cm, and
      saturates at MAX_SPEED from 300 cm on. */
  function CalculateSpeed(distanceToPhone: Int32): (speed: int)
    ensures MIN_SPEED <= speed <= MAX_SPEED
    ensures distanceToPhone < 0 ==> speed == MIN_SPEED
    ensures 0 <= distanceToPhone <= NEAR_DISTANCE ==> speed == MIN_SPEED
    ensures distanceToPhone >= FAR_DISTANCE ==> speed == MAX_SPEED
    ensures NEAR_DISTANCE <= distanceToPhone <= FAR_DISTANCE ==>
      speed == MIN_SPEED + 5 * (distanceToPhone - NEAR_DISTANCE)
  {
    if distanceToPhone < 0 then
      MIN_SPEED
    else
      MapIsLinear(distanceToPhone);
      Constrain(Map(distanceToPhone, NEAR_DISTANCE, FAR_DISTANCE, MIN_SPEED, MAX_SPEED), MIN_SPEED, MAX_SPEED)
  }

  /** A farther phone never yields a slower command, over every input
      (invalid negative distances give the minimum). */
  lemma CalculateSpeedMonotone(d: Int32, d': Int32)
    requires d <= d'
    ensures CalculateSpeed(d) <= CalculateSpeed(d')
  {
  }

  /** `calculateSpeed` as the firmware evaluates it: `map` works on 32-bit
      `long`, so `(d - 100) * 1000` wraps for large distances. */
  function CalculateSpeedAsWritten(distanceToPhone: Int32): (speed: int)
    ensures MIN_SPEED <= speed <= MAX_SPEED
    ensures distanceToPhone < 0 ==> speed == MIN_SPEED
  {
    if distanceToPhone < 0 then
      MIN_SPEED
    else
      Constrain(MapLong(distanceToPhone, NEAR_DISTANCE, FAR_DISTANCE, MIN_SPEED, MAX_SPEED), MIN_SPEED, MAX_SPEED)
  }

  /** Below the overflow point the firmware computes the intended command. */
  lemma AsWrittenAgreesBelowOverflow(d: Int32)
    requires d < OVERFLOW_DISTANCE
    ensures CalculateSpeedAsWritten(d) == CalculateSpeed(d)
  {
    if d >= 0 {
      assert (d - 100) * 1000 < TWO_31;
      MapIsLinear(d);
    }
  }

  /** For 2147584 <= d <= 4295067 the product wraps negative, so a phone
      21 km away gets the minimum command while one 3 m away gets the
      maximum: the command is not monotone in the distance. Beyond that the
      wrap repeats about every 4294967 cm (see `AsWrittenWrapRepeats`). */
  lemma AsWrittenOverflowBreaksMonotonicity()
    ensures CalculateSpeedAsWritten(FAR_DISTANCE) == MAX_SPEED
    ensures CalculateSpeedAsWritten(OVERFLOW_DISTANCE) == MIN_SPEED
    ensures CalculateSpeed(OVERFLOW_DISTANCE) == MAX_SPEED
  {
    assert WrapInt32(2000 - 1000) == 1000 && WrapInt32(300 - 100) == 200;
    assert WrapInt32(300 - 100) * 1000 == 200000;
    TruncDivExact(1000, 200);
    assert MapLong(FAR_DISTANCE, NEAR_DISTANCE, FAR_DISTANCE, MIN_SPEED, MAX_SPEED) == MAX_SPEED;
    assert WrapInt32(OVERFLOW_DISTANCE - 100) == 2147484;
    assert WrapInt32(2147484 * 1000) == -2147483296;
    TruncDivNegative(-2147483296, 200);
    assert TruncDiv(-2147483296, 200) == -10737416;
    assert MapLong(OVERFLOW_DISTANCE, NEAR_DISTANCE, FAR_DISTANCE, MIN_SPEED, MAX_SPEED) == -10736416;
  }

  /** The wrapped product turns positive again from 4295068 cm on, so the
      command climbs back: 1003 there and MAX_SPEED again by 4295500 cm. */
  lemma AsWrittenWrapRepeats()
    ensures CalculateSpeedAsWritten(4295067) == MIN_SPEED
    ensures CalculateSpeedAsWritten(4295068) == 1003
    ensures CalculateSpeedAsWritten(4295500) == MAX_SPEED
  {
    assert WrapInt32(2000 - 1000) == 1000 && WrapInt32(300 - 100) == 200;
    assert WrapInt32(4295067 - 100) == 4294967;
    assert WrapInt32(4294967 * 1000) == -296;
    TruncDivNegative(-296, 200);
    assert TruncDiv(-296, 200) == -1;
    assert WrapInt32(4295068 - 100) == 4294968;
    assert WrapInt32(4294968 * 1000) == 704;
    assert TruncDiv(704, 200) == 3;
    assert WrapInt32(4295500 - 100) == 4295400;
    assert WrapInt32(4295400 * 1000) == 432704;
    assert TruncDiv(432704, 200) == 2163;
  }
}
