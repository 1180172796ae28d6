/** Motor control of the `hoverkart` sketch (`hoverkart/MotorControl.h`).
    It differs from the root sketch in its failure paths: a rear blocked at
    entry is reported to the fault ledger as a motor fault (whose recovery
    calls `emergencyStop()`), and a rear blocked mid-reverse calls
    `emergencyStop()` directly. Its rear check is the one in
    `hoverkart/MotorControl.h`, which compares the rear ranger's reading,
    an input here, with 30 cm; the sketch's other definition, in
    `hoverkart/Sensors.h`, reads the front ranger instead. */
module HoverkartMotorControl {
  import opened Arduino
  import opened ErrorHandling
  import opened Events
  import Sensors

  const PWM_PIN_LEFT: int := 32
  const PWM_PIN_RIGHT: int := 33
  const DIRECTION_PIN_LEFT: int := 25
  const DIRECTION_PIN_RIGHT: int := 26

  const DEFAULT_FORWARD_SPEED: Int32 := 1500
  const DEFAULT_REVERSE_SPEED: Int32 := 1000
  const REVERSE_TIMEOUT: UInt32 := 5000

  const MAX_SPEED: Int32 := 2000
  const MIN_SPEED: Int32 := 1000

  /** The rear reading (cm) that `isRearPathClear()` must exceed. */
  const REAR_CLEARANCE: Int32 := 30

  const RearBlocked: Report := Report(MotorError, "Rear path blocked.")

  /** `isRearPathClear()` on a rear ranger reading: clear only above 30 cm,
      so the -1 of a timed-out read is never clear. */
  function IsRearPathClear(rearReading: Int32): (clear: bool)
    ensures clear ==> rearReading > 0
    ensures rearReading == -1 ==> !clear
  {
    rearReading > REAR_CLEARANCE
  }

  /** What reaches a PWM pin for a requested speed: the speed itself when
      in [MIN_SPEED, MAX_SPEED], else the nearer bound. */
  predicate ClampedWrite(requested: int, written: int)
  {
    && MIN_SPEED <= written <= MAX_SPEED
    && (MIN_SPEED <= requested <= MAX_SPEED ==> written == requested)
    && (requested < MIN_SPEED ==> written == MIN_SPEED)
    && (requested > MAX_SPEED ==> written == MAX_SPEED)
  }

  /** `setMotorPWM(leftSpeed, rightSpeed)`: one PWM write per wheel. */
  function SetMotorPwm(leftSpeed: Int32, rightSpeed: Int32): (events: seq<Event>)
    ensures |events| == 2
    ensures events[0].AnalogWrite? && events[0].pin == PWM_PIN_LEFT && ClampedWrite(leftSpeed, events[0].value)
    ensures events[1].AnalogWrite? && events[1].pin == PWM_PIN_RIGHT && ClampedWrite(rightSpeed, events[1].value)
  {
    [ AnalogWrite(PWM_PIN_LEFT, Constrain(leftSpeed, MIN_SPEED, MAX_SPEED)),
      AnalogWrite(PWM_PIN_RIGHT, Constrain(rightSpeed, MIN_SPEED, MAX_SPEED)) ]
  }

  /** Feeding back what was written writes the same again: the clamp is
      idempotent. */
  lemma SetMotorPwmIdempotent(leftSpeed: Int32, rightSpeed: Int32)
    ensures var w := SetMotorPwm(leftSpeed, rightSpeed);
      SetMotorPwm(w[0].value, w[1].value) == w
  {
    ConstrainIdempotentMonotone(leftSpeed, leftSpeed, MIN_SPEED, MAX_SPEED);
    ConstrainIdempotentMonotone(rightSpeed, rightSpeed, MIN_SPEED, MAX_SPEED);
  }

  /** The reverse speed lies within the bounds, so the clamp leaves it
      unchanged. */
  lemma ReverseSpeedUnclamped()
    ensures SetMotorPwm(DEFAULT_REVERSE_SPEED, DEFAULT_REVERSE_SPEED)
      == [AnalogWrite(PWM_PIN_LEFT, DEFAULT_REVERSE_SPEED), AnalogWrite(PWM_PIN_RIGHT, DEFAULT_REVERSE_SPEED)]
  {
  }

  /** `steerForward()`: both direction pins LOW. */
  function SteerForward(): seq<Event>
  {
    [DigitalWrite(DIRECTION_PIN_LEFT, Low), DigitalWrite(DIRECTION_PIN_RIGHT, Low)]
  }

  /** The start of a reverse: both direction pins HIGH, then the reverse
      speed on both wheels. */
  function StartReverse(): seq<Event>
  {
    [DigitalWrite(DIRECTION_PIN_LEFT, High), DigitalWrite(DIRECTION_PIN_RIGHT, High)]
      + SetMotorPwm(DEFAULT_REVERSE_SPEED, DEFAULT_REVERSE_SPEED)
  }

  predicate IsReverseWrite(e: Event)
  {
    e.DigitalWrite? && e.level == High
  }

  /** One pass of the wait loop: the `millis()` value its condition reads,
      and the rear reading `isRearPathClear()` takes if the body runs. */
  datatype Poll = Poll(now: UInt32, rearReading: Int32)

  /** Where `performReverse()` is: it refused to start, is inside the wait
      loop (started at `start`), returned after the rear became blocked, or
      left the loop on timeout and steered forward. */
  datatype Phase = Refused | Reversing(start: UInt32) | Aborted | Completed

  datatype Outcome = Outcome(phase: Phase, trace: seq<Event>)

  /** The entry check, and the first `millis()` reading after it. */
  function Begin(rearReading: Int32, clock: UInt32): Outcome
  {
    if IsRearPathClear(rearReading) then Outcome(Reversing(clock), StartReverse())
    else Outcome(Refused, DisplayErrorEvents(RearBlocked))
  }

  /** One iteration of the wait loop: leave on timeout, return on a blocked
      rear, else keep reversing. A finished manoeuvre reads nothing more. */
  function Step(phase: Phase, poll: Poll): Outcome
  {
    match phase
    case Reversing(start) =>
      if ElapsedMillis(poll.now, start) >= REVERSE_TIMEOUT then Outcome(Completed, SteerForward())
      else if !IsRearPathClear(poll.rearReading) then Outcome(Aborted, [EmergencyStop])
      else Outcome(phase, [])
    case _ => Outcome(phase, [])
  }

  /** Steps `o` through the observations in order, appending their output.
      The loop only ever appends, and never writes a direction pin HIGH. */
  function Run(o: Outcome, polls: seq<Poll>): (r: Outcome)
    ensures |o.trace| <= |r.trace| && r.trace[..|o.trace|] == o.trace
    ensures forall k | |o.trace| <= k < |r.trace| :: !IsReverseWrite(r.trace[k])
    ensures !o.phase.Reversing? ==> r == o
    decreases |polls|
  {
    if polls == [] then o
    else
      var s := Step(o.phase, polls[0]);
      Run(Outcome(s.phase, o.trace + s.trace), polls[1..])
  }

  /** `performReverse()`, given the entry clearance check, the `millis()`
      reading that follows it, and the observations of the wait loop. */
  function PerformReverse(rearReading: Int32, clock: UInt32, polls: seq<Poll>): Outcome
  {
    Run(Begin(rearReading, clock), polls)
  }

  /** A wait-loop pass that changes nothing: before the timeout, rear clear. */
  predicate Quiet(poll: Poll, start: UInt32)
  {
    ElapsedMillis(poll.now, start) < REVERSE_TIMEOUT && IsRearPathClear(poll.rearReading)
  }

  /** The index of the first observation that ends the wait loop, or
      `|polls|` if none does. */
  function FirstDecisive(polls: seq<Poll>, start: UInt32): (k: nat)
    ensures k <= |polls|
    ensures forall j | 0 <= j < k :: Quiet(polls[j], start)
    ensures k < |polls| ==> !Quiet(polls[k], start)
    decreases |polls|
  {
    if polls == [] || !Quiet(polls[0], start) then 0
    else 1 + FirstDecisive(polls[1..], start)
  }

  /** What `performReverse()` does, stated directly: report a motor fault
      (and so stop) on a rear reading of 30 cm or less; otherwise reverse,
      then decided by the first observation that is not quiet. */
  function Reference(rearReading: Int32, clock: UInt32, polls: seq<Poll>): Outcome
  {
    if rearReading <= 30 then Outcome(Refused, [Reported(RearBlocked), EmergencyStop])
    else
      var k := FirstDecisive(polls, clock);
      if k == |polls| then Outcome(Reversing(clock), StartReverse())
      else if ElapsedMillis(polls[k].now, clock) >= REVERSE_TIMEOUT then
        Outcome(Completed, StartReverse() + SteerForward())
      else Outcome(Aborted, StartReverse() + [EmergencyStop])
  }

  lemma {:induction false} RunFromReversing(start: UInt32, trace: seq<Event>, polls: seq<Poll>)
    ensures var k := FirstDecisive(polls, start);
      Run(Outcome(Reversing(start), trace), polls) ==
        if k == |polls| then Outcome(Reversing(start), trace)
        else if ElapsedMillis(polls[k].now, start) >= REVERSE_TIMEOUT then
          Outcome(Completed, trace + SteerForward())
        else Outcome(Aborted, trace + [EmergencyStop])
    decreases |polls|
  {
    if polls != [] {
      if Quiet(polls[0], start) {
        assert trace + [] == trace;
        RunFromReversing(start, trace, polls[1..]);
      }
    }
  }

  /** The step function and the direct statement agree on every input. */
  lemma PerformReverseMatchesReference(rearReading: Int32, clock: UInt32, polls: seq<Poll>)
    ensures PerformReverse(rearReading, clock, polls) == Reference(rearReading, clock, polls)
  {
    if IsRearPathClear(rearReading) {
      RunFromReversing(clock, StartReverse(), polls);
    }
  }

  /** A rear reading of 30 cm or less at entry (a timed-out -1 included):
      a motor fault is reported, its recovery calls `emergencyStop()`, and
      no direction pin or PWM pin is written. */
  lemma RearBlockedAtEntry(rearReading: Int32, clock: UInt32, polls: seq<Poll>)
    requires rearReading <= REAR_CLEARANCE
    ensures PerformReverse(rearReading, clock, polls) ==
      Outcome(Refused, [Reported(Report(MotorError, "Rear path blocked.")), EmergencyStop])
  {
  }

  /** A rear reading above 30 cm at entry: the first outputs are reverse
      direction on both wheels and the reverse speed on both wheels. */
  lemma ReverseStartsWithDirectionAndSpeed(rearReading: Int32, clock: UInt32, polls: seq<Poll>)
    requires rearReading > REAR_CLEARANCE
    ensures var t := PerformReverse(rearReading, clock, polls).trace;
      |t| >= 4 && t[..4] == [ DigitalWrite(DIRECTION_PIN_LEFT, High), DigitalWrite(DIRECTION_PIN_RIGHT, High),
                              AnalogWrite(PWM_PIN_LEFT, DEFAULT_REVERSE_SPEED), AnalogWrite(PWM_PIN_RIGHT, DEFAULT_REVERSE_SPEED) ]
  {
  }

  /** The rear reading dropping to 30 cm or less before the timeout:
      `emergencyStop()` is called and the procedure returns without
      steering forward and without another PWM write. */
  lemma BlockedMidReverseStops(rearReading: Int32, clock: UInt32, polls: seq<Poll>, i: nat)
    requires rearReading > REAR_CLEARANCE
    requires i < |polls|
    requires forall j | 0 <= j < i :: Quiet(polls[j], clock)
    requires ElapsedMillis(polls[i].now, clock) < REVERSE_TIMEOUT && polls[i].rearReading <= REAR_CLEARANCE
    ensures PerformReverse(rearReading, clock, polls) == Outcome(Aborted, StartReverse() + [EmergencyStop])
  {
    PerformReverseMatchesReference(rearReading, clock, polls);
  }

  /** The rear staying clear until `millis() - startTime` (unsigned)
      reaches the timeout: `steerForward()` sets both direction pins LOW. */
  lemma TimeoutRestoresForward(rearReading: Int32, clock: UInt32, polls: seq<Poll>, i: nat)
    requires rearReading > REAR_CLEARANCE
    requires i < |polls|
    requires forall j | 0 <= j < i :: Quiet(polls[j], clock)
    requires ElapsedMillis(polls[i].now, clock) >= REVERSE_TIMEOUT
    ensures PerformReverse(rearReading, clock, polls) == Outcome(Completed,
      StartReverse() + [DigitalWrite(DIRECTION_PIN_LEFT, Low), DigitalWrite(DIRECTION_PIN_RIGHT, Low)])
  {
    PerformReverseMatchesReference(rearReading, clock, polls);
  }

  /** `emergencyStop()` is called exactly when the entry check fails or a
      later check before the timeout fails while every earlier one passed. */
  lemma EmergencyStopOnlyOnBlockedRear(rearReading: Int32, clock: UInt32, polls: seq<Poll>)
    ensures EmergencyStop in PerformReverse(rearReading, clock, polls).trace <==>
      || rearReading <= REAR_CLEARANCE
      || exists i | 0 <= i < |polls| ::
        && (forall j | 0 <= j < i :: Quiet(polls[j], clock))
        && ElapsedMillis(polls[i].now, clock) < REVERSE_TIMEOUT && polls[i].rearReading <= REAR_CLEARANCE
  {
    PerformReverseMatchesReference(rearReading, clock, polls);
    if IsRearPathClear(rearReading) {
      var k := FirstDecisive(polls, clock);
      if exists i | 0 <= i < |polls| ::
        && (forall j | 0 <= j < i :: Quiet(polls[j], clock))
        && ElapsedMillis(polls[i].now, clock) < REVERSE_TIMEOUT && polls[i].rearReading <= REAR_CLEARANCE
      {
        var i :| 0 <= i < |polls|
          && (forall j | 0 <= j < i :: Quiet(polls[j], clock))
          && ElapsedMillis(polls[i].now, clock) < REVERSE_TIMEOUT && polls[i].rearReading <= REAR_CLEARANCE;
        assert k == i;
      }
    }
  }

  /** Reverse direction is only ever written right after an
      `isRearPathClear()` that returned true: as the first two outputs of a
      manoeuvre whose entry reading exceeded 30 cm, and never again. */
  lemma ReverseOnlyAfterClearCheck(rearReading: Int32, clock: UInt32, polls: seq<Poll>, k: nat)
    requires k < |PerformReverse(rearReading, clock, polls).trace|
    requires IsReverseWrite(PerformReverse(rearReading, clock, polls).trace[k])
    ensures rearReading > REAR_CLEARANCE && k < 2
  {
    var b := Begin(rearReading, clock);
    assert PerformReverse(rearReading, clock, polls).trace[..|b.trace|] == b.trace;
    if k < |b.trace| {
      assert b.trace[k] == PerformReverse(rearReading, clock, polls).trace[k];
    }
  }

  /** Handing the refusal's report to the fault ledger at time `now`
      records "Rear path blocked." with that timestamp and calls
      `emergencyStop()` once, whatever the ledger held before. */
  lemma RefusalRecordsMotorFault(rearReading: Int32, clock: UInt32, polls: seq<Poll>, h: Handler, now: UInt32)
    requires rearReading <= REAR_CLEARANCE
    ensures var t := PerformReverse(rearReading, clock, polls).trace;
      && t[0].Reported?
      && Replay(h, [Display(t[0].report, now)]) == Replayed(Handler(true, "Rear path blocked.", now), 1)
  {
    RearBlockedAtEntry(rearReading, clock, polls);
  }

  /** The sketch also defines `isRearPathClear()` in `hoverkart/Sensors.h`,
      on the FRONT ranger. Fed that reading, the manoeuvre starts exactly
      when the front echo is long enough, whatever the rear echo: an
      obstacle 10 cm behind with 85 cm clear ahead still starts a reverse. */
  lemma SensorsDefinitionGatesOnFront(echoes: Sensors.Echoes, clock: UInt32)
    ensures var front := Sensors.ReadFrontUltrasonic(echoes.front).value;
      && -1 <= front <= Sensors.MAX_ULTRASONIC_DISTANCE
      && IsRearPathClear(front) == Sensors.IsRearPathClearAsWritten(echoes).value
      && (Begin(front, clock).phase == Reversing(clock) <==> Sensors.CLEAR_ECHO <= echoes.front < TWO_31)
    ensures echoes == Sensors.Echoes(5000, 600) ==>
      && Begin(Sensors.ReadFrontUltrasonic(echoes.front).value, clock).phase == Reversing(clock)
      && !Sensors.IsRearPathClear(echoes).value
  {
    Sensors.ClearExactlyFromClearEcho(echoes.front, Sensors.FrontTimeout);
    if echoes == Sensors.Echoes(5000, 600) {
      Sensors.AsWrittenIgnoresRear();
    }
  }
}
