/** Motor control of the root sketch (`MotorControl.h`): a clamped PWM
    write for both wheels, and the reverse manoeuvre. The manoeuvre's busy
    wait is modelled as a state machine stepped once per loop iteration by
    an observation of `millis()` and of the rear clearance check; its
    output is the trace of pin writes. `MotorControl.h` uses MIN_SPEED and MAX_SPEED without defining them;
    the only definitions are those of `PIDControl.h`, used here. */
module MotorControl {
  import opened Arduino
  import opened Events
  import PidControl

  const PWM_PIN_LEFT: int := 32
  const PWM_PIN_RIGHT: int := 33
  const DIRECTION_PIN_LEFT: int := 25
  const DIRECTION_PIN_RIGHT: int := 26

  const DEFAULT_FORWARD_SPEED: Int32 := 1500
  const DEFAULT_REVERSE_SPEED: Int32 := 1000
  const REVERSE_TIMEOUT: UInt32 := 5000

  const MIN_SPEED: Int32 := PidControl.MIN_SPEED
  const MAX_SPEED: Int32 := PidControl.MAX_SPEED

  /** What reaches a PWM pin for a requested speed: the speed itself when
      in [MIN_SPEED, MAX_SPEED], else the nearer bound. */
  predicate ClampedWrite(requested: int, written: int)
  {
    && MIN_SPEED <= written <= MAX_SPEED
    && (MIN_SPEED <= requested <= MAX_SPEED ==> written == requested)
    && (requested < MIN_SPEED ==> written == MIN_SPEED)
    && (requested > MAX_SPEED ==> written == MAX_SPEED)
  }

  /** `setMotorPWM(leftSpeed, rightSpeed)`: one PWM write per wheel. */
  function SetMotorPwm(leftSpeed: Int32, rightSpeed: Int32): (events: seq<Event>)
    ensures |events| == 2
    ensures events[0].AnalogWrite? && events[0].pin == PWM_PIN_LEFT && ClampedWrite(leftSpeed, events[0].value)
    ensures events[1].AnalogWrite? && events[1].pin == PWM_PIN_RIGHT && ClampedWrite(rightSpeed, events[1].value)
  {
    [ AnalogWrite(PWM_PIN_LEFT, Constrain(leftSpeed, MIN_SPEED, MAX_SPEED)),
      AnalogWrite(PWM_PIN_RIGHT, Constrain(rightSpeed, MIN_SPEED, MAX_SPEED)) ]
  }

  /** Feeding back what was written writes the same again: the clamp is
      idempotent. */
  lemma SetMotorPwmIdempotent(leftSpeed: Int32, rightSpeed: Int32)
    ensures var w := SetMotorPwm(leftSpeed, rightSpeed);
      SetMotorPwm(w[0].value, w[1].value) == w
  {
    ConstrainIdempotentMonotone(leftSpeed, leftSpeed, MIN_SPEED, MAX_SPEED);
    ConstrainIdempotentMonotone(rightSpeed, rightSpeed, MIN_SPEED, MAX_SPEED);
  }

  /** The "stop" call `setMotorPWM(0, 0)` writes MIN_SPEED, which is also
      the reverse speed: on the PWM pins a stop and a reverse look alike. */
  lemma StopWritesMinSpeed()
    ensures Stop() == [AnalogWrite(PWM_PIN_LEFT, MIN_SPEED), AnalogWrite(PWM_PIN_RIGHT, MIN_SPEED)]
    ensures Stop() == SetMotorPwm(DEFAULT_REVERSE_SPEED, DEFAULT_REVERSE_SPEED)
  {
  }

  function Stop(): seq<Event>
  {
    SetMotorPwm(0, 0)
  }

  /** `steerForward()`: both direction pins LOW. */
  function SteerForward(): seq<Event>
  {
    [DigitalWrite(DIRECTION_PIN_LEFT, Low), DigitalWrite(DIRECTION_PIN_RIGHT, Low)]
  }

  /** The start of a reverse: both direction pins HIGH, then the reverse
      speed on both wheels. */
  function StartReverse(): seq<Event>
  {
    [DigitalWrite(DIRECTION_PIN_LEFT, High), DigitalWrite(DIRECTION_PIN_RIGHT, High)]
      + SetMotorPwm(DEFAULT_REVERSE_SPEED, DEFAULT_REVERSE_SPEED)
  }

  predicate IsReverseWrite(e: Event)
  {
    e.DigitalWrite? && e.level == High
  }

  /** One pass of the wait loop: the `millis()` value its condition reads,
      and what `isRearPathClear()` (not part of this model) answers if the
      body runs. */
  datatype Poll = Poll(now: UInt32, rearClear: bool)

  /** Where `performReverse()` is: it refused to start, is inside the wait
      loop (started at `start`), returned after the rear became blocked, or
      left the loop on timeout and steered forward. */
  datatype Phase = Refused | Reversing(start: UInt32) | Aborted | Completed

  datatype Outcome = Outcome(phase: Phase, trace: seq<Event>)

  /** The entry check, and the first `millis()` reading after it. */
  function Begin(rearClear: bool, clock: UInt32): Outcome
  {
    if rearClear then Outcome(Reversing(clock), StartReverse())
    else Outcome(Refused, Stop())
  }

  /** One iteration of the wait loop: leave on timeout, return on a blocked
      rear, else keep reversing. A finished manoeuvre reads nothing more. */
  function Step(phase: Phase, poll: Poll): Outcome
  {
    match phase
    case Reversing(start) =>
      if ElapsedMillis(poll.now, start) >= REVERSE_TIMEOUT then Outcome(Completed, SteerForward())
      else if !poll.rearClear then Outcome(Aborted, Stop())
      else Outcome(phase, [])
    case _ => Outcome(phase, [])
  }

  /** Steps `o` through the observations in order, appending their output.
      The loop only ever appends, and never writes a direction pin HIGH. */
  function Run(o: Outcome, polls: seq<Poll>): (r: Outcome)
    ensures |o.trace| <= |r.trace| && r.trace[..|o.trace|] == o.trace
    ensures forall k | |o.trace| <= k < |r.trace| :: !IsReverseWrite(r.trace[k])
    ensures !o.phase.Reversing? ==> r == o
    decreases |polls|
  {
    if polls == [] then o
    else
      var s := Step(o.phase, polls[0]);
      Run(Outcome(s.phase, o.trace + s.trace), polls[1..])
  }

  /** `performReverse()`, given the entry clearance check, the `millis()`
      reading that follows it, and the observations of the wait loop. */
  function PerformReverse(rearClear: bool, clock: UInt32, polls: seq<Poll>): Outcome
  {
    Run(Begin(rearClear, clock), polls)
  }

  /** A wait-loop pass that changes nothing: before the timeout, rear clear. */
  predicate Quiet(poll: Poll, start: UInt32)
  {
    ElapsedMillis(poll.now, start) < REVERSE_TIMEOUT && poll.rearClear
  }

  /** The index of the first observation that ends the wait loop, or
      `|polls|` if none does. */
  function FirstDecisive(polls: seq<Poll>, start: UInt32): (k: nat)
    ensures k <= |polls|
    ensures forall j | 0 <= j < k :: Quiet(polls[j], start)
    ensures k < |polls| ==> !Quiet(polls[k], start)
    decreases |polls|
  {
    if polls == [] || !Quiet(polls[0], start) then 0
    else 1 + FirstDecisive(polls[1..], start)
  }

  /** What `performReverse()` does, stated directly: refuse with a stop on
      a blocked rear; otherwise reverse, then decided by the first
      observation that is not quiet. */
  function Reference(rearClear: bool, clock: UInt32, polls: seq<Poll>): Outcome
  {
    if !rearClear then Outcome(Refused, Stop())
    else
      var k := FirstDecisive(polls, clock);
      if k == |polls| then Outcome(Reversing(clock), StartReverse())
      else if ElapsedMillis(polls[k].now, clock) >= REVERSE_TIMEOUT then
        Outcome(Completed, StartReverse() + SteerForward())
      else Outcome(Aborted, StartReverse() + Stop())
  }

  lemma {:induction false} RunFromReversing(start: UInt32, trace: seq<Event>, polls: seq<Poll>)
    ensures var k := FirstDecisive(polls, start);
      Run(Outcome(Reversing(start), trace), polls) ==
        if k == |polls| then Outcome(Reversing(start), trace)
        else if ElapsedMillis(polls[k].now, start) >= REVERSE_TIMEOUT then
          Outcome(Completed, trace + SteerForward())
        else Outcome(Aborted, trace + Stop())
    decreases |polls|
  {
    if polls != [] {
      if Quiet(polls[0], start) {
        assert trace + [] == trace;
        RunFromReversing(start, trace, polls[1..]);
      }
    }
  }

  /** The step function and the direct statement agree on every input. */
  lemma PerformReverseMatchesReference(rearClear: bool, clock: UInt32, polls: seq<Poll>)
    ensures PerformReverse(rearClear, clock, polls) == Reference(rearClear, clock, polls)
  {
    if rearClear {
      RunFromReversing(clock, StartReverse(), polls);
    }
  }

  /** A blocked rear at entry: no direction pin is touched, only the stop
      is written, and it writes MIN_SPEED to both wheels. */
  lemma RearBlockedAtEntry(clock: UInt32, polls: seq<Poll>)
    ensures PerformReverse(false, clock, polls) ==
      Outcome(Refused, [AnalogWrite(PWM_PIN_LEFT, MIN_SPEED), AnalogWrite(PWM_PIN_RIGHT, MIN_SPEED)])
  {
  }

  /** A clear rear at entry: the first outputs are reverse direction on
      both wheels and the reverse speed on both wheels, unclamped. */
  lemma ReverseStartsWithDirectionAndSpeed(clock: UInt32, polls: seq<Poll>)
    ensures var t := PerformReverse(true, clock, polls).trace;
      |t| >= 4 && t[..4] == [ DigitalWrite(DIRECTION_PIN_LEFT, High), DigitalWrite(DIRECTION_PIN_RIGHT, High),
                              AnalogWrite(PWM_PIN_LEFT, DEFAULT_REVERSE_SPEED), AnalogWrite(PWM_PIN_RIGHT, DEFAULT_REVERSE_SPEED) ]
  {
  }

  /** The rear blocking before the timeout: a stop, and the procedure
      returns with the direction pins still HIGH. */
  lemma BlockedMidReverseStops(clock: UInt32, polls: seq<Poll>, i: nat)
    requires i < |polls|
    requires forall j | 0 <= j < i :: Quiet(polls[j], clock)
    requires ElapsedMillis(polls[i].now, clock) < REVERSE_TIMEOUT && !polls[i].rearClear
    ensures PerformReverse(true, clock, polls) == Outcome(Aborted, StartReverse() + Stop())
  {
    PerformReverseMatchesReference(true, clock, polls);
  }

  /** The rear staying clear until `millis() - startTime` (unsigned)
      reaches the timeout: the direction is restored to forward. */
  lemma TimeoutRestoresForward(clock: UInt32, polls: seq<Poll>, i: nat)
    requires i < |polls|
    requires forall j | 0 <= j < i :: Quiet(polls[j], clock)
    requires ElapsedMillis(polls[i].now, clock) >= REVERSE_TIMEOUT
    ensures PerformReverse(true, clock, polls) == Outcome(Completed, StartReverse() + SteerForward())
  {
    PerformReverseMatchesReference(true, clock, polls);
  }

  /** The manoeuvre ends aborted exactly when some observation before the
      timeout saw the rear blocked while every earlier one was quiet. */
  lemma AbortedOnlyOnBlockedRear(rearClear: bool, clock: UInt32, polls: seq<Poll>)
    ensures PerformReverse(rearClear, clock, polls).phase == Aborted <==>
      rearClear && exists i | 0 <= i < |polls| ::
        && (forall j | 0 <= j < i :: Quiet(polls[j], clock))
        && ElapsedMillis(polls[i].now, clock) < REVERSE_TIMEOUT && !polls[i].rearClear
  {
    PerformReverseMatchesReference(rearClear, clock, polls);
    if rearClear {
      var k := FirstDecisive(polls, clock);
      if exists i | 0 <= i < |polls| ::
        && (forall j | 0 <= j < i :: Quiet(polls[j], clock))
        && ElapsedMillis(polls[i].now, clock) < REVERSE_TIMEOUT && !polls[i].rearClear
      {
        var i :| 0 <= i < |polls|
          && (forall j | 0 <= j < i :: Quiet(polls[j], clock))
          && ElapsedMillis(polls[i].now, clock) < REVERSE_TIMEOUT && !polls[i].rearClear;
        assert k == i;
      }
    }
  }

  /** Reverse direction is only ever written right after the entry check
      found the rear clear: as the first two outputs, and never again. */
  lemma ReverseOnlyAfterClearCheck(rearClear: bool, clock: UInt32, polls: seq<Poll>, k: nat)
    requires k < |PerformReverse(rearClear, clock, polls).trace|
    requires IsReverseWrite(PerformReverse(rearClear, clock, polls).trace[k])
    ensures rearClear && k < 2
  {
    var b := Begin(rearClear, clock);
    assert PerformReverse(rearClear, clock, polls).trace[..|b.trace|] == b.trace;
    if k < |b.trace| {
      assert b.trace[k] == PerformReverse(rearClear, clock, polls).trace[k];
    }
  }
}
