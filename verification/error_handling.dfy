/** The firmware's fault ledger (`ErrorHandler`): a single slot holding the
    most recent fault message and the `millis()` time it was raised, a
    recovery action chosen by fault kind, and an automatic clear once the
    fault is older than `ERROR_TIMEOUT`. The handler is a value here; each
    operation returns the next one. */
module ErrorHandling {
  import opened Arduino

  /** The firmware's `ErrorType` enumeration. */
  datatype ErrorKind = SensorError | MotorError | BluetoothError | LidarError | GeneralError

  /** One call of `displayError(kind, message)`. */
  datatype Report = Report(kind: ErrorKind, message: string)

  /** A value paired with the fault reports raised while computing it,
      in the order they were raised. */
  datatype Logged<T> = Logged(value: T, reports: seq<Report>)

  /** What `handleRecovery` does: call `emergencyStop()` or only log.
      `emergencyStop()` itself only prints; no PWM pin changes. */
  datatype Recovery = CallEmergencyStop | GeneralRecovery

  /** Dwell time after which an active fault is cleared. */
  const ERROR_TIMEOUT: UInt32 := 5000

  datatype Handler = Handler(errorOccurred: bool, lastError: string, errorTimestamp: UInt32)

  /** The state the constructor sets up: no fault, empty message, time 0. */
  const Initial: Handler := Handler(false, "", 0)

  function HasErrorOccurred(h: Handler): bool
  {
    h.errorOccurred
  }

  /** `handleRecovery(kind)`: only a motor fault calls `emergencyStop()`. */
  function HandleRecovery(kind: ErrorKind): (action: Recovery)
    ensures action == CallEmergencyStop <==> kind == MotorError
  {
    match kind
    case MotorError => CallEmergencyStop
    case _ => GeneralRecovery
  }

  datatype Displayed = Displayed(handler: Handler, recovery: Recovery)

  /** `displayError(kind, message)` called when `millis()` reads `now`. */
  function DisplayError(h: Handler, report: Report, now: UInt32): (d: Displayed)
    ensures HasErrorOccurred(d.handler)
    ensures d.handler.lastError == report.message && d.handler.errorTimestamp == now
    ensures d.recovery == CallEmergencyStop <==> report.kind == MotorError
  {
    Displayed(Handler(true, report.message, now), HandleRecovery(report.kind))
  }

  /** Whether a fault raised at `stamp` has outlived its dwell time at
      `now`, measured with `unsigned long` subtraction. */
  predicate Expired(now: UInt32, stamp: UInt32)
  {
    ElapsedMillis(now, stamp) > ERROR_TIMEOUT
  }

  /** `handleErrors()` called when `millis()` reads `now`. */
  function HandleErrors(h: Handler, now: UInt32): (h': Handler)
    ensures h'.lastError == h.lastError && h'.errorTimestamp == h.errorTimestamp
    ensures HasErrorOccurred(h') <==> HasErrorOccurred(h) && !Expired(now, h.errorTimestamp)
  {
    if h.errorOccurred && ElapsedMillis(now, h.errorTimestamp) > ERROR_TIMEOUT then
      h.(errorOccurred := false)
    else
      h
  }

  /** The record a report leaves behind does not depend on what was there
      before: the last write wins, whatever the kinds involved. */
  lemma LastWriteWins(h: Handler, first: Report, t1: UInt32, second: Report, t2: UInt32)
    ensures DisplayError(DisplayError(h, first, t1).handler, second, t2) == DisplayError(Initial, second, t2)
  {
  }

  /** Expiry is strict: a fault is still active exactly `ERROR_TIMEOUT`
      milliseconds after it was raised and cleared one millisecond later,
      also when the millisecond counter wraps in between. */
  lemma ExpiryIsStrict(report: Report, stamp: UInt32)
    ensures var h := DisplayError(Initial, report, stamp).handler;
      && HasErrorOccurred(HandleErrors(h, (stamp + 5000) % TWO_32))
      && !HasErrorOccurred(HandleErrors(h, (stamp + 5001) % TWO_32))
  {
  }

  /** Once cleared, further `handleErrors()` calls change nothing; at a
      fixed time a second call never changes the outcome of the first. */
  lemma HandleErrorsIdempotent(h: Handler, now: UInt32, later: UInt32)
    ensures HandleErrors(HandleErrors(h, now), now) == HandleErrors(h, now)
    ensures !HasErrorOccurred(HandleErrors(h, now)) ==>
      HandleErrors(HandleErrors(h, now), later) == HandleErrors(h, now)
  {
  }

  /** One call into the handler: a fault report, or the periodic tick. */
  datatype Call = Display(report: Report, at: UInt32) | Tick(at: UInt32)

  datatype Replayed = Replayed(handler: Handler, stops: nat)

  /** The handler after a sequence of calls, and how many times those calls
      invoked `emergencyStop()`. */
  function Replay(h: Handler, calls: seq<Call>): Replayed
    decreases |calls|
  {
    if calls == [] then Replayed(h, 0)
    else match calls[0]
      case Display(report, at) =>
        var d := DisplayError(h, report, at);
        var rest := Replay(d.handler, calls[1..]);
        Replayed(rest.handler, rest.stops + (if d.recovery == CallEmergencyStop then 1 else 0))
      case Tick(at) =>
        Replay(HandleErrors(h, at), calls[1..])
  }

  predicate IsMotorReport(c: Call)
  {
    c.Display? && c.report.kind == MotorError
  }

  /** The number of motor fault reports among `calls`, counted from the
      most recent call backwards. */
  function MotorReports(calls: seq<Call>): nat
  {
    if calls == [] then 0
    else MotorReports(calls[..|calls| - 1]) + (if IsMotorReport(calls[|calls| - 1]) then 1 else 0)
  }

  lemma {:induction false} MotorReportsCons(c: Call, calls: seq<Call>)
    ensures MotorReports([c] + calls) == MotorReports(calls) + (if IsMotorReport(c) then 1 else 0)
    decreases |calls|
  {
    if calls != [] {
      var n := |calls|;
      assert ([c] + calls)[..n] == [c] + calls[..n - 1];
      MotorReportsCons(c, calls[..n - 1]);
    }
  }

  /** Every motor fault report invokes `emergencyStop()` exactly once, and
      nothing else does: not other kinds, and never a tick, however many
      follow an expiry. */
  lemma {:induction false} StopsCountMotorReports(h: Handler, calls: seq<Call>)
    ensures Replay(h, calls).stops == MotorReports(calls)
    decreases |calls|
  {
    if calls != [] {
      assert calls == [calls[0]] + calls[1..];
      MotorReportsCons(calls[0], calls[1..]);
      match calls[0]
      case Display(report, at) =>
        StopsCountMotorReports(DisplayError(h, report, at).handler, calls[1..]);
      case Tick(at) =>
        StopsCountMotorReports(HandleErrors(h, at), calls[1..]);
    }
  }

  /** After any sequence of calls the record holds the message and time of
      the last report, whatever its kind and whatever came before it. */
  lemma {:induction false} ReplayKeepsLastReport(h: Handler, calls: seq<Call>, i: nat)
    requires i < |calls| && calls[i].Display?
    requires forall j | i < j < |calls| :: calls[j].Tick?
    ensures Replay(h, calls).handler.lastError == calls[i].report.message
    ensures Replay(h, calls).handler.errorTimestamp == calls[i].at
    decreases |calls|
  {
    if i == 0 {
      var d := DisplayError(h, calls[0].report, calls[0].at);
      TicksKeepRecord(d.handler, calls[1..]);
    } else {
      match calls[0]
      case Display(report, at) =>
        ReplayKeepsLastReport(DisplayError(h, report, at).handler, calls[1..], i - 1);
      case Tick(at) =>
        ReplayKeepsLastReport(HandleErrors(h, at), calls[1..], i - 1);
    }
  }

  /** Ticks keep the message and timestamp and can only lower the flag. */
  lemma {:induction false} TicksKeepRecord(h: Handler, calls: seq<Call>)
    requires forall j | 0 <= j < |calls| :: calls[j].Tick?
    ensures Replay(h, calls).handler.lastError == h.lastError
    ensures Replay(h, calls).handler.errorTimestamp == h.errorTimestamp
    ensures HasErrorOccurred(Replay(h, calls).handler) ==> HasErrorOccurred(h)
    ensures Replay(h, calls).stops == 0
    decreases |calls|
  {
    if calls != [] {
      TicksKeepRecord(HandleErrors(h, calls[0].at), calls[1..]);
    }
  }

  /** A freshly constructed handler reports no fault, and ticks alone keep
      it that way without ever calling `emergencyStop()`. */
  lemma TicksFromInitialStayIdle(calls: seq<Call>)
    requires forall j | 0 <= j < |calls| :: calls[j].Tick?
    ensures !HasErrorOccurred(Replay(Initial, calls).handler)
    ensures Replay(Initial, calls) == Replayed(Initial, 0)
  {
    TicksKeepRecord(Initial, calls);
  }
}
