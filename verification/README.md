# HoverKart control core in Dafny

A model of the control core of the HoverKart ESP32 firmware. The model covers three pieces:

- The speed law maps the distance to the tracked phone onto a motor command (`calculateSpeed`).
- The actuator clamp and the reverse manoeuvre (`setMotorPWM`, `performReverse`, `steerForward`, `isRearPathClear`).
- Sensor validation (front ultrasonic ranger, I2C LiDAR) and the single-slot fault ledger `ErrorHandler`.

The repository carries two snapshots of the firmware. One is the root sketch (`PIDControl.h`, `MotorControl.h`). The other is the `hoverkart/` sketch. Their speed laws and manoeuvres differ in their failure paths, so each snapshot has its own module.

Hardware is an input or an output:

- Inputs are `millis()` readings, `pulseIn` results, LiDAR reply bytes, and rear clearance answers or readings.
- Outputs form an ordered trace of `Events.Event`: digital and PWM pin writes, fault reports, and `emergencyStop()` calls.

The busy-wait loop of `performReverse` becomes a step function. Each step consumes one observation: the `millis()` value that the loop condition reads, and the rear check that the loop body makes. `Run` folds the steps over a finite sequence of observations.

Modules:

- `Arduino`: the ESP32 integer widths (`Int32`, `UInt32`), and the `unsigned long` elapsed time `now - start` with its wrap-around.
- `Arduino` also holds what the code relies on from outside it: the Arduino core routines `constrain` and `map`, which follow the core's documented formulas, and the C++ integer operators truncating `/`, `<<` and `|`. The Arduino core's source is not part of this model.
- `ErrorHandling`: `ErrorHandler` as an immutable `Handler` value, and `Replay` over a sequence of `displayError` and `handleErrors` calls.
- `Events`: the output trace, and the events of one `displayError` call.
- `PidControl` and `HoverkartPidControl`: `calculateSpeed`, both as intended and as evaluated on 32-bit `long`.
- `MotorControl` and `HoverkartMotorControl`: `setMotorPWM`, `steerForward` and the reverse manoeuvre. The root module reads its speed bounds from `PidControl`, as the root sketch does. The hoverkart module declares its own bounds, as `hoverkart/MotorControl.h` does.
- `Sensors`: `readFrontUltrasonic`, `isRearPathClear` and `readLidarDistance` of `hoverkart/Sensors.h`.

Notes on behaviour:

- The PID objects are never consulted. The command depends only on the distance.
- Blocked paths behave differently in the two snapshots:
  - When the rear is blocked at entry, the root sketch only writes the stop PWM. It raises no fault and enters no emergency state.
  - Mid-reverse, the root sketch writes the stop PWM. The hoverkart sketch calls `emergencyStop()`.
  - `emergencyStop()` only prints, so no PWM changes.
- The stop call `setMotorPWM(0, 0)` is clamped to `MIN_SPEED`, which is 1000. That equals `DEFAULT_REVERSE_SPEED` (`MotorControl.StopWritesMinSpeed`). After the mid-reverse stop the direction pins stay HIGH (`MotorControl.BlockedMidReverseStops`).
- LiDAR faults are reported as `SENSOR_ERROR`, not `LIDAR_ERROR`. The fault kinds are those of the code's `ErrorType`.

## Model

| member | source | states |
|---|---|---|
| PidControl.CalculateSpeed | PIDControl.h:35-44 | The command always lies in [1000, 2000]. A negative distance gives exactly MIN_SPEED. From 0 to 100 cm it is MIN_SPEED, and from 300 cm on it is MAX_SPEED. In between it is 1000 + 5·(d − 100), so 200 cm gives 1500. |
| PidControl.MapIsLinear | PIDControl.h:42 | `map(d, 100, 300, 1000, 2000)` with truncating division is exactly 1000 + 5·(d − 100) for every d: nothing is truncated. |
| PidControl.CalculateSpeedMonotone | PIDControl.h:37-43 | A farther phone never gives a lower command, over all 32-bit inputs, negative ones included. |
| PidControl.CalculateSpeedAsWritten | PIDControl.h:42-43 | With `map` evaluated on 32-bit `long`, the result is still within [MIN_SPEED, MAX_SPEED]. A negative distance still gives MIN_SPEED. |
| PidControl.AsWrittenAgreesBelowOverflow | PIDControl.h:42-43 | For every distance below 2147584 cm, the 32-bit evaluation equals the intended command. |
| PidControl.AsWrittenOverflowBreaksMonotonicity | PIDControl.h:42 | The 32-bit evaluation gives MAX_SPEED at 300 cm but MIN_SPEED at 2147584 cm, where the intended command is MAX_SPEED. |
| PidControl.AsWrittenWrapRepeats | PIDControl.h:42 | The 32-bit evaluation is MIN_SPEED only up to 4295067 cm. At 4295068 cm the wrapped product is positive again and the command is 1003, and by 4295500 cm it is MAX_SPEED again. |
| HoverkartPidControl.CalculateSpeed | hoverkart/PIDControl.h:22-30 | A negative distance gives MIN_SPEED and exactly one GENERAL_ERROR report, "Invalid distance to phone.". A non-negative distance raises no report, and its command equals the root sketch's `calculateSpeed`. The command is always within [1000, 2000]. |
| HoverkartPidControl.CalculateSpeedShape | hoverkart/PIDControl.h:28-29 | For d ≥ 0 the command is non-decreasing. It saturates at MIN_SPEED up to 100 cm and at MAX_SPEED from 300 cm on. Only negative inputs report. |
| HoverkartPidControl.CalculateSpeedAsWritten | hoverkart/PIDControl.h:28-29 | The 32-bit evaluation stays within bounds. It reports exactly for negative input. For other inputs it agrees with the root sketch's 32-bit evaluation. |
| HoverkartPidControl.AsWrittenOverflowBreaksMonotonicity | hoverkart/PIDControl.h:28 | The 32-bit evaluation answers the valid distance 2147584 with MIN_SPEED and no report. The intended command is MAX_SPEED. |
| MotorControl.SetMotorPwm | MotorControl.h:40-45 | Exactly two PWM writes: left pin 32, then right pin 33. Each is within [MIN_SPEED, MAX_SPEED]. An in-range request passes unchanged, and an out-of-range one gets the nearer bound. |
| MotorControl.SetMotorPwmIdempotent | MotorControl.h:41-42 | Re-issuing the written values writes the same values again: the clamp is idempotent. |
| MotorControl.StopWritesMinSpeed | MotorControl.h:58 | The stop call `setMotorPWM(0, 0)` writes MIN_SPEED to both wheels. That is identical to the reverse-speed write. |
| MotorControl.Run | MotorControl.h:56-61 | The wait loop only appends to the trace. It never writes a direction pin HIGH. Once the manoeuvre has finished, further observations change nothing. |
| MotorControl.PerformReverseMatchesReference | MotorControl.h:50-66 | For every input, the step-function model equals a direct statement. A blocked rear at entry gives a stop and nothing else. Otherwise the outputs are the reverse start, then the outcome of the first observation that is past the timeout or sees the rear blocked. Past the timeout, that outcome is steer forward. With the rear blocked, it is a stop. With no such observation, the manoeuvre is still reversing. |
| MotorControl.RearBlockedAtEntry | MotorControl.h:63-65 | A blocked rear at entry emits only PWM MIN_SPEED on both wheels and writes no direction pin. |
| MotorControl.ReverseStartsWithDirectionAndSpeed | MotorControl.h:51-54 | A clear rear at entry emits four outputs before anything else: both direction pins HIGH, then DEFAULT_REVERSE_SPEED on both wheels. |
| MotorControl.BlockedMidReverseStops | MotorControl.h:56-60 | If the rear is first seen blocked before the 5000 ms timeout, the trace ends with the stop. No forward direction is restored. |
| MotorControl.TimeoutRestoresForward | MotorControl.h:55-62 | If the rear stays clear until `millis() - startTime` (unsigned) reaches 5000, the trace ends with both direction pins LOW. |
| MotorControl.AbortedOnlyOnBlockedRear | MotorControl.h:56-60 | The manoeuvre ends aborted exactly when the entry check passed and some observation before the timeout saw the rear blocked, after only quiet ones. Both directions hold. |
| MotorControl.ReverseOnlyAfterClearCheck | MotorControl.h:51-53 | A HIGH direction write occurs only as one of the first two outputs, and only when the entry check found the rear clear. |
| HoverkartMotorControl.SetMotorPwm | hoverkart/MotorControl.h:29-34 | Both PWM writes are clamped into [1000, 2000]. In-range values pass unchanged. |
| HoverkartMotorControl.SetMotorPwmIdempotent | hoverkart/MotorControl.h:30-31 | Re-issuing the written values writes the same values again. |
| HoverkartMotorControl.ReverseSpeedUnclamped | hoverkart/MotorControl.h:10-12 | DEFAULT_REVERSE_SPEED is within the bounds, so the clamp leaves it unchanged. |
| HoverkartMotorControl.IsRearPathClear | hoverkart/MotorControl.h:55-58 | Clear needs a positive reading. A -1 timeout reading is never clear. |
| HoverkartMotorControl.Run | hoverkart/MotorControl.h:43-48 | The wait loop only appends to the trace and never writes a direction pin HIGH. A finished manoeuvre ignores further observations. |
| HoverkartMotorControl.PerformReverseMatchesReference | hoverkart/MotorControl.h:36-53 | For every input, the step-function model equals a direct statement. A rear reading of 30 cm or less at entry gives the motor-fault report followed by `emergencyStop()`. Otherwise the outputs are the reverse start, then the outcome of the first observation that is past the timeout or reads 30 cm or less. That outcome is steer forward or `emergencyStop()`. |
| HoverkartMotorControl.RearBlockedAtEntry | hoverkart/MotorControl.h:50-52 | A blocked rear at entry reports MOTOR_ERROR "Rear path blocked.", and its recovery calls `emergencyStop()`. No direction or PWM pin is written. |
| HoverkartMotorControl.ReverseStartsWithDirectionAndSpeed | hoverkart/MotorControl.h:37-40 | A rear reading above 30 cm emits both direction pins HIGH, then DEFAULT_REVERSE_SPEED on both wheels, before anything else. |
| HoverkartMotorControl.BlockedMidReverseStops | hoverkart/MotorControl.h:43-47 | A rear reading of 30 cm or less before the timeout ends the trace with `emergencyStop()`. There is no `steerForward` and no further PWM write. |
| HoverkartMotorControl.TimeoutRestoresForward | hoverkart/MotorControl.h:42-49 | If the rear stays clear until the unsigned elapsed time reaches 5000, `steerForward` sets both direction pins LOW. |
| HoverkartMotorControl.EmergencyStopOnlyOnBlockedRear | hoverkart/MotorControl.h:36-53 | `emergencyStop()` appears in the trace exactly when one of two things happens. Either the entry reading was 30 cm or less, or a reading before the timeout was 30 cm or less after only clear ones. |
| HoverkartMotorControl.ReverseOnlyAfterClearCheck | hoverkart/MotorControl.h:37-40 | A HIGH direction write occurs only as one of the first two outputs, and only after an entry reading above 30 cm. |
| HoverkartMotorControl.RefusalRecordsMotorFault | hoverkart/MotorControl.h:51 | When the refusal's report reaches the fault ledger, the ledger holds "Rear path blocked." with that call's time, and `emergencyStop()` is called exactly once. |
| Sensors.EchoToCm | hoverkart/Sensors.h:48 | The distance is the whole number of centimetres in duration × 0.017, rounded toward zero. |
| Sensors.ReadUltrasonic | hoverkart/Sensors.h:41-49 | The result is -1 exactly on a timeout (echo 0), and only then is the timeout reported. Any other result lies in [0, 400]: the converted distance, or 400 beyond range. A pulse too long for a signed `long` reads 0. Every pulse up to the `pulseIn` timeout (23200 µs) converts without hitting the clamp. |
| Sensors.ReadFrontUltrasonic | hoverkart/Sensors.h:34-50 | The front read gives -1 exactly when it reports "Front ultrasonic sensor timeout.". |
| Sensors.ReadUltrasonicMonotone | hoverkart/Sensors.h:48-49 | For echoes a signed `long` holds (below 2^31 µs), a longer echo never reads as a shorter distance, and a timeout (-1) reads below every echo. |
| Sensors.ClearExactlyFromClearEcho | hoverkart/Sensors.h:48-54 | A reading exceeds MIN_SAFE_DISTANCE (30) exactly when the echo is between 1824 µs and 2^31 µs. A timeout is never clear. |
| Sensors.IsRearPathClearAsWritten | hoverkart/Sensors.h:52-54 | The written check is clear exactly when the FRONT echo is at least 1824 µs and below 2^31 µs. The rear echo plays no part. |
| Sensors.IsRearPathClear | hoverkart/Sensors.h:52-54 | The intended check is clear exactly when the REAR echo is at least 1824 µs and below 2^31 µs. A rear timeout is never clear. |
| Sensors.AsWrittenIgnoresRear | hoverkart/Sensors.h:52-54 | Take an obstacle 10 cm behind the kart and open road ahead. The written check reports the rear clear, and the intended check does not. |
| Arduino.BitOrShiftedIsSum | hoverkart/Sensors.h:63 | Or-ing a value below 2^n into one shifted left by n adds the two. So `hi << 8` or-ed with `lo` is hi·256 + lo. |
| Sensors.DecodeDistance | hoverkart/Sensors.h:63 | The two reply bytes decode big-endian to hi·256 + lo. |
| Sensors.DistanceCodecRoundTrip | hoverkart/Sensors.h:61-63 | Decoding inverts the LiDAR's two-byte encoding in both directions. |
| Sensors.ReadLidarDistance | hoverkart/Sensors.h:56-72 | The result is -1 or in [1, 1200]. A reply that is not 2 bytes gives -1 with "LiDAR read failed.". A decoded 0 or value above 1200 gives -1 with "LiDAR invalid distance.". Otherwise the result is the decoded distance, with no report. |
| Sensors.LidarReadsBackEncoded | hoverkart/Sensors.h:61-68 | Every distance in [1, 1200] sent by the LiDAR reads back unchanged and without a fault. Every other 16-bit value reads as -1 with a fault. |
| Sensors.SensorFaultsNeverCallEmergencyStop | hoverkart/Sensors.h:44-71 | Every fault the sensor reads raise is a SENSOR_ERROR. Its recovery is the general one, never `emergencyStop()`. |
| ErrorHandling.HandleRecovery | hoverkart/ErrorHandling.h:35-45 | Recovery calls `emergencyStop()` exactly for MOTOR_ERROR. |
| ErrorHandling.DisplayError | hoverkart/ErrorHandling.h:26-32 | After `displayError` at time `now`, a fault is active, `lastError` is the message and the timestamp is `now`. `emergencyStop()` follows exactly for MOTOR_ERROR. |
| Events.DisplayErrorEvents | hoverkart/ErrorHandling.h:26-45 | A `displayError` emits its report first. `emergencyStop()` is among its events exactly for MOTOR_ERROR. |
| ErrorHandling.LastWriteWins | hoverkart/ErrorHandling.h:26-29 | A second report overwrites message and timestamp, whatever the kinds and whatever the earlier state. |
| ErrorHandling.HandleErrors | hoverkart/ErrorHandling.h:48-53 | The message and timestamp never change. The flag stays set exactly when it was set and the unsigned `(now − errorTimestamp) mod 2^32` is at most 5000. |
| ErrorHandling.ExpiryIsStrict | hoverkart/ErrorHandling.h:20 | A fault is still active exactly 5000 ms after it was raised and is cleared at 5001 ms, also across a counter wrap. |
| ErrorHandling.HandleErrorsIdempotent | hoverkart/ErrorHandling.h:49 | A second `handleErrors` at the same time changes nothing. Once cleared, `handleErrors` at any later time changes nothing. |
| ErrorHandling.StopsCountMotorReports | hoverkart/ErrorHandling.h:35-45 | Over any sequence of reports and ticks, `emergencyStop()` is invoked exactly once per MOTOR_ERROR report. No other kind and no tick invokes it. |
| ErrorHandling.ReplayKeepsLastReport | hoverkart/ErrorHandling.h:26-31 | After any sequence of calls, the ledger holds the message and time of the last report, however many ticks follow. |
| ErrorHandling.TicksKeepRecord | hoverkart/ErrorHandling.h:48-53 | Ticks never change message or timestamp, never raise the flag and never invoke recovery. |
| HoverkartMotorControl.SensorsDefinitionGatesOnFront | hoverkart/Sensors.h:52-54 | With the `Sensors.h` definition of the rear check, the manoeuvre starts reversing exactly when the FRONT echo is at least 1824 µs and below 2^31 µs, whatever the rear echo. A rear obstacle at 10 cm with the front 85 cm clear still starts the reverse. |
| ErrorHandling.TicksFromInitialStayIdle | hoverkart/ErrorHandling.h:23 | The constructed handler has no fault, an empty message and timestamp 0. Ticks alone keep it so. |

## Left out

- The `PID_v1` objects, `setupPID`, `SetMode`, `SetOutputLimits` and the floating-point gains. Nothing in the code calls `Compute`, so the command cannot depend on them. The model has no gain input at all.
- `setupMotors` and `setupSensors` only configure pins and probe the LiDAR at start-up. They are left out.
- `Serial.println` output is left out.
- `emergencyStop()` only prints, so it is modelled as an event marker.
- The wireless configuration page and the Bluetooth distance source are left out. Both are request plumbing or `random()` over libraries that are not part of this model.
- Sensors.EchoToCm: computes `duration * 17 / 1000` in integers, not the `double` expression `duration * 0.034 / 2`; floating point is not modelled. The double nearest 0.034 exceeds it by about 2.4e-18, and the fractional part of `duration * 0.017` is a multiple of 0.001, so the integer formula gives the same `int` for every echo `pulseIn` can return (at most `ECHO_TIMEOUT`, 23200 µs). That equivalence is argued here, not proved in Dafny.
- Sensors.DecodeDistance: the two `Wire.read()` calls in `Wire.read() << 8 | Wire.read()` are indeterminately sequenced function calls in C++, so which runs first is unspecified. The model takes the left one first, so the first byte read is the high byte.
- The body of `isRearPathClear` in `MotorControl.h` is missing, and `readUltrasonicDistance` of the hoverkart sketch is not part of this model. Both are inputs: a clearance answer, or a rear reading in cm.
- Termination of the busy wait is not modelled. The loop runs over a finite sequence of observations. If they run out before the loop exits, the phase is still `Reversing`.
- The `Arduino` module's `map` and `constrain` are written from the Arduino core's documented behaviour, and its source is not part of this model. Truncating `/`, `<<` and `|` are C++ integer operators, written from the language's rules.
- HoverkartMotorControl.IsRearPathClear: the hoverkart sketch defines `bool isRearPathClear()` twice. `hoverkart/Sensors.h:52-54` compares the front ranger's reading with 30. `hoverkart/MotorControl.h:55-58` compares a rear reading with 30. One program cannot link both. The manoeuvre here (`Begin`, `Step`) uses the `MotorControl.h` definition. The `Sensors.h` definition is `Sensors.IsRearPathClearAsWritten`, and `HoverkartMotorControl.SensorsDefinitionGatesOnFront` shows what the manoeuvre would do with it.
- `LIDAR_ADDRESS` only addresses the I2C bus, which is I/O, so it is left out.
- DEFAULT_FORWARD_SPEED is declared in both motor headers but used by no modelled operation.

## Findings

| source | as written | input that shows it | evidently intended | confidence | as-written member | corrected member |
|---|---|---|---|---|---|---|
| PIDControl.h:42 | `map` evaluates `(d - 100) * 1000` in 32-bit `long`. For 2147584 ≤ d ≤ 4295067 the product wraps negative and the clamp yields MIN_SPEED. Beyond that the wrap repeats about every 4294967 cm: 4295068 gives 1003, and 4295500 gives 2000 again. | `calculateSpeed(2147584)` gives 1000, while `calculateSpeed(300)` gives 2000. | A command non-decreasing in the distance: MAX_SPEED from 300 cm on. | low, not executed. It relies on signed overflow wrapping inside the library's `map`. The Bluetooth source only produces -1 or 100..499. | PidControl.CalculateSpeedAsWritten | PidControl.CalculateSpeed |
| hoverkart/PIDControl.h:28 | The same `map` overflow in the hoverkart sketch. The wrapped value is a valid, non-negative input, so it raises no report. | `calculateSpeed(2147584)` gives 1000 with no report. | MAX_SPEED for every distance from 300 cm on. | low, not executed | HoverkartPidControl.CalculateSpeedAsWritten | HoverkartPidControl.CalculateSpeed |
| hoverkart/Sensors.h:52-54 | `isRearPathClear()` compares `readFrontUltrasonic()` with MIN_SAFE_DISTANCE, so it reads the front ranger. `hoverkart/Sensors.h` itself never reads the rear pins. With this definition, the hoverkart manoeuvre would be gated by the front echo (`HoverkartMotorControl.SensorsDefinitionGatesOnFront`). | Front echo 5000 µs (85 cm), rear echo 600 µs (10 cm): the check answers clear. | The rear ranger's reading compared with MIN_SAFE_DISTANCE. | high, not executed | Sensors.IsRearPathClearAsWritten | Sensors.IsRearPathClear |

`Sensors.IsRearPathClear` reports a rear timeout as "Rear ultrasonic sensor timeout.". The code has no rear read, so that message text is the model's own.
