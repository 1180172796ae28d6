/** Sensor acquisition of `hoverkart/Sensors.h`: the front ultrasonic
    ranger (echo pulse width to centimetres, with a timeout), the rear
    clearance check built on it, and the I2C LiDAR (two-byte big-endian
    reply, range-checked). Hardware reads are inputs: `pulse` is what
    `pulseIn` returned, `reply` the bytes `Wire` had available. */
module Sensors {
  import opened Arduino
  import opened ErrorHandling

  const MAX_ULTRASONIC_DISTANCE: Int32 := 400
  const MIN_SAFE_DISTANCE: Int32 := 30
  const LIDAR_MAX_DISTANCE: Int32 := 1200

  /** The `pulseIn` timeout in microseconds: 58 us of echo per cm. A
      completed `pulseIn` never returns a longer pulse than this. */
  const ECHO_TIMEOUT: Int32 := MAX_ULTRASONIC_DISTANCE * 58

  /** The shortest echo (us) whose distance exceeds MIN_SAFE_DISTANCE. */
  const CLEAR_ECHO: Int32 := 1824

  const FrontTimeout: Report := Report(SensorError, "Front ultrasonic sensor timeout.")
  const LidarInvalid: Report := Report(SensorError, "LiDAR invalid distance.")
  const LidarReadFailed: Report := Report(SensorError, "LiDAR read failed.")

  /** `duration * 0.034 / 2` converted to `int`: sound covers 0.034 cm per
      microsecond and the echo travels the distance twice. Computed in
      integers as `duration * 17 / 1000`, rounded toward zero like the
      conversion to `int`. */
  function EchoToCm(duration: Int32): (cm: int)
    ensures duration >= 0 ==> 0 <= cm && cm * 1000 <= duration * 17 < cm * 1000 + 1000
    ensures duration <= 0 ==> cm <= 0
  {
    TruncDivRemainder(duration * 17, 1000);
    TruncDiv(duration * 17, 1000)
  }

  /** One ultrasonic read: `pulse` is the `pulseIn` result (0 on timeout),
      stored in a signed `long`; a timeout gives -1 and raises `timeout`,
      anything else is converted and clamped to [0, 400]. */
  function ReadUltrasonic(pulse: UInt32, timeout: Report): (r: Logged<int>)
    ensures r.value == -1 <==> pulse == 0
    ensures r.value == -1 || 0 <= r.value <= MAX_ULTRASONIC_DISTANCE
    ensures r.reports == if pulse == 0 then [timeout] else []
    ensures 0 < pulse < TWO_31 && pulse * 17 < 400000 ==>
      r.value * 1000 <= pulse * 17 < r.value * 1000 + 1000
    ensures 0 < pulse < TWO_31 && pulse * 17 >= 400000 ==> r.value == MAX_ULTRASONIC_DISTANCE
    ensures pulse >= TWO_31 ==> r.value == 0
    ensures 0 < pulse <= ECHO_TIMEOUT ==> r.value * 1000 <= pulse * 17 < r.value * 1000 + 1000
  {
    var duration := WrapInt32(pulse);
    if duration == 0 then
      Logged(-1, [timeout])
    else
      Logged(Constrain(EchoToCm(duration), 0, MAX_ULTRASONIC_DISTANCE), [])
  }

  /** `readFrontUltrasonic()`. */
  function ReadFrontUltrasonic(pulse: UInt32): (r: Logged<int>)
    ensures r.value == -1 <==> r.reports == [FrontTimeout]
  {
    ReadUltrasonic(pulse, FrontTimeout)
  }

  /** A longer echo never reads as a shorter distance (for echoes the
      signed `long` holds); a timeout reads below every echo. */
  lemma ReadUltrasonicMonotone(pulse: UInt32, pulse': UInt32, timeout: Report)
    requires 0 <= pulse <= pulse' < TWO_31
    ensures ReadUltrasonic(pulse, timeout).value <= ReadUltrasonic(pulse', timeout).value
  {
    if pulse > 0 {
      TruncDivMonotone(pulse * 17, pulse' * 17, 1000);
    }
  }

  /** A reading above MIN_SAFE_DISTANCE needs an echo of at least
      CLEAR_ECHO microseconds; a timeout is never clear. */
  lemma ClearExactlyFromClearEcho(pulse: UInt32, timeout: Report)
    ensures ReadUltrasonic(pulse, timeout).value > MIN_SAFE_DISTANCE <==> CLEAR_ECHO <= pulse < TWO_31
  {
  }

  /** The two echo pulses the kart can measure. */
  datatype Echoes = Echoes(front: UInt32, rear: UInt32)

  /** `isRearPathClear()` as written: it reads the FRONT ranger. */
  function IsRearPathClearAsWritten(echoes: Echoes): (r: Logged<bool>)
    ensures r.value <==> CLEAR_ECHO <= echoes.front < TWO_31
    ensures r.reports == if echoes.front == 0 then [FrontTimeout] else []
  {
    var reading := ReadFrontUltrasonic(echoes.front);
    ClearExactlyFromClearEcho(echoes.front, FrontTimeout);
    Logged(reading.value > MIN_SAFE_DISTANCE, reading.reports)
  }

  const RearTimeout: Report := Report(SensorError, "Rear ultrasonic sensor timeout.")

  /** The rear clearance check as intended: the same conversion applied to
      the rear ranger's echo. A timeout is never clear. */
  function IsRearPathClear(echoes: Echoes): (r: Logged<bool>)
    ensures r.value <==> CLEAR_ECHO <= echoes.rear < TWO_31
    ensures echoes.rear == 0 ==> !r.value && r.reports == [RearTimeout]
    ensures echoes.rear != 0 ==> r.reports == []
  {
    var reading := ReadUltrasonic(echoes.rear, RearTimeout);
    ClearExactlyFromClearEcho(echoes.rear, RearTimeout);
    Logged(reading.value > MIN_SAFE_DISTANCE, reading.reports)
  }

  /** An obstacle 10 cm behind the kart (600 us echo) with open road ahead
      (5000 us, 85 cm) passes the written check but not the intended one. */
  lemma AsWrittenIgnoresRear()
    ensures IsRearPathClearAsWritten(Echoes(5000, 600)).value
    ensures ReadUltrasonic(600, RearTimeout).value == 10
    ensures !IsRearPathClear(Echoes(5000, 600)).value
  {
  }

  /** `Wire.read() << 8 | Wire.read()`: the first byte read is the high
      byte (operands taken in written order). */
  function DecodeDistance(hi: Byte, lo: Byte): (d: int)
    ensures d == hi * 256 + lo
  {
    assert Pow2(8) == 256;
    BitOrShiftedIsSum(hi, lo, 8);
    BitOr(ShiftLeft(hi, 8), lo)
  }

  /** The two bytes the LiDAR sends for a distance, high byte first. */
  function EncodeDistance(d: int): (reply: seq<Byte>)
    requires 0 <= d < 0x1_0000
    ensures |reply| == 2
  {
    [d / 256, d % 256]
  }

  /** Decoding inverts encoding, both ways. */
  lemma DistanceCodecRoundTrip(d: int, hi: Byte, lo: Byte)
    requires 0 <= d < 0x1_0000
    ensures var reply := EncodeDistance(d); DecodeDistance(reply[0], reply[1]) == d
    ensures EncodeDistance(DecodeDistance(hi, lo)) == [hi, lo]
  {
  }

  /** `readLidarDistance()`: a reply of exactly two bytes is decoded and
      range-checked to [1, LIDAR_MAX_DISTANCE]; anything else is -1 with a
      sensor fault report. */
  function ReadLidarDistance(reply: seq<Byte>): (r: Logged<int>)
    ensures r.value == -1 || 1 <= r.value <= LIDAR_MAX_DISTANCE
    ensures |reply| != 2 ==> r == Logged(-1, [LidarReadFailed])
    ensures |reply| == 2 ==>
      var d := (reply[0] as int) * 256 + reply[1];
      if 1 <= d <= LIDAR_MAX_DISTANCE then r == Logged(d, []) else r == Logged(-1, [LidarInvalid])
  {
    if |reply| == 2 then
      var distance := DecodeDistance(reply[0], reply[1]);
      if distance <= 0 || distance > LIDAR_MAX_DISTANCE then
        Logged(-1, [LidarInvalid])
      else
        Logged(distance, [])
    else
      Logged(-1, [LidarReadFailed])
  }

  /** Every in-range distance the LiDAR sends is read back unchanged and
      without a fault; every out-of-range one is rejected with a fault. */
  lemma LidarReadsBackEncoded(d: int)
    requires 0 <= d < 0x1_0000
    ensures 1 <= d <= LIDAR_MAX_DISTANCE ==> ReadLidarDistance(EncodeDistance(d)) == Logged(d, [])
    ensures !(1 <= d <= LIDAR_MAX_DISTANCE) ==> ReadLidarDistance(EncodeDistance(d)) == Logged(-1, [LidarInvalid])
  {
    DistanceCodecRoundTrip(d, 0, 0);
  }

  /** Every fault the sensors raise is a sensor fault, so none of them
      calls `emergencyStop()`. */
  lemma SensorFaultsNeverCallEmergencyStop(pulse: UInt32, reply: seq<Byte>, r: Report)
    requires r in ReadFrontUltrasonic(pulse).reports + ReadLidarDistance(reply).reports
    ensures r.kind == SensorError && HandleRecovery(r.kind) == GeneralRecovery
  {
  }
}
