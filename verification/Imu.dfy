/** The IMU driver: assembling samples from sensor events, and the calibration mask. */
module Imu {
  import opened Base

  /** A 32-bit float, of which only the bits matter here. */
  type float32 = bv32

  const MILLIS_WRAP: nat := 0x1_0000_0000

  /** What the 32-bit millisecond counter shows at a true time. */
  function Millis(t: nat): nat {
    t % MILLIS_WRAP
  }

  /** Unsigned 32-bit subtraction. */
  function Sub32(a: nat, b: nat): nat {
    (a - b) % MILLIS_WRAP
  }

  /** Subtracting two readings of the counter gives the true difference modulo its range. */
  lemma ElapsedWraps(t: nat, u: nat)
    requires t <= u
    ensures Sub32(Millis(u), Millis(t)) == (u - t) % MILLIS_WRAP
  {
  }

  /** How long `configure` waits after enabling the reports. */
  const CONFIGURE_DELAY_MS: nat := 100

  datatype Vec3 = Vec3(x: float32, y: float32, z: float32)
  datatype Quat = Quat(i: float32, j: float32, k: float32, r: float32)
  datatype Sample = Sample(quat: Quat, gyro: Vec3, accel: Vec3)
  datatype Accuracy = Accuracy(accel: byte, gyro: byte, mag: byte, quat: byte, quatRad: float32)

  const ZERO3: Vec3 := Vec3(0, 0, 0)

  /** What one poll of the sensor finds; rotation vectors are already normalised. */
  datatype Event =
    | NoEvent
    | Accelerometer(accel: Vec3, status: byte)
    | Gyroscope(gyro: Vec3, status: byte)
    | MagneticField(status: byte)
    | RotationVector(quat: Quat, radians: float32, status: byte)
    | OtherEvent

  /** One call to `read`: the event, and the true times at which the clock is consulted. */
  datatype Reading = Reading(event: Event, stamp: nat, now: nat)

  datatype State = State(
    sample: Sample,
    accuracy: Accuracy,
    haveAccel: bool,
    haveQuat: bool,
    lastGyroMs: nat)

  /** The accuracy in the two low bits of a sensor status. */
  function AccuracyBits(status: byte): byte {
    status & 3
  }

  function AbsorbSample(s: Sample, e: Event): Sample {
    match e
    case Accelerometer(v, _) => s.(accel := v)
    case Gyroscope(v, _) => s.(gyro := v)
    case RotationVector(q, _, _) => s.(quat := q)
    case _ => s
  }

  function AbsorbAccuracy(a: Accuracy, e: Event): Accuracy {
    match e
    case Accelerometer(_, st) => a.(accel := AccuracyBits(st))
    case Gyroscope(_, st) => a.(gyro := AccuracyBits(st))
    case MagneticField(st) => a.(mag := AccuracyBits(st))
    case RotationVector(_, rad, st) => a.(quat := AccuracyBits(st), quatRad := rad)
    case _ => a
  }

  /** The part of `read` that absorbs an event. */
  function Absorb(s: State, r: Reading): State {
    State(
      AbsorbSample(s.sample, r.event),
      AbsorbAccuracy(s.accuracy, r.event),
      s.haveAccel || r.event.Accelerometer?,
      s.haveQuat || r.event.RotationVector?,
      if r.event.Gyroscope? then Millis(r.stamp) else s.lastGyroMs)
  }

  predicate Stale(s: State, now: nat, staleMs: nat) {
    Sub32(Millis(now), s.lastGyroMs) > staleMs
  }

  /** The state after a call to `read`, and the sample it returns. */
  function ReadStep(s: State, r: Reading, staleMs: nat): (State, Option<Sample>) {
    var a := Absorb(s, r);
    if !a.haveAccel || !a.haveQuat then (a, None)
    else
      var sample := if Stale(a, r.now, staleMs) then a.sample.(gyro := ZERO3) else a.sample;
      (a.(sample := sample, haveAccel := false, haveQuat := false), Some(sample))
  }

  const CAL_ACCEL: byte := 0x01
  const CAL_GYRO: byte := 0x02
  const CAL_MAG: byte := 0x04
  const CAL_MASK_CALIBRATING: byte := CAL_ACCEL | CAL_GYRO | CAL_MAG
  const CAL_MASK_DEFAULT: byte := CAL_GYRO

  predicate Calibrating(mask: byte) {
    mask & CAL_MAG != 0
  }

  /** How the sensor answers one calibration request or one save request. */
  datatype Outcome = Outcome(reportOk: bool, configOk: bool, saveOk: bool)

  /** The mask after a calibration request: unchanged unless both steps succeed. */
  function MaskAfter(mask: byte, sensors: byte, o: Outcome): byte {
    if o.reportOk && o.configOk then sensors else mask
  }

  /** The mask after the driver tried to bring the IMU back from a reset. */
  function MaskAfterReset(mask: byte, configured: bool, o: Outcome): byte {
    if !configured then mask
    else MaskAfter(mask, if Calibrating(mask) then CAL_MASK_CALIBRATING else CAL_MASK_DEFAULT, o)
  }

  /** A reset of the IMU, recovered from or not, never changes whether it counts as calibrating. */
  lemma ResetKeepsCalibrating(mask: byte, configured: bool, o: Outcome)
    ensures Calibrating(MaskAfterReset(mask, configured, o)) == Calibrating(mask)
  {
    if Calibrating(mask) {
      assert CAL_MASK_CALIBRATING & CAL_MAG != 0;
    } else {
      assert CAL_MASK_DEFAULT & CAL_MAG == 0;
    }
  }

  /** Which calibration is requested again: the one in force, or the default if none was yet. */
  lemma ResetRestores(mask: byte, configured: bool, o: Outcome)
    ensures mask == 2 || mask == 7 ==> MaskAfterReset(mask, configured, o) == mask
    ensures mask == 0 ==>
      MaskAfterReset(mask, configured, o) == if configured && o.reportOk && o.configOk then 2 else 0
  {
  }

  class BNO085 {
    var sample: Sample
    var accuracy: Accuracy
    var haveAccel: bool
    var haveQuat: bool
    var lastGyroMs: nat
    var gyroStaleMs: nat
    var calMask: byte

    function View(): State
      reads this
    {
      State(sample, accuracy, haveAccel, haveQuat, lastGyroMs)
    }

    constructor (staleMs: nat)
      ensures calMask == 0 && gyroStaleMs == staleMs
      ensures !haveAccel && !haveQuat && lastGyroMs == 0 && sample == Sample(Quat(0, 0, 0, 0), ZERO3, ZERO3)
    {
      sample := Sample(Quat(0, 0, 0, 0), ZERO3, ZERO3);
      accuracy := Accuracy(0, 0, 0, 0, 0);
      haveAccel, haveQuat := false, false;
      lastGyroMs := 0;
      gyroStaleMs := staleMs;
      calMask := 0;
    }

    /** `configure`, with the results of enabling the two reports that count. */
    method Configure(gyroOk: bool, quatOk: bool) returns (ok: bool)
      modifies this`haveAccel, this`haveQuat, this`lastGyroMs
      ensures ok == (gyroOk && quatOk)
      ensures !haveAccel && !haveQuat && lastGyroMs == 0
    {
      haveAccel := false;
      haveQuat := false;
      lastGyroMs := 0;
      return gyroOk && quatOk;
    }

    method Calibrate(sensors: byte, o: Outcome) returns (ok: bool)
      modifies this`calMask, this`accuracy
      ensures ok == (o.reportOk && o.configOk)
      ensures calMask == MaskAfter(old(calMask), sensors, o)
      ensures accuracy == if ok then old(accuracy).(mag := 0) else old(accuracy)
    {
      if !o.reportOk {
        return false;
      }
      if !o.configOk {
        return false;
      }
      calMask := sensors;
      accuracy := accuracy.(mag := 0);
      return true;
    }

    /** `reset`: reconfigure and restore the prior calibration state. */
    method Reset(gyroOk: bool, quatOk: bool, o: Outcome) returns (ok: bool)
      modifies this`calMask, this`accuracy, this`haveAccel, this`haveQuat, this`lastGyroMs
      ensures ok == (gyroOk && quatOk && o.reportOk && o.configOk)
      ensures calMask == MaskAfterReset(old(calMask), gyroOk && quatOk, o)
      ensures accuracy == if ok then old(accuracy).(mag := 0) else old(accuracy)
      ensures !haveAccel && !haveQuat && lastGyroMs == 0
    {
      var configured := Configure(gyroOk, quatOk);
      if !configured {
        return false;
      }
      if calMask & CAL_MAG != 0 {
        ok := Calibrate(CAL_MASK_CALIBRATING, o);
      } else {
        ok := Calibrate(CAL_MASK_DEFAULT, o);
      }
    }

    /** `read`. */
    method Read(r: Reading) returns (result: Option<Sample>)
      modifies this`sample, this`accuracy, this`haveAccel, this`haveQuat, this`lastGyroMs
      ensures (View(), result) == ReadStep(old(View()), r, gyroStaleMs)
    {
      match r.event {
        case Accelerometer(v, st) =>
          sample := sample.(accel := v);
          accuracy := accuracy.(accel := st & 3);
          haveAccel := true;
        case Gyroscope(v, st) =>
          sample := sample.(gyro := v);
          accuracy := accuracy.(gyro := st & 3);
          lastGyroMs := Millis(r.stamp);
        case MagneticField(st) =>
          accuracy := accuracy.(mag := st & 3);
        case RotationVector(q, rad, st) =>
          sample := sample.(quat := q);
          accuracy := accuracy.(quat := st & 3, quatRad := rad);
          haveQuat := true;
        case _ =>
      }
      if !haveAccel || !haveQuat {
        return None;
      }
      haveAccel := false;
      haveQuat := false;
      if Sub32(Millis(r.now), lastGyroMs) > gyroStaleMs {
        sample := sample.(gyro := ZERO3);
      }
      return Some(sample);
    }
  }
}
