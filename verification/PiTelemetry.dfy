/** What the driver's IMU_DATA and CAL_STATUS callbacks read in the firmware's telemetry. */
module PiTelemetry {
  import opened Base
  import opened Imu
  import opened Firmware

  /** `pop_front<float>`: four bytes, least significant first, and what is left. */
  function PopFloat(payload: seq<byte>): (float32, seq<byte>)
    requires |payload| >= 4
  {
    var low := (payload[0] as float32) | (payload[1] as float32 << 8);
    (low | (payload[2] as float32 << 16) | (payload[3] as float32 << 24), payload[4..])
  }

  lemma FloatRoundTrip(f: float32)
    ensures ((f & 0xFF) as byte as float32) | (((f >> 8) & 0xFF) as byte as float32 << 8)
      | (((f >> 16) & 0xFF) as byte as float32 << 16) | (((f >> 24) & 0xFF) as byte as float32 << 24) == f
  {
  }

  lemma PopFloatBytes(f: float32, rest: seq<byte>)
    ensures PopFloat(FloatBytes(f) + rest) == (f, rest)
  {
    FloatRoundTrip(f);
    assert (FloatBytes(f) + rest)[4..] == rest;
  }

  /** Popping `n` floats in a row. */
  function PopFloats(payload: seq<byte>, n: nat): (fs: seq<float32>)
    requires |payload| >= 4 * n
    ensures |fs| == n
  {
    if n == 0 then [] else var (f, rest) := PopFloat(payload); [f] + PopFloats(rest, n - 1)
  }

  lemma {:induction false} PopAll(fs: seq<float32>)
    ensures PopFloats(FloatsBytes(fs), |fs|) == fs
    decreases |fs|
  {
    hide PopFloat, FloatBytes;
    if fs == [] {
    } else {
      PopFloatBytes(fs[0], FloatsBytes(fs[1..]));
      PopAll(fs[1..]);
    }
  }

  /** The IMU_DATA callback; payloads of another size are ignored. */
  function ReadSample(payload: seq<byte>): Option<Sample> {
    if |payload| != 40 then None
    else
      var fs := PopFloats(payload, 10);
      Some(Sample(Quat(fs[0], fs[1], fs[2], fs[3]), Vec3(fs[4], fs[5], fs[6]), Vec3(fs[7], fs[8], fs[9])))
  }

  /** Floats travel least significant byte first: 1.0 is 00 00 80 3F. */
  lemma FloatLayout()
    ensures FloatBytes(0x3F80_0000) == [0x00, 0x00, 0x80, 0x3F]
    ensures FloatBytes(0x0102_0304) == [0x04, 0x03, 0x02, 0x01]
    ensures PopFloat([0x00, 0x00, 0x80, 0x3F]) == (0x3F80_0000, [])
  {
    var payload: seq<byte> := [0x00, 0x00, 0x80, 0x3F];
    assert payload[4..] == [];
  }

  lemma {:induction false} FloatAt(fs: seq<float32>, i: nat)
    requires i < |fs|
    ensures FloatsBytes(fs)[4 * i..4 * i + 4] == FloatBytes(fs[i])
    decreases i
  {
    hide FloatBytes;
    var rest := FloatsBytes(fs[1..]);
    if i == 0 {
      assert (FloatBytes(fs[0]) + rest)[..4] == FloatBytes(fs[0]);
    } else {
      FloatAt(fs[1..], i - 1);
      assert FloatsBytes(fs)[4 * i..4 * i + 4] == rest[4 * (i - 1)..4 * (i - 1) + 4];
    }
  }

  /** Where the components of a sample are in its payload: rotation, angular velocity, acceleration. */
  lemma SampleLayout(s: Sample)
    ensures var r := SampleBytes(s);
      && r[0..4] == FloatBytes(s.quat.i) && r[4..8] == FloatBytes(s.quat.j)
      && r[8..12] == FloatBytes(s.quat.k) && r[12..16] == FloatBytes(s.quat.r)
      && r[16..20] == FloatBytes(s.gyro.x) && r[20..24] == FloatBytes(s.gyro.y) && r[24..28] == FloatBytes(s.gyro.z)
      && r[28..32] == FloatBytes(s.accel.x) && r[32..36] == FloatBytes(s.accel.y) && r[36..40] == FloatBytes(s.accel.z)
  {
    hide FloatsBytes, FloatBytes;
    forall i | 0 <= i < 10
      ensures SampleBytes(s)[4 * i..4 * i + 4] == FloatBytes(Floats(s)[i])
    {
      FloatAt(Floats(s), i);
    }
    var r, fs := SampleBytes(s), Floats(s);
    assert r[4 * 0..4 * 0 + 4] == FloatBytes(fs[0]) && r[4 * 1..4 * 1 + 4] == FloatBytes(fs[1]);
    assert r[4 * 2..4 * 2 + 4] == FloatBytes(fs[2]) && r[4 * 3..4 * 3 + 4] == FloatBytes(fs[3]);
    assert r[4 * 4..4 * 4 + 4] == FloatBytes(fs[4]) && r[4 * 5..4 * 5 + 4] == FloatBytes(fs[5]);
    assert r[4 * 6..4 * 6 + 4] == FloatBytes(fs[6]) && r[4 * 7..4 * 7 + 4] == FloatBytes(fs[7]);
    assert r[4 * 8..4 * 8 + 4] == FloatBytes(fs[8]) && r[4 * 9..4 * 9 + 4] == FloatBytes(fs[9]);
  }

  /** What the CAL_STATUS callback publishes. */
  datatype Status = Status(accuracy: Accuracy, accelEnabled: bool, gyroEnabled: bool, magEnabled: bool)

  /** The CAL_STATUS callback; payloads of another size are ignored. */
  function ReadStatus(payload: seq<byte>): Option<Status> {
    if |payload| != 9 then None
    else
      var accuracy := Accuracy(payload[0], payload[1], payload[2], payload[3], PopFloat(payload[5..]).0);
      Some(Status(accuracy, payload[4] & 0x01 != 0, payload[4] & 0x02 != 0, payload[4] & 0x04 != 0))
  }

  /** The driver publishes the sample the firmware sent. */
  lemma SampleRoundTrip(s: Sample)
    ensures ReadSample(SampleBytes(s)) == Some(s)
  {
    hide PopFloats, FloatsBytes;
    PopAll(Floats(s));
  }

  /** The driver publishes the accuracies the firmware sent, and shows the magnetometer calibration
      as enabled exactly while the firmware is calibrating. */
  lemma StatusRoundTrip(a: Accuracy, mask: byte)
    ensures ReadStatus(StatusBytes(a, mask)) ==
      Some(Status(a, mask & CAL_ACCEL != 0, mask & CAL_GYRO != 0, Calibrating(mask)))
  {
    hide PopFloat, FloatBytes;
    PopFloatBytes(a.quatRad, []);
    Empty(FloatBytes(a.quatRad));
    assert StatusBytes(a, mask)[5..] == FloatBytes(a.quatRad);
  }
}
