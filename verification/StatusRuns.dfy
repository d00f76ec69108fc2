/** What the runs of the firmware's main loop report about calibration. */
module StatusRuns {
  import opened Base
  import opened Packets
  import opened Commands
  import opened Imu
  import opened Firmware
  import opened FirmwareRuns
  import opened ImuRuns
  import opened GyroRuns
  import TeensyStream

  // ----- the calibration mask -----

  /** Pass `i` decodes a START while not calibrating, or a STOP while calibrating, and the sensor
      accepts the new configuration. */
  predicate CommandConfigures(staleMs: nat, b: Board, run: Run, i: nat, id: byte) {
    i < |run| && run[i].LoopPass? &&
    var c, p := BoardAt(staleMs, b, run, i), run[i].pass;
    match Decoded(c)
    case None => false
    case Some(q) =>
      && q.packetId == 0x10 && |q.payload| == 3 && q.payload[0] == id
      && ((id == 1 && c.mask & 4 == 0) || (id == 3 && c.mask & 4 != 0))
      && p.command.reportOk && p.command.configOk
  }

  /** Pass `i` recovers the IMU from a reset. */
  predicate Recovers(run: Run, i: nat) {
    IsReset(run, i) &&
    var p := run[i].pass;
    p.gyroOk && p.quatOk && p.restore.reportOk && p.restore.configOk
  }

  /** The sensor is given a calibration configuration in pass `i`. */
  predicate Reconfigured(staleMs: nat, b: Board, run: Run, i: nat) {
    || CommandConfigures(staleMs, b, run, i, 1)
    || CommandConfigures(staleMs, b, run, i, 3)
    || Recovers(run, i)
  }

  lemma PollConfigures(c: Board, p: Pass)
    ensures var q := Decoded(c); var d := AfterPoll(FULL_TABLE, c, p);
      var starts := q.Some? && q.value.packetId == 0x10 && |q.value.payload| == 3 && q.value.payload[0] == 1
        && c.mask & 4 == 0 && p.command.reportOk && p.command.configOk;
      var stops := q.Some? && q.value.packetId == 0x10 && |q.value.payload| == 3 && q.value.payload[0] == 3
        && c.mask & 4 != 0 && p.command.reportOk && p.command.configOk;
      && d.mask == (if starts then 7 else if stops then 2 else c.mask)
      && d.imu.accuracy == (if starts || stops then c.imu.accuracy.(mag := 0) else c.imu.accuracy)
      && d.imu.(accuracy := c.imu.accuracy) == c.imu
  {
    hide TeensyStream.Poll, FromSegmentBounded, Commands.Run, Lookup;
    if Decoded(c).Some? && IsCommand(Decoded(c).value) {
      FullTable(Decoded(c).value.payload[0]);
    }
    HandlerAnswers(StartCalibration, c.mask, p.command);
    HandlerAnswers(SaveCalibration, c.mask, p.command);
    HandlerAnswers(StopCalibration, c.mask, p.command);
  }

  /** From setup on the mask is 0, 2 or 7. A START makes it 7 and a STOP 2; a reset keeps it, except
      that recovering from one gets the default requested if it never was. */
  lemma MaskStep(staleMs: nat, b: Board, run: Run, i: nat)
    requires i < |run|
    ensures var before, after := BoardAt(staleMs, b, run, i).mask, BoardAt(staleMs, b, run, i + 1).mask;
      before in {0, 2, 7} ==>
        after == if CommandConfigures(staleMs, b, run, i, 1) then 7
                 else if CommandConfigures(staleMs, b, run, i, 3) then 2
                 else if Recovers(run, i) && before == 0 then 2
                 else before
  {
    hide TeensyStream.Poll, FromSegmentBounded, Decoded, AfterPoll, AfterRead, MaskAfterReset;
    if run[i].LoopPass? {
      var c, p := BoardAt(staleMs, b, run, i), run[i].pass;
      PollConfigures(c, p);
      var d := AfterPoll(FULL_TABLE, c, p);
      ResetRestores(d.mask, p.gyroOk && p.quatOk, p.restore);
      ReadKeepsMask(AfterReset(d, p), p, staleMs);
    }
  }

  lemma ReadKeepsMask(b: Board, p: Pass, staleMs: nat)
    ensures AfterStatus(AfterRead(b, p, staleMs), p).mask == b.mask
    ensures AfterStatus(AfterRead(b, p, staleMs), p).imu == ReadStep(b.imu, p.reading, staleMs).0
  {
    hide ReadStep, StatusDue;
  }

  lemma {:induction false} MaskValues(staleMs: nat, b: Board, run: Run, k: nat)
    requires k <= |run| && b.mask in {0, 2, 7}
    ensures BoardAt(staleMs, b, run, k).mask in {0, 2, 7}
    decreases k
  {
    hide BoardAt, CommandConfigures, Recovers;
    if k == 0 {
      AtStart(staleMs, b, run);
    } else {
      MaskValues(staleMs, b, run, k - 1);
      MaskStep(staleMs, b, run, k - 1);
    }
  }

  lemma AtStart(staleMs: nat, b: Board, run: Run)
    ensures BoardAt(staleMs, b, run, 0) == b
  {
  }

  // ----- the accuracies -----

  predicate IsMag(run: Run, i: nat) {
    i < |run| && run[i].LoopPass? && run[i].pass.reading.event.MagneticField?
  }

  /** `m` is the last pass before `k` that reads a magnetic field event. */
  predicate LatestMag(run: Run, m: nat, k: nat) {
    m < k <= |run| && IsMag(run, m) && forall j :: m < j < k ==> !IsMag(run, j)
  }

  /** The accuracy that the event of pass `i` reports. */
  function Reported(run: Run, i: nat): byte
    requires i < |run| && run[i].LoopPass?
  {
    EventAccuracy(run[i].pass.reading.event)
  }

  function EventAccuracy(e: Event): byte {
    match e
    case Accelerometer(_, status) => AccuracyBits(status)
    case Gyroscope(_, status) => AccuracyBits(status)
    case MagneticField(status) => AccuracyBits(status)
    case RotationVector(_, _, status) => AccuracyBits(status)
    case _ => 0
  }

  lemma AbsorbedAccuracy(a: Accuracy, e: Event)
    ensures AbsorbAccuracy(a, e).accel == if e.Accelerometer? then EventAccuracy(e) else a.accel
    ensures AbsorbAccuracy(a, e).gyro == if e.Gyroscope? then EventAccuracy(e) else a.gyro
    ensures AbsorbAccuracy(a, e).mag == if e.MagneticField? then EventAccuracy(e) else a.mag
    ensures AbsorbAccuracy(a, e).quat == if e.RotationVector? then EventAccuracy(e) else a.quat
    ensures AbsorbAccuracy(a, e).quatRad == if e.RotationVector? then e.radians else a.quatRad
  {
    hide AccuracyBits;
    match e
    case Accelerometer(_, st) => assert EventAccuracy(e) == AccuracyBits(st);
    case Gyroscope(_, st) => assert EventAccuracy(e) == AccuracyBits(st);
    case MagneticField(st) => assert EventAccuracy(e) == AccuracyBits(st);
    case RotationVector(_, _, st) => assert EventAccuracy(e) == AccuracyBits(st);
    case _ =>
  }

  /** What one read does to the accuracies. */
  lemma ReadAccuracy(s: State, r: Reading, staleMs: nat)
    ensures ReadStep(s, r, staleMs).0.accuracy == AbsorbAccuracy(s.accuracy, r.event)
  {
    hide AbsorbSample, AbsorbAccuracy, Stale;
  }

  /** Configuring the sensor resets the magnetometer accuracy, before the pass reads an event. */
  lemma PassConfigures(staleMs: nat, b: Board, run: Run, i: nat)
    requires i < |run| && run[i].LoopPass?
    ensures var a, a' := BoardAt(staleMs, b, run, i).imu.accuracy, ImuAt(staleMs, b, run, i).accuracy;
      a' == if Reconfigured(staleMs, b, run, i) then a.(mag := 0) else a
  {
    hide BoardAt, TeensyStream.Poll, FromSegmentBounded, Decoded, AfterPoll, MaskAfterReset;
    PollConfigures(BoardAt(staleMs, b, run, i), run[i].pass);
  }

  /** What happening `i` does to the accuracies. */
  lemma AccuracyStep(staleMs: nat, b: Board, run: Run, i: nat)
    requires i < |run|
    ensures var a, a' := BoardAt(staleMs, b, run, i).imu.accuracy, BoardAt(staleMs, b, run, i + 1).imu.accuracy;
      if run[i].Bytes? then a' == a
      else
        var e := run[i].pass.reading.event;
        && a'.accel == (if e.Accelerometer? then EventAccuracy(e) else a.accel)
        && a'.gyro == (if e.Gyroscope? then EventAccuracy(e) else a.gyro)
        && a'.mag == (if e.MagneticField? then EventAccuracy(e)
                      else if Reconfigured(staleMs, b, run, i) then 0 else a.mag)
        && a'.quat == (if e.RotationVector? then EventAccuracy(e) else a.quat)
        && a'.quatRad == (if e.RotationVector? then e.radians else a.quatRad)
  {
    hide BoardAt, ImuAt, ReadStep, EventAccuracy, Reconfigured, AbsorbAccuracy;
    ImuAfter(staleMs, b, run, i);
    if run[i].LoopPass? {
      PassConfigures(staleMs, b, run, i);
      ReadAccuracy(ImuAt(staleMs, b, run, i), run[i].pass.reading, staleMs);
      AbsorbedAccuracy(ImuAt(staleMs, b, run, i).accuracy, run[i].pass.reading.event);
    }
  }

  /** In every run the accelerometer accuracy is the one of the latest accelerometer event, */
  lemma {:induction false} AccelAccuracy(staleMs: nat, b: Board, run: Run, k: nat, a: nat)
    requires LatestAccel(run, a, k)
    ensures BoardAt(staleMs, b, run, k).imu.accuracy.accel == Reported(run, a)
    decreases k
  {
    hide BoardAt, Reconfigured, EventAccuracy;
    AccuracyStep(staleMs, b, run, k - 1);
    if a == k - 1 {
    } else {
      assert !IsAccel(run, k - 1);
      AccelAccuracy(staleMs, b, run, k - 1, a);
    }
  }

  /** the gyroscope accuracy that of the latest gyroscope event, */
  lemma {:induction false} GyroAccuracy(staleMs: nat, b: Board, run: Run, k: nat, g: nat)
    requires LatestGyro(run, g, k)
    ensures BoardAt(staleMs, b, run, k).imu.accuracy.gyro == Reported(run, g)
    decreases k
  {
    hide BoardAt, Reconfigured, EventAccuracy;
    AccuracyStep(staleMs, b, run, k - 1);
    if g == k - 1 {
    } else {
      assert !IsGyro(run, k - 1);
      GyroAccuracy(staleMs, b, run, k - 1, g);
    }
  }

  /** and the orientation accuracies those of the latest rotation vector. */
  lemma {:induction false} QuatAccuracy(staleMs: nat, b: Board, run: Run, k: nat, q: nat)
    requires LatestQuat(run, q, k)
    ensures BoardAt(staleMs, b, run, k).imu.accuracy.quat == Reported(run, q)
    ensures BoardAt(staleMs, b, run, k).imu.accuracy.quatRad == run[q].pass.reading.event.radians
    decreases k
  {
    hide BoardAt, Reconfigured, EventAccuracy;
    AccuracyStep(staleMs, b, run, k - 1);
    if q == k - 1 {
    } else {
      assert !IsQuat(run, k - 1);
      QuatAccuracy(staleMs, b, run, k - 1, q);
    }
  }

  /** The magnetometer accuracy is that of the latest magnetic field event, if the sensor was not
      configured since, */
  lemma {:induction false} MagAccuracy(staleMs: nat, b: Board, run: Run, k: nat, m: nat)
    requires LatestMag(run, m, k) && forall j :: m < j < k ==> !Reconfigured(staleMs, b, run, j)
    ensures BoardAt(staleMs, b, run, k).imu.accuracy.mag == Reported(run, m)
    decreases k
  {
    hide BoardAt, Reconfigured, EventAccuracy;
    AccuracyStep(staleMs, b, run, k - 1);
    if m == k - 1 {
    } else {
      assert !IsMag(run, k - 1) && !Reconfigured(staleMs, b, run, k - 1);
      MagAccuracy(staleMs, b, run, k - 1, m);
    }
  }

  lemma ReconfiguredInPass(staleMs: nat, b: Board, run: Run, i: nat)
    ensures Reconfigured(staleMs, b, run, i) ==> i < |run| && run[i].LoopPass?
  {
    hide BoardAt, Decoded;
  }

  /** and zero, if it was and no such event came since. */
  lemma {:induction false} MagCleared(staleMs: nat, b: Board, run: Run, k: nat, r: nat)
    requires r < k <= |run| && Reconfigured(staleMs, b, run, r) && forall j :: r <= j < k ==> !IsMag(run, j)
    ensures BoardAt(staleMs, b, run, k).imu.accuracy.mag == 0
    decreases k
  {
    hide BoardAt, Reconfigured, EventAccuracy;
    AccuracyStep(staleMs, b, run, k - 1);
    assert !IsMag(run, k - 1);
    ReconfiguredInPass(staleMs, b, run, r);
    if r == k - 1 {
    } else {
      MagCleared(staleMs, b, run, k - 1, r);
    }
  }

  // ----- what is sent -----

  /** The IMU_DATA packets of the first `k` happenings: one for each sample emitted. */
  function SamplesSent(staleMs: nat, b: Board, run: Run, k: nat): seq<Packet>
    requires k <= |run|
  {
    if k == 0 then []
    else
      SamplesSent(staleMs, b, run, k - 1) +
      match Emitted(staleMs, b, run, k - 1)
      case None => []
      case Some(sample) => [Packet(IMU_DATA, IMU_01, SampleBytes(sample))]
  }

  /** The CAL_STATUS packets: one for each pass in which a status is due, made of the accuracies and
      the mask after the pass. */
  function StatusesSent(staleMs: nat, b: Board, run: Run, k: nat): seq<Packet>
    requires k <= |run|
  {
    if k == 0 then []
    else
      var c := BoardAt(staleMs, b, run, k);
      StatusesSent(staleMs, b, run, k - 1) +
      if Attempt(staleMs, b, run, k - 1) then [Packet(CAL_STATUS, IMU_01, StatusBytes(c.imu.accuracy, c.mask))]
      else []
  }

  lemma PollSends(c: Board, p: Pass, id: byte)
    requires id != COMMAND_RESPONSE
    ensures WithId(AfterReset(AfterPoll(FULL_TABLE, c, p), p).sent, id) == WithId(c.sent, id)
  {
    hide WithId, Decoded, Dispatch, TeensyStream.Poll, FromSegmentBounded;
    Empty(WithId(c.sent, id));
    Empty(c.sent);
    if Decoded(c).Some? {
      AnswerHasOtherId(Decoded(c).value, c.mask, p.command, id);
      WithIdAppend(c.sent, AsSeq(Dispatch(FULL_TABLE, Decoded(c).value, c.mask, p.command).1), id);
    }
    PollAppends(c, p);
  }

  lemma AnswerHasOtherId(q: Packet, mask: byte, o: Outcome, id: byte)
    requires id != COMMAND_RESPONSE
    ensures WithId(AsSeq(Dispatch(FULL_TABLE, q, mask, o).1), id) == []
  {
    hide Lookup;
    DispatchMeaning(q, mask, o);
    var r := Dispatch(FULL_TABLE, q, mask, o).1;
    match r
    case None =>
    case Some(v) => WithIdOne(v, id);
  }

  lemma PollAppends(c: Board, p: Pass)
    ensures AfterReset(AfterPoll(FULL_TABLE, c, p), p).sent ==
      if Decoded(c) == None then c.sent
      else c.sent + AsSeq(Dispatch(FULL_TABLE, Decoded(c).value, c.mask, p.command).1)
  {
    hide TeensyStream.Poll, FromSegmentBounded, Dispatch, DispatchReconfigures;
  }

  lemma ReadSends(c: Board, p: Pass, staleMs: nat)
    ensures var d := AfterRead(c, p, staleMs); var e := AfterStatus(d, p);
      && WithId(e.sent, IMU_DATA) == WithId(c.sent, IMU_DATA) +
         (match ReadStep(c.imu, p.reading, staleMs).1
          case None => []
          case Some(v) => [Packet(IMU_DATA, IMU_01, SampleBytes(v))])
      && WithId(e.sent, CAL_STATUS) == WithId(c.sent, CAL_STATUS) +
         (if StatusDue(d, p) then [Packet(CAL_STATUS, IMU_01, StatusBytes(e.imu.accuracy, e.mask))] else [])
  {
    hide ReadStep, StatusDue, SampleBytes, StatusBytes;
    var d := AfterRead(c, p, staleMs);
    var sample := ReadStep(c.imu, p.reading, staleMs).1;
    Empty(WithId(c.sent, IMU_DATA));
    Empty(WithId(c.sent, CAL_STATUS));
    Empty(WithId(d.sent, IMU_DATA));
    Empty(WithId(d.sent, CAL_STATUS));
    if sample.Some? {
      var q := Packet(IMU_DATA, IMU_01, SampleBytes(sample.value));
      WithIdAppend(c.sent, [q], IMU_DATA);
      WithIdAppend(c.sent, [q], CAL_STATUS);
      WithIdOne(q, IMU_DATA);
      WithIdOne(q, CAL_STATUS);
    }
    if StatusDue(d, p) {
      var q := Packet(CAL_STATUS, IMU_01, StatusBytes(d.imu.accuracy, d.mask));
      WithIdAppend(d.sent, [q], IMU_DATA);
      WithIdAppend(d.sent, [q], CAL_STATUS);
      WithIdOne(q, IMU_DATA);
      WithIdOne(q, CAL_STATUS);
    }
  }

  lemma HappeningSends(staleMs: nat, b: Board, run: Run, i: nat)
    requires i < |run|
    ensures var c, d := BoardAt(staleMs, b, run, i), BoardAt(staleMs, b, run, i + 1);
      && WithId(d.sent, IMU_DATA) == WithId(c.sent, IMU_DATA) +
         (match Emitted(staleMs, b, run, i)
          case None => []
          case Some(v) => [Packet(IMU_DATA, IMU_01, SampleBytes(v))])
      && WithId(d.sent, CAL_STATUS) == WithId(c.sent, CAL_STATUS) +
         (if Attempt(staleMs, b, run, i) then [Packet(CAL_STATUS, IMU_01, StatusBytes(d.imu.accuracy, d.mask))] else [])
  {
    hide AfterPoll, AfterReset, AfterRead, AfterStatus, ReadStep, StatusDue, SampleBytes, StatusBytes, WithId;
    var c := BoardAt(staleMs, b, run, i);
    Empty(WithId(c.sent, IMU_DATA));
    Empty(WithId(c.sent, CAL_STATUS));
    if run[i].LoopPass? {
      var p := run[i].pass;
      PollSends(c, p, IMU_DATA);
      PollSends(c, p, CAL_STATUS);
      ReadSends(AfterReset(AfterPoll(FULL_TABLE, c, p), p), p, staleMs);
    }
  }

  /** In every run, the IMU_DATA packets sent are exactly the samples emitted, and the CAL_STATUS
      packets exactly the statuses due, each in order. */
  lemma {:induction false} TelemetrySent(staleMs: nat, b: Board, run: Run, k: nat)
    requires k <= |run|
    ensures var sent := BoardAt(staleMs, b, run, k).sent;
      && WithId(sent, 0x01) == WithId(b.sent, 0x01) + SamplesSent(staleMs, b, run, k)
      && WithId(sent, 0x02) == WithId(b.sent, 0x02) + StatusesSent(staleMs, b, run, k)
    decreases k
  {
    hide WithId, Happen, Emitted, Attempt, SampleBytes, StatusBytes;
    if k == 0 {
      Empty(WithId(b.sent, IMU_DATA));
      Empty(WithId(b.sent, CAL_STATUS));
    } else {
      TelemetrySent(staleMs, b, run, k - 1);
      HappeningSends(staleMs, b, run, k - 1);
      var c := BoardAt(staleMs, b, run, k);
      Assoc(WithId(b.sent, IMU_DATA), SamplesSent(staleMs, b, run, k - 1),
            match Emitted(staleMs, b, run, k - 1)
            case None => []
            case Some(v) => [Packet(IMU_DATA, IMU_01, SampleBytes(v))]);
      Assoc(WithId(b.sent, CAL_STATUS), StatusesSent(staleMs, b, run, k - 1),
            if Attempt(staleMs, b, run, k - 1) then [Packet(CAL_STATUS, IMU_01, StatusBytes(c.imu.accuracy, c.mask))]
            else []);
    }
  }

  /** `v` is what the latest accelerometer event before `k` reported, if there was one. */
  ghost predicate ShowsAccel(run: Run, k: nat, v: byte) {
    forall a: nat :: LatestAccel(run, a, k) ==> v == run[a].pass.reading.event.status & 3
  }

  ghost predicate ShowsGyro(run: Run, k: nat, v: byte) {
    forall g: nat :: LatestGyro(run, g, k) ==> v == run[g].pass.reading.event.status & 3
  }

  ghost predicate ShowsQuat(run: Run, k: nat, v: byte, radians: seq<byte>) {
    forall q: nat :: LatestQuat(run, q, k) ==>
      v == run[q].pass.reading.event.status & 3 && radians == FloatBytes(run[q].pass.reading.event.radians)
  }

  /** `v` is what the latest magnetic field event before `k` reported, or zero if the sensor was
      configured after it. */
  ghost predicate ShowsMag(staleMs: nat, b: Board, run: Run, k: nat, v: byte) {
    && (forall m: nat :: LatestMag(run, m, k) && ConfiguredNot(staleMs, b, run, m + 1, k) ==>
          v == run[m].pass.reading.event.status & 3)
    && (forall r: nat :: r < k && Reconfigured(staleMs, b, run, r) && NoMag(run, r, k) ==> v == 0)
  }

  ghost predicate ConfiguredNot(staleMs: nat, b: Board, run: Run, i: nat, k: nat) {
    forall j: nat :: i <= j < k ==> !Reconfigured(staleMs, b, run, j)
  }

  ghost predicate NoMag(run: Run, i: nat, k: nat) {
    forall j: nat :: i <= j < k ==> !IsMag(run, j)
  }

  lemma ShownAccuracies(staleMs: nat, b: Board, run: Run, k: nat)
    requires k <= |run|
    ensures var a := BoardAt(staleMs, b, run, k).imu.accuracy;
      && ShowsAccel(run, k, a.accel) && ShowsGyro(run, k, a.gyro)
      && ShowsMag(staleMs, b, run, k, a.mag) && ShowsQuat(run, k, a.quat, FloatBytes(a.quatRad))
  {
    hide BoardAt, Reconfigured, FloatBytes;
    var acc := BoardAt(staleMs, b, run, k).imu.accuracy;
    forall a: nat | LatestAccel(run, a, k)
      ensures acc.accel == run[a].pass.reading.event.status & 3
    {
      AccelAccuracy(staleMs, b, run, k, a);
    }
    forall g: nat | LatestGyro(run, g, k)
      ensures acc.gyro == run[g].pass.reading.event.status & 3
    {
      GyroAccuracy(staleMs, b, run, k, g);
    }
    forall q: nat | LatestQuat(run, q, k)
      ensures acc.quat == run[q].pass.reading.event.status & 3 && acc.quatRad == run[q].pass.reading.event.radians
    {
      QuatAccuracy(staleMs, b, run, k, q);
    }
    ShownMag(staleMs, b, run, k);
  }

  lemma ShownMag(staleMs: nat, b: Board, run: Run, k: nat)
    requires k <= |run|
    ensures ShowsMag(staleMs, b, run, k, BoardAt(staleMs, b, run, k).imu.accuracy.mag)
  {
    hide BoardAt, Reconfigured;
    var mag := BoardAt(staleMs, b, run, k).imu.accuracy.mag;
    forall m: nat | LatestMag(run, m, k) && ConfiguredNot(staleMs, b, run, m + 1, k)
      ensures mag == run[m].pass.reading.event.status & 3
    {
      MagAccuracy(staleMs, b, run, k, m);
    }
    forall r: nat | r < k && Reconfigured(staleMs, b, run, r) && NoMag(run, r, k)
      ensures mag == 0
    {
      MagCleared(staleMs, b, run, k, r);
    }
  }

  /** What the nine bytes of a status sent in pass `i` are: the latest accuracies, read off the events'
      status bytes, and the mask of a calibration in progress. */
  lemma StatusContents(staleMs: nat, b: Board, run: Run, i: nat)
    requires Attempt(staleMs, b, run, i) && b.mask in {0, 2, 7}
    ensures i < |run|
    ensures var c := BoardAt(staleMs, b, run, i + 1); var payload := StatusBytes(c.imu.accuracy, c.mask);
      && ShowsAccel(run, i + 1, payload[0]) && ShowsGyro(run, i + 1, payload[1])
      && ShowsMag(staleMs, b, run, i + 1, payload[2]) && ShowsQuat(run, i + 1, payload[3], payload[5..])
      && payload[4] == 7
  {
    hide BoardAt, ShowsAccel, ShowsGyro, ShowsMag, ShowsQuat, FloatBytes, Attempt, Calibrating;
    AttemptBounds(staleMs, b, run, i);
    var c := BoardAt(staleMs, b, run, i + 1);
    var payload := StatusBytes(c.imu.accuracy, c.mask);
    MaskValues(staleMs, b, run, i + 1);
    SevenMeansCalibrating(c.mask);
    ShownAccuracies(staleMs, b, run, i + 1);
    assert payload[5..] == FloatBytes(c.imu.accuracy.quatRad);
  }

  /** A status is only sent by a pass that ends up calibrating. */
  lemma AttemptBounds(staleMs: nat, b: Board, run: Run, i: nat)
    requires Attempt(staleMs, b, run, i)
    ensures i < |run| && Calibrating(BoardAt(staleMs, b, run, i + 1).mask)
  {
    hide AfterPoll, AfterReset, AfterRead, Calibrating;
  }

  lemma SevenMeansCalibrating(mask: byte)
    requires mask in {0, 2, 7} && Calibrating(mask)
    ensures mask == 7
  {
  }
}
