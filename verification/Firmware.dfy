/** The firmware's main loop, and the pacing of its calibration status packets. */
module Firmware {
  import opened Base
  import opened Packets
  import opened Commands
  import opened Imu
  import opened TeensyStream
  import TeensyClient
  import Framing

  const IMU_DATA: byte := 0x01
  const CAL_STATUS: byte := 0x02
  const CAL_STATUS_PERIOD_MS: nat := 100

  /** Everything one pass through `loop` asks the outside world: how the sensor answers a command,
      whether the IMU was reset and how recovering went, the sensor event, and the true times at
      which the status period is checked and the status sending is stamped. */
  datatype Pass = Pass(command: Outcome, wasReset: bool, gyroOk: bool, quatOk: bool, restore: Outcome,
                       reading: Reading, check: nat, stamp: nat)

  /** The state of the firmware between passes; `sent` are all packets written so far. */
  datatype Board = Board(link: Link, mask: byte, imu: State, lastCalMs: nat, sent: seq<Packet>)

  function AfterPoll(table: Table, b: Board, p: Pass): Board {
    var (l, f) := Poll(b.link);
    match f
    case None => b.(link := l)
    case Some(frame) =>
      match FromSegmentBounded(frame)
      case None => b.(link := l)
      case Some(packet) =>
        var (mask, r) := Dispatch(table, packet, b.mask, p.command);
        var reconfigured := DispatchReconfigures(table, packet, b.mask, p.command);
        b.(link := l, mask := mask,
           imu := b.imu.(accuracy := TeensyClient.Refreshed(b.imu.accuracy, reconfigured)),
           sent := b.sent + AsSeq(r))
  }

  function AfterReset(b: Board, p: Pass): Board {
    if !p.wasReset then b
    else
      var configured := p.gyroOk && p.quatOk;
      var accuracy := TeensyClient.Refreshed(b.imu.accuracy, configured && p.restore.reportOk && p.restore.configOk);
      b.(mask := MaskAfterReset(b.mask, configured, p.restore),
         imu := b.imu.(haveAccel := false, haveQuat := false, lastGyroMs := 0, accuracy := accuracy))
  }

  function AfterRead(b: Board, p: Pass, staleMs: nat): Board {
    var (s, sample) := ReadStep(b.imu, p.reading, staleMs);
    match sample
    case None => b.(imu := s)
    case Some(v) => b.(imu := s, sent := b.sent + [Packet(IMU_DATA, IMU_01, SampleBytes(v))])
  }

  /** Whether the pass sends a calibration status. */
  predicate StatusDue(b: Board, p: Pass) {
    Calibrating(b.mask) && Sub32(Millis(p.check), b.lastCalMs) >= CAL_STATUS_PERIOD_MS
  }

  function AfterStatus(b: Board, p: Pass): Board {
    if !StatusDue(b, p) then b
    else
      var packet := Packet(CAL_STATUS, IMU_01, StatusBytes(b.imu.accuracy, b.mask));
      b.(lastCalMs := Millis(p.stamp), sent := b.sent + [packet])
  }

  function BeforeStatus(table: Table, staleMs: nat, b: Board, p: Pass): Board {
    AfterRead(AfterReset(AfterPoll(table, b, p), p), p, staleMs)
  }

  function LoopStep(table: Table, staleMs: nat, b: Board, p: Pass): Board {
    AfterStatus(BeforeStatus(table, staleMs, b, p), p)
  }

  function FloatBytes(f: float32): (s: seq<byte>)
    ensures |s| == 4
  {
    [(f & 0xFF) as byte, ((f >> 8) & 0xFF) as byte, ((f >> 16) & 0xFF) as byte, ((f >> 24) & 0xFF) as byte]
  }

  /** The memory image of consecutive floats. */
  function FloatsBytes(fs: seq<float32>): (s: seq<byte>)
    ensures |s| == 4 * |fs|
  {
    if fs == [] then [] else FloatBytes(fs[0]) + FloatsBytes(fs[1..])
  }

  function Floats(s: Sample): (fs: seq<float32>)
    ensures |fs| == 10
  {
    [s.quat.i, s.quat.j, s.quat.k, s.quat.r, s.gyro.x, s.gyro.y, s.gyro.z, s.accel.x, s.accel.y, s.accel.z]
  }

  function SampleBytes(s: Sample): (r: seq<byte>)
    ensures |r| == 40
  {
    FloatsBytes(Floats(s))
  }

  function StatusBytes(a: Accuracy, mask: byte): (r: seq<byte>)
    ensures |r| == 9
  {
    [a.accel, a.gyro, a.mag, a.quat, mask] + FloatBytes(a.quatRad)
  }

  /** The program: its global variables and its two entry points. */
  class Firmware {
    const imu: BNO085
    const client: TeensyClient.Client
    var lastCalStatusMs: nat
    /** Every packet written so far. */
    ghost var sent: seq<Packet>

    ghost predicate Valid()
      reads this, client, client.buffer, client.buffer.buffer, client.handlers
    {
      && client.Valid() && client.imu == imu
      && client.handlers[..] == FULL_TABLE
      && client.outgoing == Framing.WireAll(sent)
    }

    ghost function View(): Board
      reads this, client, imu
    {
      Board(Link(client.partial, client.incoming), imu.calMask, imu.View(), lastCalStatusMs, sent)
    }

    /** `setup`, once the IMU has answered: the default calibration is requested, and the three
        handlers are registered. */
    constructor (gyroStaleMs: nat, o: Outcome)
      ensures Valid() && sent == []
      ensures client.partial == [] && client.incoming == []
      ensures imu.calMask == if o.reportOk && o.configOk then 2 else 0
      ensures !Calibrating(imu.calMask) && imu.gyroStaleMs == gyroStaleMs && lastCalStatusMs == 0
    {
      var theImu := new BNO085(gyroStaleMs);
      var theClient := new TeensyClient.Client(theImu);
      imu := theImu;
      client := theClient;
      lastCalStatusMs := 0;
      sent := [];
      new;
      var _ := imu.Calibrate(CAL_MASK_DEFAULT, o);
      RegisterHandlers(client);
    }

    /** The registrations at the end of `setup`. */
    static method RegisterHandlers(client: TeensyClient.Client)
      requires client.Valid()
      modifies client.handlers
      ensures client.Valid() && client.handlers[..] == FULL_TABLE
    {
      FullTable(0);
      LookupIds(FULL_TABLE, CALIBRATION_START);
      client.RegisterHandler(CALIBRATION_START, StartCalibration);
      client.RegisterHandler(CALIBRATION_SAVE, SaveCalibration);
      client.RegisterHandler(CALIBRATION_STOP, StopCalibration);
      assert client.handlers[..] == FULL_TABLE;
    }

    /** `send_calibration_status`. */
    method SendCalibrationStatus(stamp: nat)
      requires Valid()
      modifies this, client
      ensures Valid() && lastCalStatusMs == Millis(stamp)
      ensures sent == old(sent) + [Packet(CAL_STATUS, IMU_01, StatusBytes(imu.accuracy, imu.calMask))]
      ensures client.partial == old(client.partial) && client.incoming == old(client.incoming)
    {
      var p := Packet(CAL_STATUS, IMU_01, StatusBytes(imu.accuracy, imu.calMask));
      var _ := client.SendBytes(p.packetId, p.deviceId, p.payload);
      Framing.WireAllAppend(sent, p);
      sent := sent + [p];
      lastCalStatusMs := Millis(stamp);
    }

    /** The first statement of `loop`. */
    method PollClient(p: Pass)
      requires Valid()
      modifies this`sent, client, client.buffer, client.buffer.buffer, imu`calMask, imu`accuracy
      ensures Valid() && View() == AfterPoll(FULL_TABLE, old(View()), p)
    {
      hide Dispatch, DispatchReconfigures, FromSegmentBounded, Wire, Poll, Framing.WireAll;
      ghost var b := View();
      client.PollCommand(p.command);
      var (l, f) := Poll(b.link);
      if f.Some? && FromSegmentBounded(f.value).Some? {
        ghost var r := Dispatch(FULL_TABLE, FromSegmentBounded(f.value).value, b.mask, p.command).1;
        Empty(sent);
        if r.Some? {
          Framing.WireAllAppend(sent, r.value);
        } else {
          Empty(Framing.WireAll(sent));
        }
        sent := sent + AsSeq(r);
      }
    }

    /** The second statement of `loop`. */
    method RecoverFromReset(p: Pass)
      requires Valid()
      modifies imu
      ensures Valid() && View() == AfterReset(old(View()), p)
      ensures imu.gyroStaleMs == old(imu.gyroStaleMs)
    {
      hide MaskAfterReset;
      if p.wasReset {
        var _ := imu.Reset(p.gyroOk, p.quatOk, p.restore);
      }
    }

    /** Reading the sensor and sending the sample, if one is complete. */
    method ReadSample(p: Pass)
      requires Valid()
      modifies this`sent, client, imu
      ensures Valid() && View() == AfterRead(old(View()), p, old(imu.gyroStaleMs))
      ensures imu.gyroStaleMs == old(imu.gyroStaleMs)
    {
      hide ReadStep, Wire, SampleBytes, Framing.WireAll;
      var sample := imu.Read(p.reading);
      if sample.Some? {
        var packet := Packet(IMU_DATA, IMU_01, SampleBytes(sample.value));
        var _ := client.SendBytes(packet.packetId, packet.deviceId, packet.payload);
        Framing.WireAllAppend(sent, packet);
        sent := sent + [packet];
      }
    }

    /** `loop`. */
    method Loop(p: Pass)
      requires Valid()
      modifies this, client, client.buffer, client.buffer.buffer, imu
      ensures Valid()
      ensures View() == LoopStep(FULL_TABLE, imu.gyroStaleMs, old(View()), p)
    {
      hide AfterPoll, AfterReset, AfterRead, Framing.WireAll;
      PollClient(p);
      RecoverFromReset(p);
      ReadSample(p);
      if imu.calMask & CAL_MAG != 0 && Sub32(Millis(p.check), lastCalStatusMs) >= CAL_STATUS_PERIOD_MS {
        SendCalibrationStatus(p.stamp);
      }
    }
  }

  /** The driver reads in the bytes written exactly the packets sent. */
  lemma WrittenIsSent(f: Firmware)
    requires f.Valid()
    ensures Framing.PiPackets(f.client.outgoing) == f.sent && Framing.Tail(f.client.outgoing) == []
  {
    Framing.CleanStream(f.sent);
  }
}
