/** What every run of the firmware's main loop guarantees. */
module FirmwareRuns {
  import opened Base
  import opened Packets
  import opened Commands
  import opened Imu
  import opened TeensyStream
  import opened Firmware

  /** Bytes arrive at the serial port, or `loop` makes a pass. */
  datatype Happening = Bytes(bytes: seq<byte>) | LoopPass(pass: Pass)

  type Run = seq<Happening>

  function Happen(staleMs: nat, b: Board, h: Happening): Board {
    match h
    case Bytes(bytes) => b.(link := b.link.(incoming := b.link.incoming + bytes))
    case LoopPass(p) => LoopStep(FULL_TABLE, staleMs, b, p)
  }

  /** The packet that the next pass decodes, if any. */
  function Decoded(b: Board): Option<Packet> {
    match Poll(b.link).1
    case None => None
    case Some(frame) => FromSegmentBounded(frame)
  }

  /** The board before happening number `k`. */
  function BoardAt(staleMs: nat, b: Board, run: Run, k: nat): Board
    requires k <= |run|
  {
    if k == 0 then b else Happen(staleMs, BoardAt(staleMs, b, run, k - 1), run[k - 1])
  }

  // ----- pacing of the calibration status -----

  /** The clock is consulted in order. */
  ghost predicate Timed(run: Run) {
    && (forall i :: 0 <= i < |run| && run[i].LoopPass? ==> run[i].pass.check <= run[i].pass.stamp)
    && (forall i, j :: 0 <= i < j < |run| && run[i].LoopPass? && run[j].LoopPass? ==>
          run[i].pass.stamp <= run[j].pass.check)
  }

  /** Happening `k` is a pass that sends a calibration status. */
  predicate Attempt(staleMs: nat, b: Board, run: Run, k: nat) {
    k < |run| && run[k].LoopPass? &&
    StatusDue(BeforeStatus(FULL_TABLE, staleMs, BoardAt(staleMs, b, run, k), run[k].pass), run[k].pass)
  }

  lemma {:induction false} StampIsKept(staleMs: nat, b: Board, run: Run, i: nat, k: nat)
    requires i < k <= |run| && Attempt(staleMs, b, run, i)
    requires forall j :: i < j < k ==> !Attempt(staleMs, b, run, j)
    ensures BoardAt(staleMs, b, run, k).lastCalMs == Millis(run[i].pass.stamp)
    decreases k
  {
    hide AfterPoll, AfterReset, ReadStep;
    if i == k - 1 {
    } else {
      StampIsKept(staleMs, b, run, i, k - 1);
      assert !Attempt(staleMs, b, run, k - 1);
    }
    if run[k - 1].LoopPass? {
      StampOnlyByStatus(staleMs, BoardAt(staleMs, b, run, k - 1), run[k - 1].pass);
    }
  }

  lemma StampOnlyByStatus(staleMs: nat, b: Board, p: Pass)
    ensures BeforeStatus(FULL_TABLE, staleMs, b, p).lastCalMs == b.lastCalMs
  {
  }

  lemma {:induction false} LatestAttempt(staleMs: nat, b: Board, run: Run, i: nat, k: nat) returns (l: nat)
    requires i < k <= |run| && Attempt(staleMs, b, run, i)
    ensures i <= l < k && Attempt(staleMs, b, run, l)
    ensures forall j :: l < j < k ==> !Attempt(staleMs, b, run, j)
    decreases k
  {
    hide Attempt;
    if Attempt(staleMs, b, run, k - 1) {
      l := k - 1;
    } else {
      l := LatestAttempt(staleMs, b, run, i, k - 1);
    }
  }

  /** While calibrating, a pass sends a status exactly when the 32-bit time since the last one was
      stamped has reached the period; below one wrap of the counter that is the true time. */
  lemma StatusIffPeriod(staleMs: nat, b: Board, run: Run, i: nat, k: nat)
    requires Timed(run) && i < k < |run| && Attempt(staleMs, b, run, i) && run[k].LoopPass?
    requires forall j :: i < j < k ==> !Attempt(staleMs, b, run, j)
    ensures var elapsed := run[k].pass.check - run[i].pass.stamp;
      && elapsed >= 0
      && (Attempt(staleMs, b, run, k) <==>
          elapsed % 0x1_0000_0000 >= 100
          && Calibrating(BeforeStatus(FULL_TABLE, staleMs, BoardAt(staleMs, b, run, k), run[k].pass).mask))
  {
    hide AfterPoll, AfterReset, AfterRead, BoardAt;
    StampIsKept(staleMs, b, run, i, k);
    StampOnlyByStatus(staleMs, BoardAt(staleMs, b, run, k), run[k].pass);
    ElapsedWraps(run[i].pass.stamp, run[k].pass.check);
  }

  /** Two statuses, consecutive or not, are at least the period apart in true time, however often
      the millisecond counter wraps. */
  lemma RateLimit(staleMs: nat, b: Board, run: Run, i: nat, k: nat)
    requires Timed(run) && i < k && Attempt(staleMs, b, run, i) && Attempt(staleMs, b, run, k)
    ensures run[k].pass.check - run[i].pass.stamp >= 100
  {
    hide StatusDue, BoardAt;
    var l := LatestAttempt(staleMs, b, run, i, k);
    StatusIffPeriod(staleMs, b, run, l, k);
    assert i < l ==> run[i].pass.stamp <= run[l].pass.check <= run[l].pass.stamp;
  }

  // ----- commands are answered among all the other traffic -----

  /** The stream events that happen during a run. */
  function EventsOf(h: Happening): seq<StreamEvent> {
    match h
    case Bytes(bytes) => [Arrive(bytes)]
    case LoopPass(p) =>
      [PollOnce(p.command)] + if p.wasReset then [Recover(p.gyroOk && p.quatOk, p.restore)] else []
  }

  function Events(run: Run, k: nat): seq<StreamEvent>
    requires k <= |run|
  {
    if k == 0 then [] else Events(run, k - 1) + EventsOf(run[k - 1])
  }

  /** The stream model sees the same link and mask, and the responses among the packets sent. */
  ghost predicate Matches(b: Board, n: Node) {
    b.link == n.link && b.mask == n.mask && WithId(b.sent, COMMAND_RESPONSE) == n.sent
  }

  lemma PollMatches(b: Board, n: Node, p: Pass)
    requires Matches(b, n)
    ensures Matches(AfterPoll(FULL_TABLE, b, p), Step(FULL_TABLE, n, PollOnce(p.command)))
  {
    hide Poll, FromSegmentBounded, Lookup, Commands.Run;
    var (l, f) := Poll(b.link);
    if f.Some? && FromSegmentBounded(f.value).Some? {
      var packet := FromSegmentBounded(f.value).value;
      var r := Dispatch(FULL_TABLE, packet, b.mask, p.command).1;
      WithIdAppend(b.sent, AsSeq(r), COMMAND_RESPONSE);
      match r
      case None => assert WithId([], COMMAND_RESPONSE) == [];
      case Some(v) => WithIdOne(v, COMMAND_RESPONSE);
    }
  }

  lemma TelemetryMatches(b: Board, n: Node, staleMs: nat, p: Pass)
    requires Matches(b, n)
    ensures Matches(AfterStatus(AfterRead(b, p, staleMs), p), n)
  {
    hide ReadStep, StatusDue, SampleBytes, StatusBytes;
    var (s, sample) := ReadStep(b.imu, p.reading, staleMs);
    var c := AfterRead(b, p, staleMs);
    if sample.Some? {
      var packet := Packet(IMU_DATA, IMU_01, SampleBytes(sample.value));
      WithIdAppend(b.sent, [packet], COMMAND_RESPONSE);
      WithIdOne(packet, COMMAND_RESPONSE);
      Empty(WithId(b.sent, COMMAND_RESPONSE));
    }
    if StatusDue(c, p) {
      var packet := Packet(CAL_STATUS, IMU_01, StatusBytes(c.imu.accuracy, c.mask));
      WithIdAppend(c.sent, [packet], COMMAND_RESPONSE);
      WithIdOne(packet, COMMAND_RESPONSE);
      Empty(WithId(c.sent, COMMAND_RESPONSE));
    }
  }

  lemma HappeningMatches(staleMs: nat, b: Board, n: Node, h: Happening)
    requires Matches(b, n)
    ensures Matches(Happen(staleMs, b, h), Steps(FULL_TABLE, n, EventsOf(h)))
  {
    match h
    case Bytes(bytes) =>
      OneStep(n, Arrive(bytes));
    case LoopPass(p) =>
      hide AfterPoll, AfterRead, AfterStatus;
      PollMatches(b, n, p);
      var c := AfterPoll(FULL_TABLE, b, p);
      var n1 := Step(FULL_TABLE, n, PollOnce(p.command));
      OneStep(n, PollOnce(p.command));
      var recover := if p.wasReset then [Recover(p.gyroOk && p.quatOk, p.restore)] else [];
      StepsAppend(FULL_TABLE, n, [PollOnce(p.command)], recover);
      if p.wasReset {
        OneStep(n1, recover[0]);
      }
      var n2 := Steps(FULL_TABLE, n1, recover);
      assert Matches(AfterReset(c, p), n2);
      TelemetryMatches(AfterReset(c, p), n2, staleMs, p);
  }

  lemma OneStep(n: Node, e: StreamEvent)
    ensures Steps(FULL_TABLE, n, [e]) == Step(FULL_TABLE, n, e)
  {
    hide Step;
    assert [e][1..] == [];
  }

  lemma {:induction false} RunMatches(staleMs: nat, b: Board, n: Node, run: Run, k: nat)
    requires k <= |run| && Matches(b, n)
    ensures Matches(BoardAt(staleMs, b, run, k), Steps(FULL_TABLE, n, Events(run, k)))
    decreases k
  {
    hide Matches, Happen, EventsOf;
    if k == 0 {
    } else {
      RunMatches(staleMs, b, n, run, k - 1);
      var m := Steps(FULL_TABLE, n, Events(run, k - 1));
      HappeningMatches(staleMs, BoardAt(staleMs, b, run, k - 1), m, run[k - 1]);
      StepsAppend(FULL_TABLE, n, Events(run, k - 1), EventsOf(run[k - 1]));
    }
  }

  function PowerOn(mask: byte, imu: State): Board {
    Board(Link([], []), mask, imu, 0, [])
  }

  /** In every run, whatever telemetry goes out in between, the responses sent answer the commands
      decoded so far one to one and in order. */
  lemma CommandsAnswered(staleMs: nat, mask: byte, imu: State, run: Run)
    ensures var b := BoardAt(staleMs, PowerOn(mask, imu), run, |run|);
      var n := Steps(FULL_TABLE, Boot(mask), Events(run, |run|));
      && AnswersAll(FULL_TABLE, CommandsOf(n.packets), WithId(b.sent, COMMAND_RESPONSE))
      && FramesIn(Arrived(Events(run, |run|))) == n.frames + FramesIn(Stream(b.link))
  {
    var b := BoardAt(staleMs, PowerOn(mask, imu), run, |run|);
    RunMatches(staleMs, PowerOn(mask, imu), Boot(mask), run, |run|);
    ScheduleIndependence(FULL_TABLE, mask, Events(run, |run|));
  }
}
