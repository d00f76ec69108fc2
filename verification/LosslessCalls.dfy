/** Without loss every call completes, whatever else happens meanwhile. */
module LosslessCalls {
  import opened Base
  import opened Packets
  import opened Commands
  import opened Driver
  import opened Protocol
  import Imu

  /** Nothing is lost, no write fails and no wait times out. */
  predicate Lossless(e: Step) {
    match e
    case LoseDown(_) => false
    case LoseUp(_) => false
    case Timeout => false
    case Send(ok, _) => ok
    case _ => true
  }

  function CallsIn(es: seq<Step>): nat {
    if es == [] then 0 else (if es[0].Call? then 1 else 0) + CallsIn(es[1..])
  }

  function ResponseOf(m: Message): seq<Message> {
    if m.packet.packetId == COMMAND_RESPONSE then [m] else []
  }

  function ResponsesOf(up: seq<Message>): seq<Message> {
    if up == [] then [] else ResponseOf(up[0]) + ResponsesOf(up[1..])
  }

  lemma {:induction false} ResponsesAppend(a: seq<Message>, m: Message)
    ensures ResponsesOf(a + [m]) == ResponsesOf(a) + ResponseOf(m)
    decreases |a|
  {
    hide ResponseOf;
    if a == [] {
      assert (a + [m])[1..] == [];
      Empty(ResponseOf(m));
    } else {
      assert (a + [m])[1..] == a[1..] + [m];
      ResponsesAppend(a[1..], m);
      Assoc(ResponseOf(a[0]), ResponsesOf(a[1..]), ResponseOf(m));
    }
  }

  /** When the handler of command `id` succeeds, given whether calibration is on. */
  predicate Succeeds(id: byte, calibrating: bool, o: Imu.Outcome) {
    if id == CALIBRATION_START then calibrating || (o.reportOk && o.configOk)
    else if id == CALIBRATION_SAVE then calibrating && o.saveOk
    else !calibrating || (o.reportOk && o.configOk)
  }

  /** How far the one call of a lossless run has come; `x` is the execution of its attempt, and `o`
      how the sensor answered it. */
  datatype Stage =
    | Before
    | Called
    | Opened
    | Sent
    | Performed(x: Execution, o: Imu.Outcome)
    | Answered(x: Execution, o: Imu.Outcome)
    | Done(x: Execution, o: Imu.Outcome)

  /** The only attempt of the call. */
  function Frame(s: System, id: byte): Message {
    Message(CommandPacket(id, Counter(|s.issued| + 1), 0), |s.issued| + 1)
  }

  function AnswerTo(s: System, x: Execution): Answer {
    [x.id, Counter(|s.issued| + 1), x.result]
  }

  function ResponseTo(s: System, x: Execution): Message {
    Message(Packet(COMMAND_RESPONSE, IMU_01, AnswerTo(s, x)), |s.issued| + 1)
  }

  /** `t` is the state at a stage of a call of `id` that started in `s`. */
  predicate At(s: System, id: byte, g: Stage, t: System) {
    && t.issued == s.issued + (if g.Before? || g.Called? then [] else [id])
    && t.executed == s.executed + (if g.Performed? || g.Answered? || g.Done? then [g.x] else [])
    && t.returned == s.returned + (if g.Done? then [Return(|s.issued| + 1, id, AnswerTo(s, g.x))] else [])
    && t.down == (if g.Sent? then [Frame(s, id)] else [])
    && ResponsesOf(t.up) == (if g.Performed? then [ResponseTo(s, g.x)] else [])
    && Known(id)
    && (if g.Performed? || g.Answered? || g.Done? then
          && g.x.attempt == |s.issued| + 1 && g.x.id == id
          && (g.x.result == OK <==> Succeeds(id, Imu.Calibrating(s.mask), g.o))
        else Imu.Calibrating(t.mask) == Imu.Calibrating(s.mask))
    && (g.Before? ==> t.pi.commandSeq == Counter(|s.issued|))
    && match g
       case Before => t.phase.Idle?
       case Called => t.phase.Ready? && t.tries == 0 && t.id == id && t.pi.commandSeq == Counter(|s.issued|)
       case Opened => t.phase.Sending? && t.id == id && Waits(s, t.pi)
       case Sent => t.phase.Waiting? && t.id == id && Waits(s, t.pi)
       case Performed(_, _) => t.phase.Waiting? && t.id == id && Waits(s, t.pi)
       case Answered(x, _) => t.phase.Waiting? && t.id == id && t.pi.future == Some(AnswerTo(s, x))
       case Done(_, _) => t.phase.Idle?
  }

  predicate Waits(s: System, pi: Requester) {
    pi.pending && pi.future == None && pi.commandSeq == pi.pendingSeq == Counter(|s.issued| + 1)
  }

  function NextStage(g: Stage, t: System, e: Step): Stage {
    match e
    case Call(_) => Called
    case StartAttempt => Opened
    case Send(_, _) => Sent
    case FirmwarePoll(o) =>
      if t.down != [] && IsCommand(t.down[0].packet) then Performed(Executing(t.down[0], t.mask, o), o) else g
    case Deliver =>
      if g.Performed? && t.up != [] && t.up[0].packet.packetId == COMMAND_RESPONSE then Answered(g.x, g.o) else g
    case Wake => if g.Answered? then Done(g.x, g.o) else g
    case _ => g
  }

  lemma DeliverStage(retries: nat, s: System, id: byte, g: Stage, t: System)
    requires At(s, id, g, t) && t.up != []
    ensures At(s, id, NextStage(g, t, Deliver), Apply(retries, t, Deliver))
  {
    hide Counter, ResponsesOf, Succeeds, Imu.Calibrating, Known;
    FirstResponse(t.up);
  }

  lemma FirstResponse(up: seq<Message>)
    requires up != []
    ensures up[0].packet.packetId == COMMAND_RESPONSE ==>
      && ResponsesOf(up) != [] && ResponsesOf(up)[0] == up[0]
      && (|ResponsesOf(up)| == 1 ==> ResponsesOf(up[1..]) == [])
    ensures up[0].packet.packetId != COMMAND_RESPONSE ==> ResponsesOf(up) == ResponsesOf(up[1..])
  {
    Empty(ResponsesOf(up[1..]));
  }

  /** The steps `send_command` takes itself. */
  lemma CallerStage(retries: nat, s: System, id: byte, g: Stage, t: System, e: Step)
    requires At(s, id, g, t) && retries > 0 && Enabled(retries, t, e) && Lossless(e)
    requires e.Call? || e.StartAttempt? || e.Send? || e.Wake? || e.GiveUp?
    requires e.Call? ==> g.Before? && e.id == id
    ensures At(s, id, NextStage(g, t, e), Apply(retries, t, e))
  {
    hide Counter, CommandPacket, Known, ResponsesOf;
    CounterStep(s.issued, id);
  }

  lemma ReportStage(retries: nat, s: System, id: byte, g: Stage, t: System, p: Packet)
    requires At(s, id, g, t) && p.packetId != COMMAND_RESPONSE
    ensures At(s, id, NextStage(g, t, Report(p)), Apply(retries, t, Report(p)))
  {
    hide Counter, ResponsesOf;
    ResponsesAppend(t.up, Message(p, 0));
  }

  lemma StageStep(retries: nat, s: System, id: byte, g: Stage, t: System, e: Step)
    requires At(s, id, g, t) && retries > 0 && Enabled(retries, t, e) && Lossless(e)
    requires e.Call? ==> g.Before? && e.id == id
    ensures At(s, id, NextStage(g, t, e), Apply(retries, t, e))
  {
    hide At;
    match e
    case Deliver => DeliverStage(retries, s, id, g, t);
    case Report(p) => ReportStage(retries, s, id, g, t, p);
    case FirmwarePoll(o) => PollStage(retries, s, id, g, t, o);
    case ImuReset(c, o) => ResetStage(retries, s, id, g, t, c, o);
    case _ => CallerStage(retries, s, id, g, t, e);
  }

  lemma ResetStage(retries: nat, s: System, id: byte, g: Stage, t: System, configured: bool, o: Imu.Outcome)
    requires At(s, id, g, t)
    ensures At(s, id, g, Apply(retries, t, ImuReset(configured, o)))
  {
    hide Imu.Calibrating, Imu.MaskAfterReset, Counter, ResponsesOf;
    Imu.ResetKeepsCalibrating(t.mask, configured, o);
  }

  lemma SucceedsIff(s: System, id: byte, mask: byte, o: Imu.Outcome)
    requires Known(id)
    ensures var x := Executing(Frame(s, id), mask, o);
      x.id == id && (x.result == OK <==> Succeeds(id, Imu.Calibrating(mask), o))
  {
    hide Counter, Commands.Run;
    FullTable(id);
    HandlerAnswers(StartCalibration, mask, o);
    HandlerAnswers(SaveCalibration, mask, o);
    HandlerAnswers(StopCalibration, mask, o);
  }

  lemma PollStage(retries: nat, s: System, id: byte, g: Stage, t: System, o: Imu.Outcome)
    requires At(s, id, g, t) && Enabled(retries, t, FirmwarePoll(o))
    ensures At(s, id, NextStage(g, t, FirmwarePoll(o)), Apply(retries, t, FirmwarePoll(o)))
  {
    hide Counter, Executing, Replies, Dispatch, ResponsesOf, Imu.Calibrating, Succeeds;
    var m := Frame(s, id);
    SucceedsIff(s, id, t.mask, o);
    RepliesReport(t.issued, m, t.mask, o);
    ResponsesAppend(t.up, ResponseTo(s, Executing(m, t.mask, o)));
  }

  lemma {:induction false} PathStages(retries: nat, s: System, id: byte, g: Stage, t: System, es: seq<Step>, u: System)
    returns (g': Stage)
    requires At(s, id, g, t) && retries > 0 && Path(retries, AnyDelay, t, es, u)
    requires forall e :: e in es ==> Lossless(e) && (e.Call? ==> e.id == id)
    requires CallsIn(es) <= if g.Before? then 1 else 0
    ensures At(s, id, g', u)
    ensures g'.Before? ==> g.Before? && CallsIn(es) == 0
    ensures g'.Performed? || g'.Answered? || g'.Done? ==>
      FirmwarePoll(g'.o) in es || ((g.Performed? || g.Answered? || g.Done?) && g'.o == g.o)
    decreases |es|
  {
    hide Enabled, Apply, At, Lossless, NextStage;
    if es == [] {
      g' := g;
    } else {
      var e := es[0];
      assert e in es;
      StageStep(retries, s, id, g, t, e);
      StageOrder(retries, s, id, g, t, e);
      g' := PathStages(retries, s, id, NextStage(g, t, e), Apply(retries, t, e), es[1..], u);
    }
  }

  lemma StageOrder(retries: nat, s: System, id: byte, g: Stage, t: System, e: Step)
    requires At(s, id, g, t) && Enabled(retries, t, e)
    ensures NextStage(g, t, e).Before? <==> g.Before? && !e.Call?
    ensures var g' := NextStage(g, t, e);
      g'.Performed? || g'.Answered? || g'.Done? ==>
        e == FirmwarePoll(g'.o) || ((g.Performed? || g.Answered? || g.Done?) && g'.o == g.o)
  {
  }

  /** Every run from a quiet idle state in which one command is called, nothing is lost and no wait
      times out, and which ends idle, executes the command once and returns the handler's result,
      whatever resets, reports and delays it contains. */
  lemma CallCompletes(retries: nat, s: System, id: byte, es: seq<Step>, t: System)
    returns (x: Execution, o: Imu.Outcome)
    requires Known(id) && Numbered(s) && s.phase.Idle? && s.down == [] && ResponsesOf(s.up) == [] && retries > 0
    requires Path(retries, AnyDelay, s, es, t) && t.phase.Idle?
    requires forall e :: e in es ==> Lossless(e) && (e.Call? ==> e.id == id)
    requires CallsIn(es) == 1
    ensures t.executed == s.executed + [x] && x.attempt == |s.issued| + 1 && x.id == id
    ensures t.returned == s.returned + [Return(|s.issued| + 1, id, [id, Counter(|s.issued| + 1), x.result])]
    ensures FirmwarePoll(o) in es && (x.result == OK <==> Succeeds(id, Imu.Calibrating(s.mask), o))
  {
    hide Path, Lossless, CallsIn, Succeeds, Imu.Calibrating;
    var g := PathStages(retries, s, id, Before, s, es, t);
    x, o := g.x, g.o;
  }

  /** With a healthy sensor such a START or STOP always succeeds. */
  lemma HealthyCallSucceeds(retries: nat, s: System, id: byte, es: seq<Step>, t: System)
    requires id in {CALIBRATION_START, CALIBRATION_STOP}
    requires Numbered(s) && s.phase.Idle? && s.down == [] && ResponsesOf(s.up) == [] && retries > 0
    requires Path(retries, AnyDelay, s, es, t) && t.phase.Idle?
    requires forall e :: e in es ==> Lossless(e) && (e.Call? ==> e.id == id)
    requires forall e :: e in es && e.FirmwarePoll? ==> e.outcome.reportOk && e.outcome.configOk
    requires CallsIn(es) == 1
    ensures t.returned == s.returned + [Return(|s.issued| + 1, id, [id, Counter(|s.issued| + 1), OK])]
  {
    hide Path, Lossless, CallsIn, Imu.Calibrating;
    var x, o := CallCompletes(retries, s, id, es, t);
    assert FirmwarePoll(o) in es;
  }
}
