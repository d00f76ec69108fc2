/** The command protocol end to end: the driver, the firmware and two lossy in-order links. */
module Protocol {
  import opened Base
  import opened Packets
  import opened Commands
  import opened Driver
  import Imu

  /** A packet on a link, with the number of the attempt it belongs to. Neither side sees the number. */
  datatype Message = Message(packet: Packet, attempt: nat)
  datatype Execution = Execution(attempt: nat, id: byte, result: byte)
  datatype Return = Return(attempt: nat, id: byte, answer: Answer)

  /** Where `send_command` is: not called, about to start or give up an attempt, writing, waiting. */
  datatype Phase = Idle | Ready | Sending | Waiting

  /** The driver (`pi`, `phase`, `id`, `tries`), the links, the firmware (`mask`), and four histories:
      the commands of all attempts so far, what the firmware executed, the attempts whose promise
      was set, and the answers that ended a call. */
  datatype System = System(
    pi: Requester, phase: Phase, id: byte, tries: nat,
    down: seq<Message>, up: seq<Message>, mask: byte,
    issued: seq<byte>, executed: seq<Execution>, fulfilled: seq<nat>, returned: seq<Return>)

  datatype Step =
    | Call(id: byte)
    | StartAttempt
    | GiveUp
    | Send(ok: bool, reached: bool)
    | Timeout
    | Wake
    | LoseDown(i: nat)
    | LoseUp(i: nat)
    | FirmwarePoll(outcome: Imu.Outcome)
    | ImuReset(configured: bool, outcome: Imu.Outcome)
    | Report(packet: Packet)
    | Deliver

  /** The ids the three services pass to `send_command`. */
  predicate Known(id: byte) {
    id in {CALIBRATION_START, CALIBRATION_SAVE, CALIBRATION_STOP}
  }

  predicate Enabled(retries: nat, s: System, e: Step) {
    match e
    case Call(id) => s.phase.Idle? && Known(id)
    case StartAttempt => s.phase.Ready? && s.tries < retries
    case GiveUp => s.phase.Ready? && s.tries >= retries
    case Send(_, _) => s.phase.Sending?
    case Timeout => s.phase.Waiting? && s.pi.future == None
    case Wake => s.phase.Waiting? && s.pi.future.Some?
    case LoseDown(i) => i < |s.down|
    case LoseUp(i) => i < |s.up|
    case FirmwarePoll(_) => s.down != [] && IsCommand(s.down[0].packet)
    case ImuReset(_, _) => true
    case Report(p) => p.packetId != COMMAND_RESPONSE
    case Deliver => s.up != []
  }

  /** What the firmware does for a command, as the history records it. */
  function Executing(m: Message, mask: byte, o: Imu.Outcome): Execution
    requires IsCommand(m.packet)
  {
    match Lookup(FULL_TABLE, m.packet.payload[0])
    case None => Execution(m.attempt, m.packet.payload[0], UNKNOWN_COMMAND)
    case Some(h) => Execution(m.attempt, m.packet.payload[0], Run(h, mask, o).1)
  }

  function Replies(m: Message, mask: byte, o: Imu.Outcome): seq<Message> {
    match Dispatch(FULL_TABLE, m.packet, mask, o).1
    case None => []
    case Some(r) => [Message(r, m.attempt)]
  }

  function Remove<T>(q: seq<T>, i: nat): seq<T>
    requires i < |q|
  {
    q[..i] + q[i + 1..]
  }

  /** The frame of the current attempt. */
  function Outgoing(s: System): Message {
    Message(CommandPacket(s.id, s.pi.commandSeq, 0), |s.issued|)
  }

  function Apply(retries: nat, s: System, e: Step): System
    requires Enabled(retries, s, e)
  {
    match e
    case Call(id) => s.(phase := Ready, id := id, tries := 0)
    case StartAttempt => s.(pi := Begin(s.pi), phase := Sending, issued := s.issued + [s.id])
    case GiveUp => s.(phase := Idle)
    case Send(ok, reached) =>
      s.(phase := if ok then Waiting else Idle, down := if ok || reached then s.down + [Outgoing(s)] else s.down)
    case Timeout => s.(phase := Ready, tries := s.tries + 1)
    case Wake => s.(phase := Idle, returned := s.returned + [Return(|s.issued|, s.id, s.pi.future.value)])
    case LoseDown(i) => s.(down := Remove(s.down, i))
    case LoseUp(i) => s.(up := Remove(s.up, i))
    case FirmwarePoll(o) =>
      s.(down := s.down[1..],
         up := s.up + Replies(s.down[0], s.mask, o),
         mask := Dispatch(FULL_TABLE, s.down[0].packet, s.mask, o).0,
         executed := s.executed + [Executing(s.down[0], s.mask, o)])
    case ImuReset(configured, o) => s.(mask := Imu.MaskAfterReset(s.mask, configured, o))
    case Report(p) => s.(up := s.up + [Message(p, 0)])
    case Deliver =>
      s.(pi := Receive(s.pi, s.up[0].packet),
         up := s.up[1..],
         fulfilled := if Accepted(s.pi, s.up[0].packet) then s.fulfilled + [|s.issued|] else s.fulfilled)
  }

  /** How many attempts the driver has started since the one a message belongs to. */
  function Age(s: System, m: Message): int {
    |s.issued| - m.attempt
  }

  /** What is assumed about responses: nothing, that they are delivered while fewer than 256 attempts
      old, or just that no promise is pending when one arrives that is a multiple of 256 attempts old. */
  datatype Links = AnyDelay | Young | NoReuse

  predicate Admits(links: Links, s: System, e: Step) {
    e.Deliver? && s.up != [] && s.up[0].packet.packetId == COMMAND_RESPONSE ==>
      match links
      case AnyDelay => true
      case Young => Age(s, s.up[0]) < 256
      case NoReuse => !(s.pi.pending && Age(s, s.up[0]) > 0 && Age(s, s.up[0]) % 256 == 0)
  }

  /** The steps `es` lead from `s` to `t`. */
  predicate Path(retries: nat, links: Links, s: System, es: seq<Step>, t: System)
    decreases |es|
  {
    if es == [] then s == t
    else
      && Enabled(retries, s, es[0])
      && Admits(links, s, es[0])
      && Path(retries, links, Apply(retries, s, es[0]), es[1..], t)
  }

  /** Both sides have just started. */
  function Boot(mask: byte): System {
    System(Requester(0, 0, false, None), Idle, 0, 0, [], [], mask, [], [], [], [])
  }

  // ----- what every step keeps -----

  ghost predicate Numbered(s: System) {
    && s.pi.commandSeq == s.pi.pendingSeq == Counter(|s.issued|)
    && (s.pi.pending ==> s.issued != [] && s.pi.future == None)
    && (forall a :: 0 <= a < |s.issued| ==> Known(s.issued[a]))
    && (!s.phase.Idle? ==> Known(s.id))
    && (s.phase.Sending? || s.phase.Waiting? ==> s.issued != [] && s.issued[|s.issued| - 1] == s.id)
  }

  predicate Issued(issued: seq<byte>, a: nat, id: byte) {
    1 <= a <= |issued| && issued[a - 1] == id
  }

  predicate IsFrame(issued: seq<byte>, m: Message) {
    1 <= m.attempt <= |issued| && m.packet == CommandPacket(issued[m.attempt - 1], Counter(m.attempt), 0)
  }

  /** The frames under way belong to ever later attempts. */
  ghost predicate Downlink(s: System) {
    && (forall i :: 0 <= i < |s.down| ==> IsFrame(s.issued, s.down[i]))
    && (forall i, j :: 0 <= i < j < |s.down| ==> s.down[i].attempt < s.down[j].attempt)
    && (s.phase.Sending? ==> forall i :: 0 <= i < |s.down| ==> s.down[i].attempt < |s.issued|)
  }

  /** Each attempt is executed at most once, in order, before the ones still under way. */
  ghost predicate Executions(s: System) {
    && (forall i :: 0 <= i < |s.executed| ==> Issued(s.issued, s.executed[i].attempt, s.executed[i].id))
    && (forall i :: 0 <= i < |s.executed| ==> s.executed[i].result in {OK, SENSOR_ERROR, INVALID_STATE})
    && (forall i, j :: 0 <= i < j < |s.executed| ==> s.executed[i].attempt < s.executed[j].attempt)
    && (forall i, j :: 0 <= i < |s.executed| && 0 <= j < |s.down| ==> s.executed[i].attempt < s.down[j].attempt)
    && (s.phase.Sending? ==> forall i :: 0 <= i < |s.executed| ==> s.executed[i].attempt < |s.issued|)
  }

  /** What the successful START and STOP commands so far amount to. */
  function CalibratingAfter(executed: seq<Execution>): bool {
    if executed == [] then false
    else
      var x := executed[|executed| - 1];
      if x.result == OK && x.id == CALIBRATION_START then true
      else if x.result == OK && x.id == CALIBRATION_STOP then false
      else CalibratingAfter(executed[..|executed| - 1])
  }

  /** Exactly the SAVE commands that arrive while not calibrating are refused. */
  predicate Refusals(executed: seq<Execution>) {
    executed != [] ==>
      var x, before := executed[|executed| - 1], executed[..|executed| - 1];
      && (x.result == INVALID_STATE <==> x.id == CALIBRATION_SAVE && !CalibratingAfter(before))
      && Refusals(before)
  }

  ghost predicate Effect(s: System) {
    Imu.Calibrating(s.mask) == CalibratingAfter(s.executed) && Refusals(s.executed)
  }

  /** A payload that reports the execution of attempt `a`. */
  predicate Reports(executed: seq<Execution>, a: nat, payload: seq<byte>) {
    |payload| == 3 && payload[1] == Counter(a) && Execution(a, payload[0], payload[2]) in executed
  }

  ghost predicate Uplink(s: System) {
    forall i :: 0 <= i < |s.up| && s.up[i].packet.packetId == COMMAND_RESPONSE ==>
      Reports(s.executed, s.up[i].attempt, s.up[i].packet.payload)
  }

  /** No promise is set twice. */
  ghost predicate Promises(s: System) {
    && (forall i :: 0 <= i < |s.fulfilled| ==> 1 <= s.fulfilled[i] <= |s.issued|)
    && (forall i, j :: 0 <= i < j < |s.fulfilled| ==> s.fulfilled[i] < s.fulfilled[j])
    && (s.pi.pending ==> forall i :: 0 <= i < |s.fulfilled| ==> s.fulfilled[i] < |s.issued|)
  }

  ghost predicate Inv(s: System) {
    Numbered(s) && Downlink(s) && Executions(s) && Effect(s) && Uplink(s) && Promises(s)
  }

  /** Every answer the driver took is the answer to the attempt it took it for. */
  ghost predicate Sound(s: System) {
    && (s.pi.future.Some? ==> Reports(s.executed, |s.issued|, s.pi.future.value))
    && (forall i :: 0 <= i < |s.returned| ==>
         && Issued(s.issued, s.returned[i].attempt, s.returned[i].id)
         && Reports(s.executed, s.returned[i].attempt, s.returned[i].answer))
  }

  lemma CounterStep(issued: seq<byte>, id: byte)
    ensures Counter(|issued + [id]|) == Next(Counter(|issued|))
  {
  }

  lemma KeepsNumbered(retries: nat, s: System, e: Step)
    requires Numbered(s) && Enabled(retries, s, e)
    ensures Numbered(Apply(retries, s, e))
  {
    hide Replies, Executing, Dispatch, CommandPacket, Counter, Known;
    CounterStep(s.issued, s.id);
  }

  /** A frame stays one as further attempts are made, and the one being sent is one. */
  lemma Frames(s: System)
    requires Numbered(s)
    ensures forall m :: IsFrame(s.issued, m) ==> IsFrame(s.issued + [s.id], m)
    ensures forall m :: IsFrame(s.issued, m) ==> 1 <= m.attempt <= |s.issued|
    ensures s.phase.Sending? ==> IsFrame(s.issued, Message(CommandPacket(s.id, s.pi.commandSeq, 0), |s.issued|))
  {
    hide CommandPacket, Counter;
  }

  lemma KeepsDownlink(retries: nat, s: System, e: Step)
    requires Numbered(s) && Downlink(s) && Enabled(retries, s, e)
    ensures Downlink(Apply(retries, s, e))
  {
    hide IsFrame, Replies, Executing, Dispatch, CommandPacket, Counter, Known, Receive, Begin;
    Frames(s);
  }

  lemma KeepsPromises(retries: nat, s: System, e: Step)
    requires Numbered(s) && Promises(s) && Enabled(retries, s, e)
    ensures Promises(Apply(retries, s, e))
  {
    hide Replies, Executing, Dispatch, CommandPacket, Counter, Known, Next;
  }

  /** The firmware knows every command the driver sends. */
  lemma ExecutingFrame(issued: seq<byte>, m: Message, mask: byte, o: Imu.Outcome)
    requires IsFrame(issued, m) && Known(issued[m.attempt - 1])
    ensures var x := Executing(m, mask, o);
      && x.attempt == m.attempt && x.id == issued[m.attempt - 1]
      && x.result in {OK, SENSOR_ERROR, INVALID_STATE}
  {
    FullTable(issued[m.attempt - 1]);
    RunMeaning(StartCalibration, mask, o);
    RunMeaning(SaveCalibration, mask, o);
    RunMeaning(StopCalibration, mask, o);
  }

  lemma PollExecutes(retries: nat, s: System, o: Imu.Outcome)
    requires Numbered(s) && Downlink(s) && Executions(s) && Enabled(retries, s, FirmwarePoll(o))
    ensures Executions(Apply(retries, s, FirmwarePoll(o)))
  {
    hide IsFrame, Replies, Executing, Dispatch, CommandPacket, Counter, Known, Accepted;
    Frames(s);
    ExecutingFrame(s.issued, s.down[0], s.mask, o);
  }

  lemma KeepsExecutions(retries: nat, s: System, e: Step)
    requires Numbered(s) && Downlink(s) && Executions(s) && Enabled(retries, s, e)
    ensures Executions(Apply(retries, s, e))
  {
    hide Numbered, Downlink, IsFrame, Replies, Executing, Dispatch, CommandPacket, Receive, Begin;
    if e.FirmwarePoll? {
      PollExecutes(retries, s, e.outcome);
    }
  }

  /** What one execution says about the state of the firmware. */
  predicate Tells(x: Execution, mask: byte, after: byte) {
    && (x.result == OK && x.id == CALIBRATION_START ==> Imu.Calibrating(after))
    && (x.result == OK && x.id == CALIBRATION_STOP ==> !Imu.Calibrating(after))
    && (x.result != OK || x.id == CALIBRATION_SAVE ==> after == mask)
    && (x.result == INVALID_STATE <==> x.id == CALIBRATION_SAVE && !Imu.Calibrating(mask))
    && Known(x.id)
  }

  lemma ExecutingTells(m: Message, issued: seq<byte>, mask: byte, o: Imu.Outcome)
    requires IsFrame(issued, m) && Known(issued[m.attempt - 1])
    ensures Tells(Executing(m, mask, o), mask, Dispatch(FULL_TABLE, m.packet, mask, o).0)
  {
    hide Imu.Calibrating, Run;
    FullTable(issued[m.attempt - 1]);
    RunMeaning(StartCalibration, mask, o);
    RunMeaning(SaveCalibration, mask, o);
    RunMeaning(StopCalibration, mask, o);
  }

  lemma ExecutingEffect(executed: seq<Execution>, x: Execution, mask: byte, after: byte)
    requires Tells(x, mask, after)
    requires Imu.Calibrating(mask) == CalibratingAfter(executed) && Refusals(executed)
    ensures Imu.Calibrating(after) == CalibratingAfter(executed + [x]) && Refusals(executed + [x])
  {
    hide Imu.Calibrating;
    assert (executed + [x])[..|executed + [x]| - 1] == executed;
  }

  lemma PollEffect(retries: nat, s: System, o: Imu.Outcome)
    requires Numbered(s) && Downlink(s) && Effect(s) && Enabled(retries, s, FirmwarePoll(o))
    ensures Effect(Apply(retries, s, FirmwarePoll(o)))
  {
    hide IsFrame, Replies, Executing, Dispatch, Known, CalibratingAfter, Refusals, Imu.Calibrating, Tells;
    Frames(s);
    var m := s.down[0];
    ExecutingTells(m, s.issued, s.mask, o);
    ExecutingEffect(s.executed, Executing(m, s.mask, o), s.mask, Dispatch(FULL_TABLE, m.packet, s.mask, o).0);
  }

  lemma ResetEffect(retries: nat, s: System, configured: bool, o: Imu.Outcome)
    requires Effect(s)
    ensures Effect(Apply(retries, s, ImuReset(configured, o)))
  {
    hide CalibratingAfter, Refusals, Imu.Calibrating, Imu.MaskAfterReset;
    Imu.ResetKeepsCalibrating(s.mask, configured, o);
  }

  lemma KeepsEffect(retries: nat, s: System, e: Step)
    requires Numbered(s) && Downlink(s) && Effect(s) && Enabled(retries, s, e)
    ensures Effect(Apply(retries, s, e))
  {
    hide Numbered, Downlink, Replies, Executing, Dispatch, CommandPacket, Receive, Begin;
    hide CalibratingAfter, Refusals, Imu.Calibrating, Imu.MaskAfterReset;
    match e
    case FirmwarePoll(o) => PollEffect(retries, s, o);
    case ImuReset(configured, o) => ResetEffect(retries, s, configured, o);
    case _ =>
  }

  /** The response tells what was executed. */
  lemma RepliesReport(issued: seq<byte>, m: Message, mask: byte, o: Imu.Outcome)
    requires IsFrame(issued, m)
    ensures Replies(m, mask, o) == [Message(Response(m.packet, Executing(m, mask, o).result), m.attempt)]
    ensures Executing(m, mask, o).attempt == m.attempt && Executing(m, mask, o).id == issued[m.attempt - 1]
  {
  }

  lemma KeepsUplink(retries: nat, s: System, e: Step)
    requires Numbered(s) && Downlink(s) && Uplink(s) && Enabled(retries, s, e)
    ensures Uplink(Apply(retries, s, e))
  {
    hide Replies, Executing, Dispatch, Counter, Known, Receive, Next;
    if e.FirmwarePoll? {
      RepliesReport(s.issued, s.down[0], s.mask, e.outcome);
    }
  }

  /** Responses on the link belong to attempts that were made. */
  lemma ResponseAge(s: System, m: Message)
    requires Inv(s) && m in s.up && m.packet.packetId == COMMAND_RESPONSE
    ensures 0 <= Age(s, m) < |s.issued|
  {
    hide Numbered, Downlink, Effect, Promises, Counter;
  }

  /** Which responses end the wait, in any run: those whose attempt number agrees modulo 256. */
  lemma AcceptedIff(s: System, m: Message)
    requires Inv(s) && m in s.up && m.packet.packetId == COMMAND_RESPONSE
    ensures Accepted(s.pi, m.packet) <==> s.pi.pending && m.attempt % 256 == |s.issued| % 256
  {
    CounterReuse(m.attempt, |s.issued|);
  }

  /** A response is taken for another attempt's exactly if a promise is pending and the response is
      a positive multiple of 256 attempts old. */
  lemma AcceptedForAnother(s: System, m: Message)
    requires Inv(s) && m in s.up && m.packet.packetId == COMMAND_RESPONSE
    ensures Accepted(s.pi, m.packet) && m.attempt != |s.issued| <==>
      s.pi.pending && Age(s, m) > 0 && Age(s, m) % 256 == 0
  {
    hide Inv, Accepted;
    AcceptedIff(s, m);
    ResponseAge(s, m);
    SameResidue(m.attempt, |s.issued|);
  }

  lemma SameResidue(m: nat, n: nat)
    ensures m % 256 == n % 256 <==> (n - m) % 256 == 0
  {
  }

  lemma KeepsSound(retries: nat, s: System, e: Step)
    requires Inv(s) && Sound(s) && Enabled(retries, s, e) && Admits(NoReuse, s, e)
    ensures Sound(Apply(retries, s, e))
  {
    hide Replies, Executing, Dispatch, Counter, Known, Next, CommandPacket, Downlink, Executions, Effect, Promises;
    if e.Deliver? && Accepted(s.pi, s.up[0].packet) {
      AcceptedForAnother(s, s.up[0]);
    }
  }

  lemma Booted(mask: byte)
    requires !Imu.Calibrating(mask)
    ensures Inv(Boot(mask)) && Sound(Boot(mask))
  {
    hide Imu.Calibrating;
  }

  lemma Keeps(retries: nat, s: System, e: Step)
    requires Inv(s) && Enabled(retries, s, e)
    ensures Inv(Apply(retries, s, e))
    ensures Sound(s) && Admits(NoReuse, s, e) ==> Sound(Apply(retries, s, e))
  {
    hide Enabled, Apply, Numbered, Downlink, Executions, Effect, Uplink, Promises, Sound, Admits;
    KeepsNumbered(retries, s, e);
    KeepsDownlink(retries, s, e);
    KeepsExecutions(retries, s, e);
    KeepsEffect(retries, s, e);
    KeepsUplink(retries, s, e);
    KeepsPromises(retries, s, e);
    if Sound(s) && Admits(NoReuse, s, e) {
      KeepsSound(retries, s, e);
    }
  }

  /** Every run keeps the invariants. */
  lemma {:induction false} PathKeeps(retries: nat, links: Links, s: System, es: seq<Step>, t: System)
    requires Inv(s) && Path(retries, links, s, es, t)
    ensures Inv(t)
    decreases |es|
  {
    hide Enabled, Apply, Inv, Admits;
    if es == [] {
    } else {
      Keeps(retries, s, es[0]);
      PathKeeps(retries, links, Apply(retries, s, es[0]), es[1..], t);
    }
  }

  /** A run is bounded if its responses are, or if it has at most 256 attempts. */
  predicate Bounded(links: Links, t: System) {
    links != AnyDelay || |t.issued| <= 256
  }

  /** Delivering young responses reuses no sequence number, and with at most 256 attempts all
      responses are young. */
  lemma BoundedStep(links: Links, s: System, e: Step)
    requires Inv(s) && Admits(links, s, e) && Bounded(links, s)
    ensures Admits(NoReuse, s, e)
  {
    hide Inv;
    if e.Deliver? && s.up != [] && s.up[0].packet.packetId == COMMAND_RESPONSE {
      ResponseAge(s, s.up[0]);
    }
  }

  /** Bounded runs keep all answers sound. */
  lemma {:induction false} PathSound(retries: nat, links: Links, s: System, es: seq<Step>, t: System)
    requires Inv(s) && Sound(s) && Path(retries, links, s, es, t) && Bounded(links, t)
    ensures Sound(t)
    decreases |es|
  {
    hide Enabled, Apply, Inv, Sound, Admits;
    if es == [] {
    } else {
      PathGrows(retries, links, s, es, t);
      BoundedStep(links, s, es[0]);
      Keeps(retries, s, es[0]);
      PathSound(retries, links, Apply(retries, s, es[0]), es[1..], t);
    }
  }

  /** Histories only grow. */
  lemma {:induction false} PathGrows(retries: nat, links: Links, s: System, es: seq<Step>, t: System)
    requires Path(retries, links, s, es, t)
    ensures s.issued <= t.issued && s.executed <= t.executed && s.returned <= t.returned
    decreases |es|
  {
    if es == [] {
    } else {
      PathGrows(retries, links, Apply(retries, s, es[0]), es[1..], t);
    }
  }

  // ----- what the driver reports is what happened -----

  lemma OneExecution(s: System, x: Execution, y: Execution)
    requires Executions(s) && x in s.executed && y in s.executed && x.attempt == y.attempt
    ensures x == y
  {
  }

  /** Only SAVE is ever refused. */
  lemma {:induction false} RefusedIsSave(executed: seq<Execution>, x: Execution)
    requires Refusals(executed) && x in executed && x.result == INVALID_STATE
    ensures x.id == CALIBRATION_SAVE
  {
    if x == executed[|executed| - 1] {
    } else {
      assert executed == executed[..|executed| - 1] + [executed[|executed| - 1]];
      RefusedIsSave(executed[..|executed| - 1], x);
    }
  }

  /** A return is truthful if its answer is the answer to the last attempt of its own call: the
      firmware executed exactly that frame, and the answer is what its handler returned. */
  ghost predicate Truthful(t: System, r: Return) {
    && Issued(t.issued, r.attempt, r.id)
    && |r.answer| == 3 && r.answer[..2] == [r.id, Counter(r.attempt)]
    && forall x :: x in t.executed && x.attempt == r.attempt <==> x == Execution(r.attempt, r.id, r.answer[2])
  }

  lemma SoundReturn(t: System, r: Return)
    requires Executions(t) && Sound(t) && r in t.returned
    ensures Truthful(t, r)
  {
    hide Counter;
    var x := Execution(r.attempt, r.answer[0], r.answer[2]);
    assert x in t.executed && x.id == r.id;
    forall y | y in t.executed && y.attempt == r.attempt
      ensures y == x
    {
      OneExecution(t, x, y);
    }
  }

  /** In every bounded run a call that ends with an answer ends with a truthful one; in particular
      success is reported exactly if the firmware executed the attempt successfully. */
  lemma CommandCorrect(retries: nat, links: Links, mask: byte, es: seq<Step>, t: System, r: Return)
    requires !Imu.Calibrating(mask) && Path(retries, links, Boot(mask), es, t) && Bounded(links, t) && r in t.returned
    ensures Truthful(t, r)
    ensures FromCode(r.answer[2]) == Executed <==> Execution(r.attempt, r.id, OK) in t.executed
    ensures FromCode(r.answer[2]) in {Executed, SensorError, InvalidState}
    ensures FromCode(r.answer[2]) == InvalidState ==> r.id == CALIBRATION_SAVE
  {
    Booted(mask);
    PathKeeps(retries, links, Boot(mask), es, t);
    PathSound(retries, links, Boot(mask), es, t);
    SoundReturn(t, r);
    hide Path, Imu.Calibrating, CalibratingAfter, Refusals, Counter, Issued, Sound;
    var x := Execution(r.attempt, r.id, r.answer[2]);
    assert x in t.executed && x.attempt == r.attempt;
    if x.result == INVALID_STATE {
      RefusedIsSave(t.executed, x);
    }
  }

  /** In every run, bounded or not, a promise is set at most once and a frame executed at most once. */
  lemma AtMostOnce(retries: nat, mask: byte, es: seq<Step>, t: System)
    requires !Imu.Calibrating(mask) && Path(retries, AnyDelay, Boot(mask), es, t)
    ensures forall i, j :: 0 <= i < j < |t.fulfilled| ==> t.fulfilled[i] != t.fulfilled[j]
    ensures forall i, j :: 0 <= i < j < |t.executed| ==> t.executed[i].attempt != t.executed[j].attempt
  {
    Booted(mask);
    PathKeeps(retries, AnyDelay, Boot(mask), es, t);
  }

  // ----- a successful START or STOP is a barrier -----

  function Opposite(id: byte): byte {
    if id == CALIBRATION_START then CALIBRATION_STOP else CALIBRATION_START
  }

  lemma {:induction false} EffectLasts(executed: seq<Execution>, k: nat)
    requires k < |executed| && executed[k].result == OK && executed[k].id in {CALIBRATION_START, CALIBRATION_STOP}
    requires forall i :: k < i < |executed| ==>
      !(executed[i].id == Opposite(executed[k].id) && executed[i].result == OK)
    ensures CalibratingAfter(executed) <==> executed[k].id == CALIBRATION_START
  {
    if k == |executed| - 1 {
    } else {
      EffectLasts(executed[..|executed| - 1], k);
    }
  }

  /** Once START (or STOP) was reported successful, the firmware stays calibrating (or not) in every
      later state, until the opposite command of a later attempt is executed successfully. */
  lemma Barrier(retries: nat, links: Links, mask: byte, es: seq<Step>, s: System, es': seq<Step>, t: System, r: Return)
    requires !Imu.Calibrating(mask) && Path(retries, links, Boot(mask), es, s) && Bounded(links, s) && r in s.returned
    requires r.id in {CALIBRATION_START, CALIBRATION_STOP} && |r.answer| == 3 && FromCode(r.answer[2]) == Executed
    requires Path(retries, AnyDelay, s, es', t)
    requires forall x :: x in t.executed && x.attempt > r.attempt && x.id == Opposite(r.id) ==> x.result != OK
    ensures Imu.Calibrating(t.mask) <==> r.id == CALIBRATION_START
  {
    CommandCorrect(retries, links, mask, es, s, r);
    Booted(mask);
    PathKeeps(retries, links, Boot(mask), es, s);
    PathKeeps(retries, AnyDelay, s, es', t);
    PathGrows(retries, AnyDelay, s, es', t);
    hide Path, Imu.Calibrating, CalibratingAfter, Refusals, Counter;
    var x := Execution(r.attempt, r.id, OK);
    var k :| 0 <= k < |s.executed| && s.executed[k] == x;
    EffectLasts(t.executed, k);
  }

  lemma {:induction false} RefusalAt(executed: seq<Execution>, k: nat)
    requires Refusals(executed) && k < |executed|
    ensures executed[k].result == INVALID_STATE <==>
              executed[k].id == CALIBRATION_SAVE && !CalibratingAfter(executed[..k])
  {
    if k == |executed| - 1 {
    } else {
      RefusalAt(executed[..|executed| - 1], k);
      assert executed[..|executed| - 1][..k] == executed[..k];
    }
  }

  /** A SAVE is reported refused exactly if the firmware was not calibrating when it executed it. */
  lemma SaveVerdict(retries: nat, links: Links, mask: byte, es: seq<Step>, t: System, r: Return, k: nat)
    requires !Imu.Calibrating(mask) && Path(retries, links, Boot(mask), es, t) && Bounded(links, t) && r in t.returned
    requires r.id == CALIBRATION_SAVE && |r.answer| == 3
    requires k < |t.executed| && t.executed[k].attempt == r.attempt
    ensures FromCode(r.answer[2]) == InvalidState <==> !CalibratingAfter(t.executed[..k])
  {
    CommandCorrect(retries, links, mask, es, t, r);
    Booted(mask);
    PathKeeps(retries, links, Boot(mask), es, t);
    hide Path, Imu.Calibrating, CalibratingAfter, Counter, Refusals;
    assert t.executed[k] in t.executed;
    RefusalAt(t.executed, k);
  }
}
