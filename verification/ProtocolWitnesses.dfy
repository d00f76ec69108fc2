/** Runs that show what the command protocol can do, and where its promise ends. */
module ProtocolWitnesses {
  import opened Base
  import opened Packets
  import opened Commands
  import opened Driver
  import opened Protocol
  import Imu

  lemma {:induction false} Extend(retries: nat, links: Links, s: System, es: seq<Step>, t: System, e: Step)
    requires Path(retries, links, s, es, t) && Enabled(retries, t, e) && Admits(links, t, e)
    ensures Path(retries, links, s, es + [e], Apply(retries, t, e))
    decreases |es|
  {
    hide Enabled, Apply, Admits;
    var next := Apply(retries, t, e);
    if es == [] {
      assert ([e])[1..] == [];
      Empty([e]);
    } else {
      Extend(retries, links, Apply(retries, s, es[0]), es[1..], t, e);
      assert (es + [e])[1..] == es[1..] + [e];
    }
  }

  /** The state after a call has written the frame of its first attempt. */
  function Transmitted(s: System, id: byte): System {
    var a := |s.issued| + 1;
    s.(pi := Begin(s.pi), phase := Waiting, id := id, tries := 0, issued := s.issued + [id],
       down := s.down + [Message(CommandPacket(id, Counter(a), 0), a)])
  }

  lemma Transmit(retries: nat, links: Links, s: System, es: seq<Step>, t: System, id: byte) returns (es': seq<Step>)
    requires Path(retries, links, s, es, t)
    requires Numbered(t) && t.phase.Idle? && retries > 0 && Known(id)
    ensures Path(retries, links, s, es', Transmitted(t, id))
  {
    hide Path, Known, Counter, CommandPacket, Next;
    CounterStep(t.issued, id);
    var t1 := Apply(retries, t, Call(id));
    Extend(retries, links, s, es, t, Call(id));
    var t2 := Apply(retries, t1, StartAttempt);
    Extend(retries, links, s, es + [Call(id)], t1, StartAttempt);
    Extend(retries, links, s, es + [Call(id)] + [StartAttempt], t2, Send(true, true));
    es' := es + [Call(id)] + [StartAttempt] + [Send(true, true)];
  }

  /** The execution of the next attempt, if its frame arrives now. */
  function NextExecution(s: System, id: byte, o: Imu.Outcome): Execution {
    Executing(Message(CommandPacket(id, Counter(|s.issued| + 1), 0), |s.issued| + 1), s.mask, o)
  }

  /** The state after the firmware has also executed that frame. */
  function Performed(s: System, id: byte, o: Imu.Outcome): System {
    var a := |s.issued| + 1;
    var frame := CommandPacket(id, Counter(a), 0);
    var x := NextExecution(s, id, o);
    Transmitted(s, id).(
      down := s.down,
      up := s.up + [Message(Packet(COMMAND_RESPONSE, IMU_01, [id, Counter(a), x.result]), a)],
      mask := Dispatch(FULL_TABLE, frame, s.mask, o).0,
      executed := s.executed + [x])
  }

  lemma Perform(retries: nat, links: Links, s: System, es: seq<Step>, t: System, id: byte, o: Imu.Outcome)
    returns (es': seq<Step>)
    requires Path(retries, links, s, es, t)
    requires Numbered(t) && t.phase.Idle? && t.down == [] && retries > 0 && Known(id)
    ensures Path(retries, links, s, es', Performed(t, id, o))
  {
    hide Path, Known, Counter, Executing, Replies, Dispatch, Begin, Numbered;
    es' := Transmit(retries, links, s, es, t, id);
    var t1 := Transmitted(t, id);
    var m := Message(CommandPacket(id, Counter(|t.issued| + 1), 0), |t.issued| + 1);
    assert t1.down == [m];
    RepliesReport(t1.issued, m, t1.mask, o);
    Extend(retries, links, s, es', t1, FirmwarePoll(o));
    es' := es' + [FirmwarePoll(o)];
    var t2 := Apply(retries, t1, FirmwarePoll(o));
    assert t2.up == Performed(t, id, o).up && t2.down == t.down;
  }

  /** The state after the only response on the link has ended the call. */
  function Collected(s: System, m: Message): System {
    var a := |s.issued|;
    s.(pi := s.pi.(pending := false, future := Some(m.packet.payload)), phase := Idle, up := [],
       fulfilled := s.fulfilled + [a], returned := s.returned + [Return(a, s.id, m.packet.payload)])
  }

  lemma Collect(retries: nat, links: Links, s: System, es: seq<Step>, t: System, m: Message) returns (es': seq<Step>)
    requires Path(retries, links, s, es, t)
    requires t.phase.Waiting? && t.up == [m] && Accepted(t.pi, m.packet) && Admits(links, t, Deliver)
    ensures Path(retries, links, s, es', Collected(t, m))
  {
    hide Path, Age;
    Extend(retries, links, s, es, t, Deliver);
    Extend(retries, links, s, es + [Deliver], Apply(retries, t, Deliver), Wake);
    es' := es + [Deliver] + [Wake];
  }

  /** There is such a run: on quiet links a call can end with what its handler says, for every command
      and every way the sensor may answer. */
  lemma CommandReturns(retries: nat, s: System, id: byte, o: Imu.Outcome) returns (es: seq<Step>, t: System)
    requires Numbered(s) && s.phase.Idle? && s.down == [] && s.up == [] && retries > 0 && Known(id)
    ensures Path(retries, NoReuse, s, es, t) && t.phase.Idle?
    ensures var x := NextExecution(s, id, o);
      && t.executed == s.executed + [x]
      && t.returned == s.returned + [Return(|s.issued| + 1, id, [id, Counter(|s.issued| + 1), x.result])]
  {
    assert Path(retries, NoReuse, s, [], s);
    hide Path, Known, Counter, Next, NextExecution, Dispatch, CommandPacket;
    es := Perform(retries, NoReuse, s, [], s, id, o);
    var t1 := Performed(s, id, o);
    CounterStep(s.issued, id);
    es := Collect(retries, NoReuse, s, es, t1, t1.up[0]);
    t := Collected(t1, t1.up[0]);
  }

  /** A call with one attempt whose frame is lost. */
  function Lost(s: System, id: byte): System {
    s.(pi := Begin(s.pi), id := id, tries := 1, issued := s.issued + [id])
  }

  lemma Lose(s: System, es: seq<Step>, t: System, id: byte) returns (es': seq<Step>)
    requires Path(1, AnyDelay, s, es, t)
    requires Numbered(t) && t.phase.Idle? && t.down == [] && Known(id)
    ensures Path(1, AnyDelay, s, es', Lost(t, id)) && Numbered(Lost(t, id))
  {
    hide Path, Known, Counter, CommandPacket, Next;
    CounterStep(t.issued, id);
    es' := Transmit(1, AnyDelay, s, es, t, id);
    var t1 := Transmitted(t, id);
    Extend(1, AnyDelay, s, es', t1, LoseDown(0));
    var t2 := Apply(1, t1, LoseDown(0));
    Extend(1, AnyDelay, s, es' + [LoseDown(0)], t2, Timeout);
    var t3 := Apply(1, t2, Timeout);
    Extend(1, AnyDelay, s, es' + [LoseDown(0)] + [Timeout], t3, GiveUp);
    es' := es' + [LoseDown(0)] + [Timeout] + [GiveUp];
  }

  lemma {:induction false} LoseMany(s: System, es: seq<Step>, t: System, id: byte, n: nat)
    returns (es': seq<Step>, t': System)
    requires Path(1, AnyDelay, s, es, t)
    requires Numbered(t) && t.phase.Idle? && t.down == [] && Known(id)
    ensures Path(1, AnyDelay, s, es', t') && Numbered(t') && t'.phase.Idle? && |t'.issued| == |t.issued| + n
    ensures t'.(pi := t.pi, id := t.id, tries := t.tries, issued := t.issued) == t
    decreases n
  {
    hide Path, Known, Numbered, Begin;
    if n == 0 {
      es', t' := es, t;
    } else {
      es' := Lose(s, es, t, id);
      es', t' := LoseMany(s, es', Lost(t, id), id, n - 1);
    }
  }

  const GOOD: Imu.Outcome := Imu.Outcome(true, true, true)

  /** START is executed, but its response stays on the link and the call times out. */
  lemma Strand() returns (es: seq<Step>, t: System)
    ensures Path(1, AnyDelay, Boot(0), es, t) && Numbered(t) && t.phase.Idle? && t.down == []
    ensures t.up == [Message(Packet(COMMAND_RESPONSE, IMU_01, [CALIBRATION_START, Counter(1), OK]), 1)]
    ensures Imu.Calibrating(t.mask) && t.executed == [Execution(1, CALIBRATION_START, OK)]
    ensures |t.issued| == 1 && t.returned == []
  {
    Quiet();
    var s := Boot(0);
    assert Path(1, AnyDelay, s, [], s);
    hide Path, Counter, Next, Imu.Calibrating, NextExecution, Dispatch, CommandPacket;
    CounterStep(s.issued, CALIBRATION_START);
    es := Perform(1, AnyDelay, s, [], s, CALIBRATION_START, GOOD);
    var t1 := Performed(s, CALIBRATION_START, GOOD);
    Extend(1, AnyDelay, s, es, t1, Timeout);
    var t2 := Apply(1, t1, Timeout);
    Extend(1, AnyDelay, s, es + [Timeout], t2, GiveUp);
    es := es + [Timeout] + [GiveUp];
    t := Apply(1, t2, GiveUp);
  }

  /** The first START works if the sensor does. */
  lemma Quiet()
    ensures Numbered(Boot(0))
    ensures NextExecution(Boot(0), CALIBRATION_START, GOOD) == Execution(1, CALIBRATION_START, OK)
    ensures Imu.Calibrating(Dispatch(FULL_TABLE, CommandPacket(CALIBRATION_START, Counter(1), 0), 0, GOOD).0)
  {
    assert !Imu.Calibrating(0);
    Booted(0);
    FullTable(0);
    RunMeaning(StartCalibration, 0, GOOD);
    hide Imu.Calibrating;
  }

  /** One attempt more and the promise fails: after 255 lost commands the response to the first START
      is taken for the answer to a STOP, which then counts as executed. */
  lemma StaleAnswer() returns (es: seq<Step>, t: System)
    ensures Path(1, AnyDelay, Boot(0), es, t) && |t.issued| == 257
    ensures t.executed == [Execution(1, CALIBRATION_START, OK)] && Imu.Calibrating(t.mask)
    ensures |t.returned| == 1 && t.returned[0].attempt == 257 && t.returned[0].id == CALIBRATION_STOP
    ensures |t.returned[0].answer| == 3 && FromCode(t.returned[0].answer[2]) == Executed
  {
    var t1;
    es, t1 := Strand();
    hide Path, Counter, Imu.Calibrating, CommandPacket;
    var t2;
    es, t2 := LoseMany(Boot(0), es, t1, CALIBRATION_STOP, 255);
    CounterReuse(1, 257);
    CounterStep(t2.issued, CALIBRATION_STOP);
    es := Transmit(1, AnyDelay, Boot(0), es, t2, CALIBRATION_STOP);
    var t3 := Transmitted(t2, CALIBRATION_STOP);
    es := Collect(1, AnyDelay, Boot(0), es, t3, t3.up[0]);
    t := Collected(t3, t3.up[0]);
  }

  /** All calls of all runs with at most `n` attempts end truthfully, whatever the links do. */
  ghost predicate AttemptsSuffice(n: nat) {
    forall retries, mask, es, t, r ::
      !Imu.Calibrating(mask) && Path(retries, AnyDelay, Boot(mask), es, t) && |t.issued| <= n && r in t.returned ==>
        Truthful(t, r)
  }

  /** The number of attempts up to which no assumption about the links is needed. */
  lemma AttemptBound(n: nat)
    ensures AttemptsSuffice(n) <==> n <= 256
  {
    hide Path, Truthful;
    if n <= 256 {
      forall retries, mask, es, t, r |
        !Imu.Calibrating(mask) && Path(retries, AnyDelay, Boot(mask), es, t) && |t.issued| <= n && r in t.returned
        ensures Truthful(t, r)
      {
        CommandCorrect(retries, AnyDelay, mask, es, t, r);
      }
    } else {
      var es, t := StaleAnswer();
      NotCalibrating();
      Untruthful(t, t.returned[0]);
      assert t.returned[0] in t.returned && Path(1, AnyDelay, Boot(0), es, t);
    }
  }

  lemma NotCalibrating()
    ensures !Imu.Calibrating(0)
  {
  }

  lemma Untruthful(t: System, r: Return)
    requires t.executed == [Execution(1, CALIBRATION_START, OK)] && r.attempt == 257
    ensures !Truthful(t, r)
  {
    assert |r.answer| == 3 ==> Execution(257, r.id, r.answer[2]) !in t.executed;
  }
}
