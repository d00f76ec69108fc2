/** Every call in the protocol's state machine ends as `send_command` is specified to end. */
module ProtocolCalls {
  import opened Base
  import Commands
  import opened Packets
  import opened Driver
  import opened Protocol

  /** What happened around the attempts of the current call: the sequence counter before it, its
      finished attempts, the packets dispatched since its latest attempt started, and the frames
      handed to the serial port. */
  datatype Trace = Trace(first: byte, env: seq<Surroundings>, during: seq<Packet>, frames: seq<seq<byte>>)

  /** A packet dispatched between a timeout and the next attempt. */
  function Late(env: seq<Surroundings>, p: Packet): seq<Surroundings> {
    if env == [] then env
    else
      var k := |env| - 1;
      env[k := env[k].(late := env[k].late + [p])]
  }

  /** Keeps the record while step `e` is taken in `s`. */
  function Record(s: System, r: Trace, e: Step): Trace {
    match e
    case Call(_) => Trace(s.pi.commandSeq, [], [], [])
    case StartAttempt => r.(during := [])
    case Send(ok, _) =>
      var frames := r.frames + [Wire(Outgoing(s).packet)];
      if ok then r.(frames := frames) else r.(frames := frames, env := r.env + [Surroundings(false, r.during, [])])
    case Timeout => r.(env := r.env + [Surroundings(true, r.during, [])])
    case Wake => r.(env := r.env + [Surroundings(true, r.during, [])])
    case Deliver =>
      if s.up == [] then r
      else if s.phase.Sending? || s.phase.Waiting? then r.(during := r.during + [s.up[0].packet])
      else r.(env := Late(r.env, s.up[0].packet))
    case _ => r
  }

  /** The record at the end of a run that starts with record `r`. */
  function TraceOf(retries: nat, s: System, es: seq<Step>, t: System, r: Trace): Trace
    requires Path(retries, AnyDelay, s, es, t)
    decreases |es|
  {
    if es == [] then r
    else TraceOf(retries, Apply(retries, s, es[0]), es[1..], t, Record(s, r, es[0]))
  }

  /** The verdict with which a step ends a call. */
  function Ending(retries: nat, s: System, e: Step): Option<Verdict>
    requires Enabled(retries, s, e)
  {
    match e
    case GiveUp => Some(TimedOut)
    case Send(ok, _) => if ok then None else Some(LinkDown)
    case Wake => if |s.pi.future.value| == 3 then Some(FromCode(s.pi.future.value[2])) else None
    case _ => None
  }

  /** During a call, the record says how its attempts went so far. */
  predicate Tracks(retries: nat, s: System, r: Trace) {
    !s.phase.Idle? ==>
      && |r.env| == s.tries <= retries
      && AllUnanswered(r.env, r.first, s.tries)
      && r.frames == FramesSent(s.id, 0, r.first, if s.phase.Waiting? then s.tries + 1 else s.tries)
      && if s.phase.Ready? then s.pi.commandSeq == Plus(r.first, s.tries)
         else
           && s.tries < retries
           && s.pi.commandSeq == s.pi.pendingSeq == Plus(r.first, s.tries + 1)
           && s.pi.future == FirstAnswer(r.during, s.pi.commandSeq)
           && (s.pi.pending <==> s.pi.future == None)
  }

  lemma {:induction false} FirstAnswerAppend(ps: seq<Packet>, p: Packet, sequence: byte)
    ensures FirstAnswer(ps + [p], sequence) ==
      if FirstAnswer(ps, sequence).Some? then FirstAnswer(ps, sequence) else FirstAnswer([p], sequence)
    decreases |ps|
  {
    if ps == [] {
      Empty([p]);
    } else {
      assert (ps + [p])[1..] == ps[1..] + [p];
      FirstAnswerAppend(ps[1..], p, sequence);
    }
  }

  lemma FirstAnswerOfOne(p: Packet, sequence: byte)
    ensures FirstAnswer([p], sequence) ==
      if p.packetId == Commands.COMMAND_RESPONSE && |p.payload| == 3 && p.payload[1] == sequence then Some(p.payload)
      else None
  {
    assert FirstAnswer([p][1..], sequence) == None;
  }

  lemma {:induction false} AnswerHasThreeBytes(ps: seq<Packet>, sequence: byte)
    ensures FirstAnswer(ps, sequence).Some? ==> |FirstAnswer(ps, sequence).value| == 3
    decreases |ps|
  {
    if ps == [] {
    } else {
      AnswerHasThreeBytes(ps[1..], sequence);
    }
  }

  /** Neither later attempts nor late packets make a finished attempt answered. */
  lemma UnansweredStays(env: seq<Surroundings>, first: byte, x: Surroundings, p: Packet)
    requires AllUnanswered(env, first, |env|)
    ensures AllUnanswered(env + [x], first, |env|)
    ensures AllUnanswered(Late(env, p), first, |env|) && |Late(env, p)| == |env|
    ensures x.sendOk && FirstAnswer(x.during, Plus(first, |env| + 1)) == None ==>
      AllUnanswered(env + [x], first, |env| + 1)
  {
    hide FirstAnswer, Plus;
    forall k | 0 <= k < |env|
      ensures Unanswered(env + [x], first, k) && Unanswered(Late(env, p), first, k)
    {
      assert Unanswered(env, first, k);
    }
  }

  /** A response dispatched while an attempt is open. */
  lemma DeliverTracks(retries: nat, s: System, r: Trace)
    requires Enabled(retries, s, Deliver) && (s.phase.Sending? || s.phase.Waiting?)
    requires Tracks(retries, s, r)
    ensures Tracks(retries, Apply(retries, s, Deliver), Record(s, r, Deliver))
  {
    hide AllUnanswered, FirstAnswer, Plus, FramesSent;
    var p := s.up[0].packet;
    FirstAnswerAppend(r.during, p, s.pi.commandSeq);
    FirstAnswerOfOne(p, s.pi.commandSeq);
  }

  lemma KeepsTracks(retries: nat, s: System, r: Trace, e: Step)
    requires Tracks(retries, s, r) && Enabled(retries, s, e)
    ensures Tracks(retries, Apply(retries, s, e), Record(s, r, e))
  {
    hide AllUnanswered, FirstAnswer, Late, Receive, Replies, Executing, Commands.Dispatch, CommandPacket, Known, Next;
    hide Wire;
    match e
    case Call(_) => Undecided([], s.pi.commandSeq, retries);
    case StartAttempt => NoAnswer(Next(s.pi.commandSeq));
    case Timeout => UnansweredStays(r.env, r.first, Surroundings(true, r.during, []), Packet(0, 0, []));
    case Deliver =>
      if s.phase.Ready? {
        UnansweredStays(r.env, r.first, Surroundings(true, [], []), s.up[0].packet);
        LateSequence(s.pi, s.up[0].packet);
      } else if !s.phase.Idle? {
        DeliverTracks(retries, s, r);
      }
    case _ =>
  }

  lemma NoAnswer(sequence: byte)
    ensures FirstAnswer([], sequence) == None
  {
  }

  lemma LateSequence(pi: Requester, p: Packet)
    ensures Receive(pi, p).commandSeq == pi.commandSeq
  {
  }

  lemma {:induction false} TraceTracks(retries: nat, s: System, es: seq<Step>, t: System, r: Trace)
    requires Path(retries, AnyDelay, s, es, t) && Tracks(retries, s, r)
    ensures Tracks(retries, t, TraceOf(retries, s, es, t, r))
    decreases |es|
  {
    hide Enabled, Apply, Record, Tracks;
    if es == [] {
    } else {
      KeepsTracks(retries, s, r, es[0]);
      TraceTracks(retries, Apply(retries, s, es[0]), es[1..], t, Record(s, r, es[0]));
    }
  }

  lemma EndingExplained(retries: nat, s: System, r: Trace, e: Step)
    requires Tracks(retries, s, r) && Enabled(retries, s, e) && Ending(retries, s, e).Some?
    ensures Explains(Record(s, r, e).env, r.first, retries, s.tries, Ending(retries, s, e).value)
    ensures Record(s, r, e).frames == FramesSent(s.id, 0, r.first, Attempts(s.tries, retries))
  {
    hide AllUnanswered, FirstAnswer, FromCode, Late, Plus, Known, Wire, CommandPacket;
    UnansweredStays(r.env, r.first, Surroundings(e.Wake?, r.during, []), Packet(0, 0, []));
    if e.GiveUp? {
      Undecided(r.env, r.first, retries);
    }
  }

  /** What would have happened after the call ended changes nothing. */
  lemma ExplainsMore(env: seq<Surroundings>, more: seq<Surroundings>, first: byte, retries: nat, n: nat, v: Verdict)
    requires Explains(env, first, retries, n, v)
    ensures Explains(env + more, first, retries, n, v)
  {
    hide FirstAnswer, FromCode, Plus;
    forall k | 0 <= k < n
      ensures Unanswered(env + more, first, k)
    {
      assert Unanswered(env, first, k);
    }
  }

  /** In every run, when a call ends, it has written the frames that the method `SendCommand` is
      proved to write, and its verdict is the only one that `SendCommand` can return when it meets,
      attempt by attempt, what happened since the call, whatever more its surroundings contain. */
  lemma CallIsSendCommand(retries: nat, mask: byte, es: seq<Step>, s: System, e: Step, r: Trace)
    requires Path(retries, AnyDelay, Boot(mask), es, s) && Enabled(retries, s, e)
    requires r == TraceOf(retries, Boot(mask), es, s, Trace(0, [], [], []))
    ensures Ending(retries, s, e).Some? ==>
      && Explains(Record(s, r, e).env, r.first, retries, s.tries, Ending(retries, s, e).value)
      && (forall more, n, v :: Explains(Record(s, r, e).env + more, r.first, retries, n, v) ==>
            n == s.tries && v == Ending(retries, s, e).value)
      && Record(s, r, e).frames == FramesSent(s.id, 0, r.first, Attempts(s.tries, retries))
    ensures !s.phase.Idle? && Apply(retries, s, e).phase.Idle? ==> Ending(retries, s, e).Some?
  {
    hide Path, FromCode, Receive, AllUnanswered, Explains, Known, FramesSent, Record;
    TraceTracks(retries, Boot(mask), es, s, Trace(0, [], [], []));
    AnswerHasThreeBytes(r.during, s.pi.commandSeq);
    if Ending(retries, s, e).Some? {
      EndingExplained(retries, s, r, e);
      var env, verdict := Record(s, r, e).env, Ending(retries, s, e).value;
      forall more, n, v | Explains(env + more, r.first, retries, n, v)
        ensures n == s.tries && v == verdict
      {
        ExplainsMore(env, more, r.first, retries, s.tries, verdict);
        VerdictIsUnique(env + more, r.first, retries, n, v, s.tries, verdict);
      }
    }
  }

  /** A frame handed to the serial port is the one put on the link, if one is. */
  lemma FramesReachLink(retries: nat, s: System, r: Trace, ok: bool, reached: bool)
    requires s.phase.Sending? && (ok || reached)
    ensures var t := Apply(retries, s, Send(ok, reached));
      && t.down == s.down + [Outgoing(s)]
      && Record(s, r, Send(ok, reached)).frames == r.frames + [Wire(Outgoing(s).packet)]
  {
  }
}
