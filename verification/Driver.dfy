/** The driver's request side: sequence numbers, pending promises and the retry loop. */
module Driver {
  import opened Base
  import opened Packets
  import opened Commands
  import PiPacket

  /** The three bytes of a COMMAND_RESPONSE payload. */
  type Answer = seq<byte>

  /** The driver's command fields: the sequence counter, the sequence number waited for, whether a
      promise is pending, and the value the latest promise was given. */
  datatype Requester = Requester(commandSeq: byte, pendingSeq: byte, pending: bool, future: Option<Answer>)

  /** The start of an attempt: the next sequence number and a fresh promise. */
  function Begin(r: Requester): Requester {
    Requester(Next(r.commandSeq), Next(r.commandSeq), true, None)
  }

  predicate Accepted(r: Requester, p: Packet) {
    p.packetId == COMMAND_RESPONSE && |p.payload| == 3 && r.pending && p.payload[1] == r.pendingSeq
  }

  /** The response callback; other packets go to other callbacks. */
  function Receive(r: Requester, p: Packet): Requester {
    if Accepted(r, p) then r.(pending := false, future := Some(p.payload)) else r
  }

  function ReceiveAll(r: Requester, ps: seq<Packet>): Requester
    decreases |ps|
  {
    if ps == [] then r else ReceiveAll(Receive(r, ps[0]), ps[1..])
  }

  /** The payload sent for an attempt. */
  function CommandPacket(id: byte, sequence: byte, arg: byte): Packet {
    Packet(COMMAND, IMU_01, [id, sequence, arg])
  }

  /** What `send_command` reports. */
  datatype Verdict = Executed | Unknown | SensorError | InvalidState | Unrecognised | LinkDown | TimedOut

  function FromCode(result: byte): Verdict {
    if result == OK then Executed
    else if result == UNKNOWN_COMMAND then Unknown
    else if result == SENSOR_ERROR then SensorError
    else if result == INVALID_STATE then InvalidState
    else Unrecognised
  }

  /** The five verdicts, by the numbers on the wire. */
  lemma Verdicts(result: byte)
    ensures FromCode(result) ==
      match result
      case 0 => Executed
      case 1 => Unknown
      case 2 => SensorError
      case 3 => InvalidState
      case _ => Unrecognised
  {
  }

  /** The bytes of a command's frame. */
  lemma CommandLayout(id: byte, sequence: byte, arg: byte)
    ensures Frame(CommandPacket(id, sequence, arg))[..5] == [0x10, 0x01, id, sequence, arg]
  {
    hide Frame;
    var p := CommandPacket(id, sequence, arg);
    FrameLayout(p);
    var f := Frame(p);
    assert f[2..5] == [id, sequence, arg];
    assert f[2] == f[2..5][0] && f[3] == f[2..5][1] && f[4] == f[2..5][2];
  }

  /** What happens around one attempt: whether the frame could be written, the packets dispatched
      while the attempt waits, and those dispatched between its timeout and the next attempt. */
  datatype Surroundings = Surroundings(sendOk: bool, during: seq<Packet>, late: seq<Packet>)

  /** The first response with the given sequence number. */
  function FirstAnswer(ps: seq<Packet>, sequence: byte): Option<Answer> {
    if ps == [] then None
    else if ps[0].packetId == COMMAND_RESPONSE && |ps[0].payload| == 3 && ps[0].payload[1] == sequence
    then Some(ps[0].payload)
    else FirstAnswer(ps[1..], sequence)
  }

  predicate IsAnswer(p: Packet, sequence: byte) {
    p.packetId == 0x11 && |p.payload| == 3 && p.payload[1] == sequence
  }

  /** It is the payload of packet `i`, and no packet before it is an answer; none is if `i` is the end. */
  lemma {:induction false} FirstAnswerIs(ps: seq<Packet>, sequence: byte) returns (i: nat)
    ensures i <= |ps| && forall j :: 0 <= j < i ==> !IsAnswer(ps[j], sequence)
    ensures if i == |ps| then FirstAnswer(ps, sequence) == None
      else IsAnswer(ps[i], sequence) && FirstAnswer(ps, sequence) == Some(ps[i].payload)
    decreases |ps|
  {
    if ps == [] || IsAnswer(ps[0], sequence) {
      i := 0;
    } else {
      i := FirstAnswerIs(ps[1..], sequence);
      i := i + 1;
    }
  }

  /** Attempt `k` runs into its timeout. */
  predicate Unanswered(env: seq<Surroundings>, first: byte, k: nat) {
    k < |env| && env[k].sendOk && FirstAnswer(env[k].during, Plus(first, k + 1)) == None
  }

  /** The first `n` attempts all time out. */
  predicate AllUnanswered(env: seq<Surroundings>, first: byte, n: nat) {
    n <= |env| && forall k :: 0 <= k < n ==> Unanswered(env, first, k)
  }

  /** The meaning of a verdict: `n` attempts timed out, and the next one, if there was one,
      settled the matter. `first` is the sequence counter before the command. */
  predicate Explains(env: seq<Surroundings>, first: byte, retries: nat, n: nat, v: Verdict) {
    && n <= retries
    && AllUnanswered(env, first, n)
    && if n == retries then v == TimedOut
       else if n == |env| then false
       else if !env[n].sendOk then v == LinkDown
       else
         var answer := FirstAnswer(env[n].during, Plus(first, n + 1));
         answer.Some? && |answer.value| == 3 && v == FromCode(answer.value[2])
  }

  /** The attempt that settles the matter does not time out. */
  lemma Answered(env: seq<Surroundings>, first: byte, retries: nat, n: nat, v: Verdict, m: nat)
    requires Explains(env, first, retries, n, v) && AllUnanswered(env, first, m) && m <= retries
    ensures m <= n
  {
    hide FirstAnswer, Plus;
    assert n < m ==> Unanswered(env, first, n);
  }

  lemma VerdictIsUnique(env: seq<Surroundings>, first: byte, retries: nat, n: nat, v: Verdict, n': nat, v': Verdict)
    requires Explains(env, first, retries, n, v) && Explains(env, first, retries, n', v')
    ensures n == n' && v == v'
  {
    Answered(env, first, retries, n, v, n');
    Answered(env, first, retries, n', v', n);
  }

  lemma Undecided(env: seq<Surroundings>, first: byte, retries: nat)
    ensures AllUnanswered(env, first, 0)
    ensures AllUnanswered(env, first, retries) ==> Explains(env, first, retries, retries, TimedOut)
  {
    hide Unanswered;
  }

  /** One more attempt either settles the matter or times out too. */
  lemma Settle(env: seq<Surroundings>, first: byte, retries: nat, n: nat, answer: Option<Answer>)
    requires AllUnanswered(env, first, n) && n < retries && n < |env|
    requires env[n].sendOk ==> answer == FirstAnswer(env[n].during, Plus(first, n + 1))
    requires answer.Some? ==> |answer.value| == 3
    ensures !env[n].sendOk ==> Explains(env, first, retries, n, LinkDown)
    ensures env[n].sendOk && answer.Some? ==> Explains(env, first, retries, n, FromCode(answer.value[2]))
    ensures env[n].sendOk && answer == None ==> AllUnanswered(env, first, n + 1)
  {
    hide Plus, FirstAnswer, FromCode;
  }

  /** How many attempts are started when `n` of at most `retries` time out. */
  function Attempts(n: nat, retries: nat): nat {
    if n == retries then n else n + 1
  }

  /** The frames of the first `n` attempts. */
  function FramesSent(id: byte, arg: byte, first: byte, n: nat): seq<seq<byte>> {
    if n == 0 then [] else FramesSent(id, arg, first, n - 1) + [Wire(CommandPacket(id, Plus(first, n), arg))]
  }

  /** A one-shot channel; giving it a second value would throw. */
  class Promise {
    var value: Option<Answer>

    constructor ()
      ensures value == None
    {
      value := None;
    }

    method SetValue(v: Answer)
      requires value == None
      modifies this
      ensures value == Some(v)
    {
      value := Some(v);
    }
  }

  class TeensyDriver {
    var pendingPromise: Promise?
    var pendingSeq: byte
    var commandSeq: byte
    const commandRetries: nat
    /** Every frame handed to the serial client. */
    var frames: seq<seq<byte>>

    /** A pending promise has not been given a value. */
    ghost predicate Valid()
      reads this, pendingPromise
    {
      pendingPromise != null ==> pendingPromise.value == None
    }

    /** The fields, with `promise` the one the current attempt waits on. */
    ghost function View(promise: Promise): Requester
      reads this, promise
    {
      Requester(commandSeq, pendingSeq, pendingPromise != null, promise.value)
    }

    constructor (retries: nat)
      ensures Valid() && pendingPromise == null && commandSeq == pendingSeq == 0
      ensures commandRetries == retries && frames == []
    {
      pendingPromise := null;
      pendingSeq, commandSeq := 0, 0;
      commandRetries := retries;
      frames := [];
    }

    /** The COMMAND_RESPONSE callback. */
    method OnCommandResponse(packet: Packet, ghost promise: Promise)
      requires Valid() && (pendingPromise != null ==> pendingPromise == promise)
      requires packet.packetId == COMMAND_RESPONSE
      modifies this`pendingPromise, pendingPromise
      ensures Valid() && (pendingPromise != null ==> pendingPromise == promise)
      ensures View(promise) == Receive(old(View(promise)), packet)
    {
      if |packet.payload| != 3 {
        return;
      }
      if pendingPromise != null && packet.payload[1] == pendingSeq {
        pendingPromise.SetValue([packet.payload[0], packet.payload[1], packet.payload[2]]);
        assert packet.payload == [packet.payload[0], packet.payload[1], packet.payload[2]];
        pendingPromise := null;
      }
    }

    /** The critical section that opens an attempt. */
    method BeginAttempt() returns (promise: Promise)
      requires Valid()
      modifies this`pendingPromise, this`pendingSeq, this`commandSeq
      ensures Valid() && fresh(promise) && pendingPromise == promise
      ensures View(promise) == Begin(Requester(old(commandSeq), old(pendingSeq), old(pendingPromise) != null, None))
    {
      commandSeq := Next(commandSeq);
      pendingSeq := commandSeq;
      promise := new Promise();
      pendingPromise := promise;
    }

    /** The reading thread dispatches packets while this thread does something else. */
    method DispatchAll(ps: seq<Packet>, promise: Promise)
      requires Valid() && (pendingPromise != null ==> pendingPromise == promise)
      modifies this`pendingPromise, promise
      ensures Valid() && (pendingPromise != null ==> pendingPromise == promise)
      ensures View(promise) == ReceiveAll(old(View(promise)), ps)
    {
      var i := 0;
      while i < |ps|
        invariant i <= |ps|
        invariant Valid() && (pendingPromise != null ==> pendingPromise == promise)
        invariant ReceiveAll(View(promise), ps[i..]) == ReceiveAll(old(View(promise)), ps)
      {
        assert ps[i..][0] == ps[i] && ps[i..][1..] == ps[i + 1..];
        if ps[i].packetId == COMMAND_RESPONSE {
          OnCommandResponse(ps[i], promise);
        }
        i := i + 1;
      }
    }

    /** One pass of the retry loop up to the point where its outcome is known. */
    method Attempt(id: byte, arg: byte, env: Surroundings) returns (sent: bool, answer: Option<Answer>)
      requires Valid()
      modifies this`pendingPromise, this`pendingSeq, this`commandSeq, this`frames
      ensures Valid() && (pendingPromise != null ==> fresh(pendingPromise))
      ensures commandSeq == Next(old(commandSeq))
      ensures frames == old(frames) + [Wire(CommandPacket(id, commandSeq, arg))]
      ensures sent == env.sendOk
      ensures sent ==> answer == FirstAnswer(env.during, commandSeq)
      ensures answer.Some? ==> |answer.value| == 3
    {
      hide Wire, FirstAnswer, ReceiveAll, Receive, Next;
      var promise := BeginAttempt();
      assert CommandPacket(id, commandSeq, arg) == Packet(COMMAND, IMU_01, [id, commandSeq, arg]);
      hide CommandPacket;
      var frame := PiPacket.EncodePacket(COMMAND, IMU_01, [id, commandSeq, arg]);
      frames := frames + [frame.value];
      if !env.sendOk {
        return false, None;
      }
      AnswerReceived(View(promise), env.during);
      DispatchAll(env.during, promise);
      answer := promise.value;
      if answer == None {
        DispatchAll(env.late, promise);
      }
      return true, answer;
    }

    /** `send_command`. */
    method SendCommand(id: byte, arg: byte, env: seq<Surroundings>) returns (ok: bool, message: Verdict, ghost n: nat)
      requires Valid() && commandRetries <= |env|
      modifies this`pendingPromise, this`pendingSeq, this`commandSeq, this`frames
      ensures Valid()
      ensures Explains(env, old(commandSeq), commandRetries, n, message)
      ensures ok <==> message == Executed
      ensures commandSeq == Plus(old(commandSeq), Attempts(n, commandRetries))
      ensures frames == old(frames) + FramesSent(id, arg, old(commandSeq), Attempts(n, commandRetries))
    {
      hide FirstAnswer, Wire, AllUnanswered, Unanswered, Explains, CommandPacket, FromCode, Next;
      ghost var first := commandSeq;
      Undecided(env, first, 0);
      n := 0;
      var attempt := 0;
      Empty(frames);
      while attempt < commandRetries
        invariant attempt == n <= commandRetries
        invariant Valid()
        invariant AllUnanswered(env, first, n)
        invariant commandSeq == Plus(first, n)
        invariant frames == old(frames) + FramesSent(id, arg, first, n)
      {
        var sent, answer := Attempt(id, arg, env[attempt]);
        Assoc(old(frames), FramesSent(id, arg, first, n), [Wire(CommandPacket(id, commandSeq, arg))]);
        Settle(env, first, commandRetries, n, answer);
        if !sent {
          return false, LinkDown, n;
        }
        if answer == None {
          n := n + 1;
          attempt := attempt + 1;
          continue;
        }
        message := FromCode(answer.value[2]);
        ok := message == Executed;
        return;
      }
      Undecided(env, first, commandRetries);
      return false, TimedOut, n;
    }
  }

  /** Of the packets dispatched during an attempt, the first matching response wins. */
  lemma {:induction false} AnswerReceived(r: Requester, ps: seq<Packet>)
    requires r.pending && r.future == None
    ensures ReceiveAll(r, ps).future == FirstAnswer(ps, r.pendingSeq)
    ensures ReceiveAll(r, ps).commandSeq == r.commandSeq
    ensures FirstAnswer(ps, r.pendingSeq).Some? ==> |FirstAnswer(ps, r.pendingSeq).value| == 3
    decreases |ps|
  {
    if ps == [] {
    } else {
      if Accepted(r, ps[0]) {
        Settled(Receive(r, ps[0]), ps[1..]);
      } else {
        AnswerReceived(r, ps[1..]);
      }
    }
  }

  lemma {:induction false} Settled(r: Requester, ps: seq<Packet>)
    requires !r.pending
    ensures ReceiveAll(r, ps) == r
    decreases |ps|
  {
    if ps == [] {
    } else {
      Settled(r, ps[1..]);
    }
  }
}
