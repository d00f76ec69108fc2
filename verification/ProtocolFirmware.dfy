/** The firmware's main loop takes part in the protocol as the protocol's firmware steps do. */
module ProtocolFirmware {
  import opened Base
  import opened Cobs
  import opened Packets
  import opened Commands
  import opened Firmware
  import opened FirmwareRuns
  import opened Protocol
  import Driver
  import Framing
  import Imu
  import TeensyStream

  predicate ReadsCommand(b: Board) {
    Decoded(b).Some? && IsCommand(Decoded(b).value)
  }

  /** A command that the firmware decodes is the next frame on the link. */
  predicate Synchronised(s: System, b: Board) {
    s.mask == b.mask && (ReadsCommand(b) ==> s.down != [] && s.down[0].packet == Decoded(b).value)
  }

  function PacketsOf(up: seq<Message>): seq<Packet> {
    seq(|up|, i requires 0 <= i < |up| => up[i].packet)
  }

  // ----- the four statements of the loop -----

  function PollSteps(b: Board, p: Pass): seq<Step> {
    if ReadsCommand(b) then [FirmwarePoll(p.command)] else []
  }

  function PollUpdate(s: System, b: Board, p: Pass): System {
    if ReadsCommand(b) && s.down != [] && IsCommand(s.down[0].packet) then Apply(0, s, FirmwarePoll(p.command)) else s
  }

  function ResetSteps(p: Pass): seq<Step> {
    if p.wasReset then [ImuReset(p.gyroOk && p.quatOk, p.restore)] else []
  }

  function ResetUpdate(s: System, p: Pass): System {
    if p.wasReset then Apply(0, s, ImuReset(p.gyroOk && p.quatOk, p.restore)) else s
  }

  /** What `loop` sends besides responses. */
  function Telemetry(b: Board, p: Pass, staleMs: nat): seq<Packet> {
    (match Imu.ReadStep(b.imu, p.reading, staleMs).1
     case None => []
     case Some(v) => [Packet(IMU_DATA, IMU_01, SampleBytes(v))])
    + var c := AfterRead(b, p, staleMs);
      if StatusDue(c, p) then [Packet(CAL_STATUS, IMU_01, StatusBytes(c.imu.accuracy, c.mask))] else []
  }

  function Reported(ps: seq<Packet>): seq<Step> {
    seq(|ps|, i requires 0 <= i < |ps| => Report(ps[i]))
  }

  function ReportUpdate(s: System, ps: seq<Packet>): System {
    s.(up := s.up + seq(|ps|, i requires 0 <= i < |ps| => Message(ps[i], 0)))
  }

  function PassSteps(staleMs: nat, b: Board, p: Pass): seq<Step> {
    var c := AfterReset(AfterPoll(FULL_TABLE, b, p), p);
    PollSteps(b, p) + ResetSteps(p) + Reported(Telemetry(c, p, staleMs))
  }

  /** The protocol's state after a pass of the loop. */
  function AfterPass(staleMs: nat, s: System, b: Board, p: Pass): System {
    var c := AfterReset(AfterPoll(FULL_TABLE, b, p), p);
    ReportUpdate(ResetUpdate(PollUpdate(s, b, p), p), Telemetry(c, p, staleMs))
  }

  function PollReplies(b: Board, p: Pass): seq<Packet> {
    if ReadsCommand(b) then AsSeq(Dispatch(FULL_TABLE, Decoded(b).value, b.mask, p.command).1) else []
  }

  lemma PollPath(retries: nat, links: Links, s: System, b: Board, p: Pass)
    requires Synchronised(s, b)
    ensures Path(retries, links, s, PollSteps(b, p), PollUpdate(s, b, p))
    ensures PollUpdate(s, b, p).mask == AfterPoll(FULL_TABLE, b, p).mask
    ensures AfterPoll(FULL_TABLE, b, p).sent == b.sent + PollReplies(b, p)
    ensures PacketsOf(PollUpdate(s, b, p).up) == PacketsOf(s.up) + PollReplies(b, p)
  {
    hide TeensyStream.Poll, FromSegmentBounded, Lookup, Commands.Run;
    var es := PollSteps(b, p);
    if ReadsCommand(b) {
      assert es[1..] == [];
    }
  }

  lemma ResetPath(retries: nat, links: Links, s: System, b: Board, p: Pass)
    requires s.mask == b.mask
    ensures Path(retries, links, s, ResetSteps(p), ResetUpdate(s, p))
    ensures ResetUpdate(s, p) == s.(mask := AfterReset(b, p).mask) && AfterReset(b, p).sent == b.sent
  {
    hide Imu.MaskAfterReset;
    var es := ResetSteps(p);
    if p.wasReset {
      assert es[1..] == [];
    }
  }

  lemma {:induction false} ReportPath(retries: nat, links: Links, s: System, ps: seq<Packet>)
    requires forall i :: 0 <= i < |ps| ==> ps[i].packetId != COMMAND_RESPONSE
    ensures Path(retries, links, s, Reported(ps), ReportUpdate(s, ps))
    ensures PacketsOf(ReportUpdate(s, ps).up) == PacketsOf(s.up) + ps
    decreases |ps|
  {
    if ps == [] {
      assert ReportUpdate(s, ps).up == s.up;
    } else {
      var next := Apply(retries, s, Report(ps[0]));
      ReportPath(retries, links, next, ps[1..]);
      assert Reported(ps)[1..] == Reported(ps[1..]);
      assert ReportUpdate(s, ps).up == ReportUpdate(next, ps[1..]).up;
    }
  }

  lemma TelemetrySent(b: Board, p: Pass, staleMs: nat)
    ensures var d := AfterStatus(AfterRead(b, p, staleMs), p);
      d.sent == b.sent + Telemetry(b, p, staleMs) && d.mask == b.mask
    ensures forall i :: 0 <= i < |Telemetry(b, p, staleMs)| ==>
      Telemetry(b, p, staleMs)[i].packetId != COMMAND_RESPONSE
  {
    hide Imu.ReadStep, StatusDue, SampleBytes, StatusBytes;
  }

  /** All packets that one pass sends. */
  function PassSent(staleMs: nat, b: Board, p: Pass): seq<Packet> {
    PollReplies(b, p) + Telemetry(AfterReset(AfterPoll(FULL_TABLE, b, p), p), p, staleMs)
  }

  /** One pass of the loop, on a firmware whose next command is the next frame on the link, is a run
      of the protocol's firmware steps: the calibration states stay equal, the frame is taken off
      the link, and exactly the packets the pass sends are put on the other. */
  lemma PassIsPath(retries: nat, links: Links, staleMs: nat, s: System, b: Board, p: Pass)
    requires Synchronised(s, b)
    ensures var t, c := AfterPass(staleMs, s, b, p), LoopStep(FULL_TABLE, staleMs, b, p);
      && Path(retries, links, s, PassSteps(staleMs, b, p), t)
      && t.mask == c.mask
      && c.sent == b.sent + PassSent(staleMs, b, p)
      && PacketsOf(t.up) == PacketsOf(s.up) + PassSent(staleMs, b, p)
  {
    hide Path, PollSteps, PollUpdate, ResetSteps, Reported, PacketsOf;
    hide AfterPoll, AfterRead, AfterStatus, Telemetry, PollReplies;
    var b1 := AfterPoll(FULL_TABLE, b, p);
    var b2 := AfterReset(b1, p);
    var s1 := PollUpdate(s, b, p);
    var s2 := ResetUpdate(s1, p);
    var ps := Telemetry(b2, p, staleMs);
    PollPath(retries, links, s, b, p);
    ResetPath(retries, links, s1, b1, p);
    TelemetrySent(b2, p, staleMs);
    ReportPath(retries, links, s2, ps);
    PathAppend(retries, links, s, PollSteps(b, p), s1, ResetSteps(p), s2);
    PathAppend(retries, links, s, PollSteps(b, p) + ResetSteps(p), s2, Reported(ps), ReportUpdate(s2, ps));
    Assoc(b.sent, PollReplies(b, p), ps);
    Assoc(PacketsOf(s.up), PollReplies(b, p), ps);
  }

  lemma {:induction false} PathAppend(retries: nat, links: Links, s: System, es: seq<Step>, t: System,
                                      es': seq<Step>, u: System)
    requires Path(retries, links, s, es, t) && Path(retries, links, t, es', u)
    ensures Path(retries, links, s, es + es', u)
    decreases |es|
  {
    hide Enabled, Apply;
    if es == [] {
      Empty(es');
    } else {
      assert (es + es')[1..] == es[1..] + es';
      PathAppend(retries, links, Apply(retries, s, es[0]), es[1..], t, es', u);
    }
  }

  // ----- the bytes on the link -----

  lemma {:induction false} WireAppend(a: seq<Packet>, b: seq<Packet>)
    ensures Framing.WireAll(a + b) == Framing.WireAll(a) + Framing.WireAll(b)
    decreases |a|
  {
    hide Wire;
    if a == [] {
      Empty(b);
      Empty(Framing.WireAll(b));
    } else {
      assert (a + b)[1..] == a[1..] + b;
      WireAppend(a[1..], b);
      Assoc(Wire(a[0]), Framing.WireAll(a[1..]), Framing.WireAll(b));
    }
  }

  /** A poll of bytes that are the beginning of the packets `ps` on the wire: it takes the first
      packet's frame if its delimiter is there, and leaves all bytes in place if not. */
  lemma PollFront(l: TeensyStream.Link, ps: seq<Packet>)
    requires ZeroFree(l.partial) && TeensyStream.Stream(l) <= Framing.WireAll(ps)
    requires forall i :: 0 <= i < |ps| ==> Fits(ps[i])
    ensures var (l', f) := TeensyStream.Poll(l); var bytes := TeensyStream.Stream(l);
      ZeroFree(l'.partial) &&
      if f == None then TeensyStream.Stream(l') == bytes
      else
        && ps != [] && f == Some(Encode(Frame(ps[0])))
        && TeensyStream.Stream(l') <= Framing.WireAll(ps[1..])
  {
    hide TeensyStream.Poll, Encode, Frame;
    var bytes := TeensyStream.Stream(l);
    TeensyStream.PollByRun(l);
    if ps == [] {
      RunLengthIs(bytes, |bytes|, 0);
    } else {
      var e, rest := Encode(Frame(ps[0])), Framing.WireAll(ps[1..]);
      EncodeIsZeroFree(Frame(ps[0]));
      WireSize(ps[0]);
      FrontRun(bytes, e, rest);
    }
  }

  lemma PrefixSplit<T>(p: seq<T>, a: seq<T>, b: seq<T>)
    requires p <= a + b
    ensures |p| <= |a| ==> p <= a
    ensures |p| > |a| ==> p[..|a|] == a && p[|a|..] <= b
  {
    assert forall i :: 0 <= i < |p| ==> p[i] == (a + b)[i];
  }

  lemma FrontRun(bytes: seq<byte>, e: seq<byte>, rest: seq<byte>)
    requires bytes <= e + [0] + rest && ZeroFree(e)
    ensures RunLength(bytes, |bytes|) == if |bytes| <= |e| then |bytes| else |e|
    ensures |bytes| > |e| ==> bytes[..|e|] == e && bytes[|e| + 1..] <= rest
  {
    hide RunLength;
    Assoc(e, [0], rest);
    PrefixSplit(bytes, e, [0] + rest);
    if |bytes| <= |e| {
      assert bytes[..|bytes|] == bytes;
      RunLengthIs(bytes, |bytes|, |bytes|);
    } else {
      var behind := bytes[|e|..];
      assert behind[0] == ([0] + rest)[0];
      RunLengthIs(bytes, |bytes|, |e|);
      BehindDelimiter(behind, rest);
      assert behind[1..] == bytes[|e| + 1..];
    }
  }

  lemma BehindDelimiter(p: seq<byte>, rest: seq<byte>)
    requires p <= [0] + rest && p != []
    ensures p[1..] <= rest
  {
    assert forall i :: 0 <= i < |p| ==> p[i] == ([0] + rest)[i];
  }

  // ----- the protocol with the real main loop in it -----

  /** The protocol's state and the firmware's fit together: both have the same mask, and the bytes
      that arrived but were not yet consumed are the beginning of the frames under way. */
  ghost predicate Linked(s: System, b: Board) {
    && Inv(s) && s.mask == b.mask && ZeroFree(b.link.partial)
    && TeensyStream.Stream(b.link) <= Framing.WireAll(PacketsOf(s.down))
  }

  lemma LinkedReads(s: System, b: Board)
    requires Linked(s, b)
    ensures Synchronised(s, b)
    ensures ReadsCommand(b) <==> TeensyStream.Poll(b.link).1 != None
    ensures var rest := if ReadsCommand(b) then s.down[1..] else s.down; var l := TeensyStream.Poll(b.link).0;
      ZeroFree(l.partial) && TeensyStream.Stream(l) <= Framing.WireAll(PacketsOf(rest))
  {
    hide TeensyStream.Poll, Numbered, Executions, Effect, Uplink, Promises, Counter, Encode, Frame, FromSegmentBounded;
    PollFront(b.link, PacketsOf(s.down));
    if TeensyStream.Poll(b.link).1 != None {
      var m := s.down[0];
      assert IsFrame(s.issued, m);
      PacketRoundTrip(m.packet);
      assert PacketsOf(s.down)[1..] == PacketsOf(s.down[1..]);
    }
  }

  /** The bytes under way that have not yet been consumed can be delivered in any chunks, and a frame
      can be lost as a whole until its first byte arrives. */
  predicate WireAllows(s: System, b: Board, e: Step) {
    match e
    case LoseDown(i) =>
      i < |s.down| && |TeensyStream.Stream(b.link)| <= |Framing.WireAll(PacketsOf(s.down[..i]))|
    case FirmwarePoll(_) => false
    case ImuReset(_, _) => false
    case Report(_) => false
    case _ => true
  }

  function Received(b: Board, bytes: seq<byte>): Board {
    b.(link := b.link.(incoming := b.link.incoming + bytes))
  }

  /** A step of the driver or the links, bytes arriving at the firmware, or a pass of its loop. */
  datatype Joint = Other(step: Step) | Arrive(bytes: seq<byte>) | Turn(pass: Pass)

  /** The protocol's state `s` and the firmware's state `b` run together to `t` and `c`. */
  predicate JointPath(retries: nat, links: Links, staleMs: nat, s: System, b: Board, js: seq<Joint>,
                      t: System, c: Board)
    decreases |js|
  {
    if js == [] then s == t && b == c
    else
      match js[0]
      case Other(e) =>
        && WireAllows(s, b, e) && Enabled(retries, s, e) && Admits(links, s, e)
        && JointPath(retries, links, staleMs, Apply(retries, s, e), b, js[1..], t, c)
      case Arrive(bytes) =>
        && TeensyStream.Stream(b.link) + bytes <= Framing.WireAll(PacketsOf(s.down))
        && JointPath(retries, links, staleMs, s, Received(b, bytes), js[1..], t, c)
      case Turn(p) =>
        var s1, b1 := AfterPass(staleMs, s, b, p), LoopStep(FULL_TABLE, staleMs, b, p);
        JointPath(retries, links, staleMs, s1, b1, js[1..], t, c)
  }

  lemma PrefixTrans<T>(p: seq<T>, a: seq<T>, b: seq<T>, b': seq<T>)
    requires p <= a + b && |p| <= |a|
    ensures p <= a + b'
  {
    PrefixSplit(p, a, b);
  }

  lemma PacketsAppend(a: seq<Message>, b: seq<Message>)
    ensures PacketsOf(a + b) == PacketsOf(a) + PacketsOf(b)
  {
  }

  lemma LoseKeepsWire(s: System, b: Board, i: nat)
    requires Linked(s, b) && WireAllows(s, b, LoseDown(i))
    ensures TeensyStream.Stream(b.link) <= Framing.WireAll(PacketsOf(Remove(s.down, i)))
  {
    hide Inv, PacketsOf, Framing.WireAll;
    var before, behind := s.down[..i], s.down[i..];
    assert s.down == before + behind;
    PacketsAppend(before, behind);
    PacketsAppend(before, s.down[i + 1..]);
    WireAppend(PacketsOf(before), PacketsOf(behind));
    WireAppend(PacketsOf(before), PacketsOf(s.down[i + 1..]));
    PrefixTrans(TeensyStream.Stream(b.link), Framing.WireAll(PacketsOf(before)),
                Framing.WireAll(PacketsOf(behind)), Framing.WireAll(PacketsOf(s.down[i + 1..])));
  }

  lemma OtherKeepsLinked(retries: nat, s: System, b: Board, e: Step)
    requires Linked(s, b) && WireAllows(s, b, e) && Enabled(retries, s, e)
    ensures Linked(Apply(retries, s, e), b)
  {
    hide Inv, PacketsOf, Framing.WireAll, Driver.Receive, Remove;
    Keeps(retries, s, e);
    match e
    case LoseDown(i) => LoseKeepsWire(s, b, i);
    case Send(ok, reached) =>
      PacketsAppend(s.down, [Outgoing(s)]);
      WireAppend(PacketsOf(s.down), PacketsOf([Outgoing(s)]));
    case _ =>
  }

  lemma ArriveKeepsLinked(s: System, b: Board, bytes: seq<byte>)
    requires Linked(s, b) && TeensyStream.Stream(b.link) + bytes <= Framing.WireAll(PacketsOf(s.down))
    ensures Linked(s, Received(b, bytes))
  {
    hide Inv, PacketsOf, Framing.WireAll;
    Assoc(b.link.partial, b.link.incoming, bytes);
  }

  lemma TurnKeepsLinked(retries: nat, links: Links, staleMs: nat, s: System, b: Board, p: Pass)
    requires Linked(s, b)
    ensures Linked(AfterPass(staleMs, s, b, p), LoopStep(FULL_TABLE, staleMs, b, p))
  {
    LinkedReads(s, b);
    PassIsPath(retries, links, staleMs, s, b, p);
    PathKeeps(retries, links, s, PassSteps(staleMs, b, p), AfterPass(staleMs, s, b, p));
    PassLink(staleMs, s, b, p);
  }

  lemma PassLink(staleMs: nat, s: System, b: Board, p: Pass)
    requires Synchronised(s, b)
    ensures LoopStep(FULL_TABLE, staleMs, b, p).link == TeensyStream.Poll(b.link).0
    ensures AfterPass(staleMs, s, b, p).down ==
      if ReadsCommand(b) then s.down[1..] else s.down
  {
    hide TeensyStream.Poll, FromSegmentBounded, Dispatch, Imu.ReadStep, StatusDue, Telemetry, Replies, Executing;
  }

  /** Every run of driver, links and main loop together is a run of the protocol, in which the loop
      takes the frames off the link that the protocol's firmware takes off. */
  lemma {:induction false} JointIsPath(retries: nat, links: Links, staleMs: nat, s: System, b: Board,
                                       js: seq<Joint>, t: System, c: Board)
    returns (es: seq<Step>)
    requires Linked(s, b) && JointPath(retries, links, staleMs, s, b, js, t, c)
    ensures Path(retries, links, s, es, t) && Linked(t, c)
    decreases |js|
  {
    hide Linked, LoopStep, AfterPass, PassSteps, WireAllows, Enabled, Admits, Apply;
    if js == [] {
      es := [];
    } else {
      match js[0] {
        case Other(e) =>
          OtherKeepsLinked(retries, s, b, e);
          es := JointIsPath(retries, links, staleMs, Apply(retries, s, e), b, js[1..], t, c);
          OneStep(retries, links, s, e);
          PathAppend(retries, links, s, [e], Apply(retries, s, e), es, t);
          es := [e] + es;
        case Arrive(bytes) =>
          ArriveKeepsLinked(s, b, bytes);
          es := JointIsPath(retries, links, staleMs, s, Received(b, bytes), js[1..], t, c);
        case Turn(p) =>
          TurnIsPath(retries, links, staleMs, s, b, p);
          var s1 := AfterPass(staleMs, s, b, p);
          es := JointIsPath(retries, links, staleMs, s1, LoopStep(FULL_TABLE, staleMs, b, p), js[1..], t, c);
          PathAppend(retries, links, s, PassSteps(staleMs, b, p), s1, es, t);
          es := PassSteps(staleMs, b, p) + es;
      }
    }
  }

  lemma TurnIsPath(retries: nat, links: Links, staleMs: nat, s: System, b: Board, p: Pass)
    requires Linked(s, b)
    ensures Path(retries, links, s, PassSteps(staleMs, b, p), AfterPass(staleMs, s, b, p))
    ensures Linked(AfterPass(staleMs, s, b, p), LoopStep(FULL_TABLE, staleMs, b, p))
  {
    hide Path, PassSteps, AfterPass, LoopStep, Linked;
    LinkedReads(s, b);
    PassIsPath(retries, links, staleMs, s, b, p);
    TurnKeepsLinked(retries, links, staleMs, s, b, p);
  }

  lemma OneStep(retries: nat, links: Links, s: System, e: Step)
    requires Enabled(retries, s, e) && Admits(links, s, e)
    ensures Path(retries, links, s, [e], Apply(retries, s, e))
  {
    hide Enabled, Apply, Admits;
    assert [e][1..] == [];
  }

  // ----- the command promises, for the firmware's own main loop -----

  lemma BootLinked(mask: byte, imu: Imu.State)
    requires !Imu.Calibrating(mask)
    ensures Linked(Boot(mask), PowerOn(mask, imu))
  {
    hide Inv, Imu.Calibrating;
    Booted(mask);
  }

  /** In every bounded run of driver, links and main loop from power-on, the verdicts reported are
      the answers of the handlers that the loop ran. */
  lemma FirmwareCommandCorrect(retries: nat, links: Links, staleMs: nat, mask: byte, imu: Imu.State,
                               js: seq<Joint>, t: System, c: Board, r: Return)
    requires !Imu.Calibrating(mask)
    requires JointPath(retries, links, staleMs, Boot(mask), PowerOn(mask, imu), js, t, c)
    requires Bounded(links, t) && r in t.returned
    ensures Truthful(t, r) && Imu.Calibrating(c.mask) == CalibratingAfter(t.executed)
  {
    hide Path, JointPath, Imu.Calibrating, CalibratingAfter, Truthful, Numbered, Downlink, Executions, Uplink, Promises;
    BootLinked(mask, imu);
    var es := JointIsPath(retries, links, staleMs, Boot(mask), PowerOn(mask, imu), js, t, c);
    CommandCorrect(retries, links, mask, es, t, r);
  }

  /** The barrier: once START (or STOP) was reported successful, the loop keeps calibrating (or not)
      until the opposite command of a later attempt succeeds. */
  lemma FirmwareBarrier(retries: nat, links: Links, staleMs: nat, mask: byte, imu: Imu.State,
                        js: seq<Joint>, s: System, b: Board, r: Return, js': seq<Joint>, t: System, c: Board)
    requires !Imu.Calibrating(mask)
    requires JointPath(retries, links, staleMs, Boot(mask), PowerOn(mask, imu), js, s, b)
    requires Bounded(links, s) && r in s.returned
    requires r.id in {CALIBRATION_START, CALIBRATION_STOP} && |r.answer| == 3
    requires Driver.FromCode(r.answer[2]) == Driver.Executed
    requires JointPath(retries, AnyDelay, staleMs, s, b, js', t, c)
    requires forall x :: x in t.executed && x.attempt > r.attempt && x.id == Opposite(r.id) ==> x.result != OK
    ensures Imu.Calibrating(c.mask) <==> r.id == CALIBRATION_START
  {
    hide Path, JointPath, Imu.Calibrating, Inv;
    BootLinked(mask, imu);
    var es := JointIsPath(retries, links, staleMs, Boot(mask), PowerOn(mask, imu), js, s, b);
    var es' := JointIsPath(retries, AnyDelay, staleMs, s, b, js', t, c);
    Barrier(retries, links, mask, es, s, es', t, r);
  }
}
