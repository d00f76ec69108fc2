/** The firmware's side of the command stream, for any schedule of arriving bytes and polls. */
module TeensyStream {
  import opened Base
  import opened Packets
  import opened Framing
  import opened Commands
  import opened Imu

  /** The part of the current segment already read, and the bytes waiting in the serial port. */
  datatype Link = Link(partial: seq<byte>, incoming: seq<byte>)

  function Stream(l: Link): seq<byte> {
    l.partial + l.incoming
  }

  /** One call to `poll_command`: read until a frame is complete or the port is empty. */
  function Poll(l: Link): (Link, Option<seq<byte>>)
    decreases |l.incoming|
  {
    if l.incoming == [] then (l, None)
    else
      var b, rest := l.incoming[0], l.incoming[1..];
      if b != 0 then Poll(Link(l.partial + [b], rest))
      else if 0 < |l.partial| <= MAX_ENCODED_SIZE then (Link([], rest), Some(l.partial))
      else Poll(Link([], rest))
  }

  /** A poll in terms of the bytes up to the first delimiter: without one, all are kept; a frame that
      fits is taken off with its delimiter. */
  lemma {:induction false} PollByRun(l: Link)
    requires ZeroFree(l.partial)
    ensures var bytes := Stream(l); var n := RunLength(bytes, |bytes|);
      && (n == |bytes| ==> Poll(l) == (Link(bytes, []), None))
      && (n < |bytes| && 0 < n <= MAX_ENCODED_SIZE ==> Poll(l) == (Link([], bytes[n + 1..]), Some(bytes[..n])))
    decreases |l.incoming|
  {
    var bytes := Stream(l);
    if l.incoming == [] {
      Empty(l.partial);
      assert bytes[..|bytes|] == bytes;
      RunLengthIs(bytes, |bytes|, |bytes|);
    } else if l.incoming[0] != 0 {
      var next := Link(l.partial + [l.incoming[0]], l.incoming[1..]);
      assert Stream(next) == bytes;
      PollByRun(next);
    } else {
      assert bytes[..|l.partial|] == l.partial && bytes[|l.partial| + 1..] == l.incoming[1..];
      RunLengthIs(bytes, |bytes|, |l.partial|);
    }
  }

  /** The frames a stream contains for the firmware. */
  function FramesIn(s: seq<byte>): seq<seq<byte>> {
    Buffered(Segments(s))
  }

  lemma FirstFrame(partial: seq<byte>, rest: seq<byte>)
    requires ZeroFree(partial)
    ensures FramesIn(partial + [0] + rest) == BufferedOne(partial) + FramesIn(rest)
    ensures Tail(partial + [0] + rest) == Tail(rest)
  {
    var s := partial + [0] + rest;
    RunLengthIs(s, |s|, |partial|);
    assert s[..|partial|] == partial && s[|partial| + 1..] == rest;
    assert Segments(s)[1..] == Segments(rest);
  }

  /** A poll takes the next frame off the stream, or finds that there is none yet. */
  lemma {:induction false} PollTakesNextFrame(l: Link)
    requires ZeroFree(l.partial)
    ensures var (l', f) := Poll(l);
      && ZeroFree(l'.partial)
      && FramesIn(Stream(l)) == AsSeq(f) + FramesIn(Stream(l'))
      && Tail(Stream(l)) == Tail(Stream(l'))
      && (f == None ==> l'.incoming == [])
      && |l'.incoming| <= |l.incoming|
    decreases |l.incoming|
  {
    if l.incoming == [] {
      Empty(FramesIn(Stream(l)));
    } else {
      var b, rest := l.incoming[0], l.incoming[1..];
      if b != 0 {
        assert Stream(Link(l.partial + [b], rest)) == Stream(l);
        PollTakesNextFrame(Link(l.partial + [b], rest));
      } else {
        assert Stream(l) == l.partial + [0] + rest;
        FirstFrame(l.partial, rest);
        Empty(rest);
        Empty(FramesIn(rest));
        if !(0 < |l.partial| <= MAX_ENCODED_SIZE) {
          PollTakesNextFrame(Link([], rest));
        }
      }
    }
  }

  /** What can happen to the firmware: bytes arrive, `loop` polls (a handler that runs sees the
      sensor answer as given), or the IMU is brought back from a reset. */
  datatype StreamEvent =
    | Arrive(bytes: seq<byte>)
    | PollOnce(outcome: Outcome)
    | Recover(configured: bool, restore: Outcome)

  function Arrived(events: seq<StreamEvent>): seq<byte> {
    if events == [] then []
    else (if events[0].Arrive? then events[0].bytes else []) + Arrived(events[1..])
  }

  /** The firmware between events, with everything it has decoded and sent so far. */
  datatype Node = Node(link: Link, mask: byte, frames: seq<seq<byte>>, packets: seq<Packet>, sent: seq<Packet>)

  function Step(table: Table, n: Node, e: StreamEvent): Node {
    match e
    case Arrive(bytes) => n.(link := n.link.(incoming := n.link.incoming + bytes))
    case Recover(configured, o) => n.(mask := MaskAfterReset(n.mask, configured, o))
    case PollOnce(o) =>
      var (l, f) := Poll(n.link);
      match f
      case None => n.(link := l)
      case Some(frame) =>
        var n' := n.(link := l, frames := n.frames + [frame]);
        match FromSegmentBounded(frame)
        case None => n'
        case Some(p) =>
          var (mask, r) := Dispatch(table, p, n.mask, o);
          n'.(mask := mask, packets := n.packets + [p], sent := n.sent + AsSeq(r))
  }

  function Steps(table: Table, n: Node, events: seq<StreamEvent>): Node
    decreases |events|
  {
    if events == [] then n else Steps(table, Step(table, n, events[0]), events[1..])
  }

  /** What every reachable state of the firmware satisfies, given all bytes that arrived so far. */
  ghost predicate Inv(table: Table, n: Node, arrived: seq<byte>) {
    && ZeroFree(n.link.partial)
    && FramesIn(arrived) == n.frames + FramesIn(Stream(n.link))
    && Tail(arrived) == Tail(Stream(n.link))
    && n.packets == TeensyRead(n.frames)
    && AnswersAll(table, CommandsOf(n.packets), n.sent)
  }

  lemma {:induction false} TeensyReadAppend(a: seq<seq<byte>>, b: seq<seq<byte>>)
    ensures TeensyRead(a + b) == TeensyRead(a) + TeensyRead(b)
    decreases |a|
  {
    if a == [] {
      Empty(b);
      Empty(TeensyRead(b));
    } else {
      assert (a + b)[1..] == a[1..] + b;
      TeensyReadAppend(a[1..], b);
      Assoc(AsSeq(FromSegmentBounded(a[0])), TeensyRead(a[1..]), TeensyRead(b));
    }
  }

  lemma FramesAppend(a: seq<byte>, b: seq<byte>)
    ensures FramesIn(a + b) == FramesIn(a) + FramesIn(Tail(a) + b)
    ensures Tail(a + b) == Tail(Tail(a) + b)
  {
    SplitAppend(a, b);
    BufferedAppend(Segments(a), Segments(Tail(a) + b));
  }

  lemma ArriveKeepsInv(table: Table, n: Node, bytes: seq<byte>, arrived: seq<byte>)
    requires Inv(table, n, arrived)
    ensures Inv(table, Step(table, n, Arrive(bytes)), arrived + bytes)
  {
    hide FramesIn, Tail;
    var s := Stream(n.link);
    FramesAppend(arrived, bytes);
    FramesAppend(s, bytes);
    Assoc(n.frames, FramesIn(s), FramesIn(Tail(s) + bytes));
    Assoc(n.link.partial, n.link.incoming, bytes);
  }

  lemma PollKeepsInv(table: Table, n: Node, o: Outcome, arrived: seq<byte>)
    requires Inv(table, n, arrived)
    ensures Inv(table, Step(table, n, PollOnce(o)), arrived)
  {
    hide FramesIn, Tail, Poll, FromSegmentBounded, Dispatch, IsCommand;
    PollTakesNextFrame(n.link);
    var (l, f) := Poll(n.link);
    match f
    case None =>
      Empty(FramesIn(Stream(l)));
    case Some(frame) =>
      Assoc(n.frames, [frame], FramesIn(Stream(l)));
      TeensyReadOne(n.frames, frame);
      match FromSegmentBounded(frame)
      case None =>
        Empty(n.packets);
      case Some(p) =>
        CommandsAppend(n.packets, [p]);
        DispatchAnswers(table, p, n.mask, o);
        AnswersAppend(table, CommandsOf(n.packets), n.sent, CommandsOf([p]), AsSeq(Dispatch(table, p, n.mask, o).1));
  }

  lemma RecoverKeepsInv(table: Table, n: Node, configured: bool, o: Outcome, arrived: seq<byte>)
    requires Inv(table, n, arrived)
    ensures Inv(table, Step(table, n, Recover(configured, o)), arrived)
  {
  }

  lemma TeensyReadOne(frames: seq<seq<byte>>, frame: seq<byte>)
    ensures TeensyRead(frames + [frame]) == TeensyRead(frames) + AsSeq(FromSegmentBounded(frame))
  {
    var one := [frame];
    TeensyReadAppend(frames, one);
    assert one[1..] == [] && TeensyRead([]) == [];
    Empty(AsSeq(FromSegmentBounded(frame)));
  }

  lemma {:induction false} StepsKeepInv(table: Table, n: Node, events: seq<StreamEvent>, arrived: seq<byte>)
    requires Inv(table, n, arrived)
    ensures Inv(table, Steps(table, n, events), arrived + Arrived(events))
    decreases |events|
  {
    hide Inv, Step;
    if events == [] {
      Empty(arrived);
    } else {
      match events[0] {
        case Arrive(bytes) =>
          ArriveKeepsInv(table, n, bytes, arrived);
          Assoc(arrived, bytes, Arrived(events[1..]));
          StepsKeepInv(table, Step(table, n, events[0]), events[1..], arrived + bytes);
        case PollOnce(o) =>
          PollKeepsInv(table, n, o, arrived);
          Empty(Arrived(events[1..]));
          StepsKeepInv(table, Step(table, n, events[0]), events[1..], arrived);
        case Recover(configured, o) =>
          RecoverKeepsInv(table, n, configured, o, arrived);
          Empty(Arrived(events[1..]));
          StepsKeepInv(table, Step(table, n, events[0]), events[1..], arrived);
      }
    }
  }

  lemma {:induction false} StepsAppend(table: Table, n: Node, a: seq<StreamEvent>, b: seq<StreamEvent>)
    ensures Steps(table, n, a + b) == Steps(table, Steps(table, n, a), b)
    decreases |a|
  {
    hide Step;
    if a == [] {
      Empty(b);
    } else {
      assert (a + b)[1..] == a[1..] + b;
      StepsAppend(table, Step(table, n, a[0]), a[1..], b);
    }
  }

  function Boot(mask: byte): Node {
    Node(Link([], []), mask, [], [], [])
  }

  /** However arrivals, polls and IMU resets interleave, no frame is lost, duplicated, reordered or invented:
      the frames decoded so far and those still in the stream are the frames of all bytes that
      arrived, and every command decoded has been answered once, in order. */
  lemma ScheduleIndependence(table: Table, mask: byte, events: seq<StreamEvent>)
    ensures var n := Steps(table, Boot(mask), events);
      && FramesIn(Arrived(events)) == n.frames + FramesIn(Stream(n.link))
      && n.packets == TeensyRead(n.frames)
      && AnswersAll(table, CommandsOf(n.packets), n.sent)
  {
    var n := Boot(mask);
    SplitZeroFree([]);
    assert Inv(table, n, []);
    StepsKeepInv(table, n, events, []);
    Empty(Arrived(events));
  }

  /** Once the port has been read empty, the firmware has decoded exactly the driver's packets
      that fit, and answered exactly the commands among them. */
  lemma Drained(table: Table, mask: byte, events: seq<StreamEvent>)
    requires Steps(table, Boot(mask), events).link.incoming == []
    ensures var n := Steps(table, Boot(mask), events);
      && n.packets == Fitting(PiPackets(Arrived(events)))
      && AnswersAll(table, CommandsOf(Fitting(PiPackets(Arrived(events)))), n.sent)
  {
    var n := Steps(table, Boot(mask), events);
    var arrived := Arrived(events);
    SplitZeroFree([]);
    StepsKeepInv(table, Boot(mask), events, []);
    Empty(arrived);
    Empty(n.link.partial);
    SplitZeroFree(n.link.partial);
    Empty(n.frames);
    ReceiversAgree(arrived);
  }
}
