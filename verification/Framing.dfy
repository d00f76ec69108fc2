/** Delimited streams: how a byte stream falls into segments, and what the two receivers make of it. */
module Framing {
  import opened Base
  import opened Packets
  import opened Cobs

  /** The delimited segments of a stream, in order; some may be empty. */
  function Segments(s: seq<byte>): seq<seq<byte>>
    decreases |s|
  {
    var n := RunLength(s, |s|);
    if n == |s| then [] else [s[..n]] + Segments(s[n + 1..])
  }

  /** The bytes after the last delimiter. */
  function Tail(s: seq<byte>): seq<byte>
    decreases |s|
  {
    var n := RunLength(s, |s|);
    if n == |s| then s else Tail(s[n + 1..])
  }

  function Join(segments: seq<seq<byte>>): seq<byte> {
    if segments == [] then [] else segments[0] + [0] + Join(segments[1..])
  }

  ghost predicate AllZeroFree(segments: seq<seq<byte>>) {
    forall i :: 0 <= i < |segments| ==> ZeroFree(segments[i])
  }

  lemma SplitZeroFree(s: seq<byte>)
    requires ZeroFree(s)
    ensures Segments(s) == [] && Tail(s) == s
  {
    assert s[..|s|] == s;
    RunLengthIs(s, |s|, |s|);
  }

  lemma FirstPiece(seg: seq<byte>, rest: seq<byte>)
    requires ZeroFree(seg)
    ensures Segments(seg + [0] + rest) == [seg] + Segments(rest)
    ensures Tail(seg + [0] + rest) == Tail(rest)
  {
    var s := seg + [0] + rest;
    assert s[..|seg|] == seg && s[|seg| + 1..] == rest;
    RunLengthIs(s, |s|, |seg|);
  }

  /** Segments and tail are the one way to write a stream as zero-free pieces between delimiters. */
  lemma {:induction false} SplitIsUnique(s: seq<byte>, segments: seq<seq<byte>>, tail: seq<byte>)
    requires AllZeroFree(segments) && ZeroFree(tail)
    ensures s == Join(segments) + tail ==> segments == Segments(s) && tail == Tail(s)
    decreases |segments|
  {
    if s == Join(segments) + tail {
      hide Segments, Tail;
      if segments == [] {
        Empty(tail);
        SplitZeroFree(s);
      } else {
        var seg, rest := segments[0], Join(segments[1..]) + tail;
        Assoc(seg + [0], Join(segments[1..]), tail);
        FirstPiece(seg, rest);
        assert segments == [seg] + segments[1..];
        SplitIsUnique(rest, segments[1..], tail);
      }
    }
  }

  lemma {:induction false} SplitExists(s: seq<byte>)
    ensures AllZeroFree(Segments(s)) && ZeroFree(Tail(s))
    ensures s == Join(Segments(s)) + Tail(s)
    decreases |s|
  {
    var n := RunLength(s, |s|);
    if n == |s| {
      assert s[..n] == s && [] + s == s;
    } else {
      var rest := s[n + 1..];
      SplitExists(rest);
      SplitAtZero(s, n);
      assert Segments(s)[1..] == Segments(rest);
      Assoc(s[..n] + [0], Join(Segments(rest)), Tail(rest));
    }
  }

  lemma {:induction false} JoinAppend(a: seq<seq<byte>>, b: seq<seq<byte>>)
    ensures Join(a + b) == Join(a) + Join(b)
    decreases |a|
  {
    if a == [] {
      assert a + b == b;
    } else {
      assert (a + b)[1..] == a[1..] + b;
      JoinAppend(a[1..], b);
      Assoc(a[0] + [0], Join(a[1..]), Join(b));
    }
  }

  /** Splitting can be resumed from the tail alone. */
  lemma SplitAppend(a: seq<byte>, b: seq<byte>)
    ensures Segments(a + b) == Segments(a) + Segments(Tail(a) + b)
    ensures Tail(a + b) == Tail(Tail(a) + b)
  {
    var c := Tail(a) + b;
    SplitExists(a);
    SplitExists(c);
    hide Segments, Tail, Join;
    var segments := Segments(a) + Segments(c);
    JoinAppend(Segments(a), Segments(c));
    Assoc(Join(Segments(a)), Tail(a), b);
    Assoc(Join(Segments(a)), Join(Segments(c)), Tail(c));
    SplitIsUnique(a + b, segments, Tail(c));
  }

  lemma SplitDelimited(seg: seq<byte>)
    requires ZeroFree(seg)
    ensures Segments(seg + [0]) == [seg] && Tail(seg + [0]) == []
  {
    assert Join([seg]) + [] == seg + [0];
    SplitIsUnique(seg + [0], [seg], []);
  }

  // ----- the two receivers -----

  function PiReadOne(segment: seq<byte>): seq<Packet> {
    if segment == [] then [] else AsSeq(FromSegment(segment))
  }

  /** The driver decodes every segment that is not empty. */
  function PiRead(segments: seq<seq<byte>>): seq<Packet> {
    if segments == [] then [] else PiReadOne(segments[0]) + PiRead(segments[1..])
  }

  function PiPackets(s: seq<byte>): seq<Packet> {
    PiRead(Segments(s))
  }

  function BufferedOne(segment: seq<byte>): seq<seq<byte>> {
    if 0 < |segment| <= MAX_ENCODED_SIZE then [segment] else []
  }

  /** The segments that the firmware's buffer hands on: not empty, and no longer than it is. */
  function Buffered(segments: seq<seq<byte>>): seq<seq<byte>> {
    if segments == [] then [] else BufferedOne(segments[0]) + Buffered(segments[1..])
  }

  function TeensyRead(frames: seq<seq<byte>>): seq<Packet> {
    if frames == [] then [] else AsSeq(FromSegmentBounded(frames[0])) + TeensyRead(frames[1..])
  }

  function TeensyPackets(s: seq<byte>): seq<Packet> {
    TeensyRead(Buffered(Segments(s)))
  }

  function FittingOne(p: Packet): seq<Packet> {
    if Fits(p) then [p] else []
  }

  /** The packets a firmware buffer has room for. */
  function Fitting(ps: seq<Packet>): seq<Packet> {
    if ps == [] then [] else FittingOne(ps[0]) + Fitting(ps[1..])
  }

  lemma {:induction false} ReadersAgree(segments: seq<seq<byte>>)
    requires AllZeroFree(segments)
    ensures TeensyRead(Buffered(segments)) == Fitting(PiRead(segments))
    decreases |segments|
  {
    if segments == [] {
    } else {
      var seg, rest := segments[0], segments[1..];
      assert AllZeroFree(rest) by {
        assert forall i :: 0 <= i < |rest| ==> rest[i] == segments[i + 1];
      }
      ReadersAgree(rest);
      if seg == [] {
        assert [] + Buffered(rest) == Buffered(rest) && [] + PiRead(rest) == PiRead(rest);
      } else {
        SegmentAgreement(seg);
        AgreeOnSegment(seg, Buffered(rest), PiRead(rest));
      }
    }
  }

  lemma AgreeOnSegment(seg: seq<byte>, frames: seq<seq<byte>>, packets: seq<Packet>)
    requires TeensyRead(frames) == Fitting(packets)
    requires FromSegmentBounded(seg) == KeepFitting(FromSegment(seg))
    requires |seg| > MAX_ENCODED_SIZE ==> KeepFitting(FromSegment(seg)) == None
    ensures TeensyRead((if |seg| <= MAX_ENCODED_SIZE then [seg] else []) + frames) ==
      Fitting(AsSeq(FromSegment(seg)) + packets)
  {
    assert ([seg] + frames)[1..] == frames && [] + frames == frames && [] + packets == packets;
    match FromSegment(seg)
    case None =>
    case Some(p) => assert ([p] + packets)[1..] == packets;
  }

  /** On any byte stream whatever, the firmware obtains exactly the driver's packets with
      payloads of at most 64 bytes, in the same order. */
  lemma ReceiversAgree(s: seq<byte>)
    ensures TeensyPackets(s) == Fitting(PiPackets(s))
  {
    SplitExists(s);
    ReadersAgree(Segments(s));
  }

  lemma {:induction false} PiReadAppend(a: seq<seq<byte>>, b: seq<seq<byte>>)
    ensures PiRead(a + b) == PiRead(a) + PiRead(b)
    decreases |a|
  {
    if a == [] {
      assert a + b == b;
    } else {
      assert (a + b)[1..] == a[1..] + b;
      PiReadAppend(a[1..], b);
      Assoc(PiReadOne(a[0]), PiRead(a[1..]), PiRead(b));
    }
  }

  lemma {:induction false} BufferedAppend(a: seq<seq<byte>>, b: seq<seq<byte>>)
    ensures Buffered(a + b) == Buffered(a) + Buffered(b)
    decreases |a|
  {
    if a == [] {
      assert a + b == b;
    } else {
      assert (a + b)[1..] == a[1..] + b;
      BufferedAppend(a[1..], b);
      Assoc(BufferedOne(a[0]), Buffered(a[1..]), Buffered(b));
    }
  }

  lemma {:induction false} FittingAppend(a: seq<Packet>, b: seq<Packet>)
    ensures Fitting(a + b) == Fitting(a) + Fitting(b)
    decreases |a|
  {
    if a == [] {
      assert a + b == b;
    } else {
      assert (a + b)[1..] == a[1..] + b;
      FittingAppend(a[1..], b);
      Assoc(FittingOne(a[0]), Fitting(a[1..]), Fitting(b));
    }
  }

  /** Reading can be resumed from the bytes after the last delimiter. */
  lemma PiPacketsAppend(a: seq<byte>, b: seq<byte>)
    ensures PiPackets(a + b) == PiPackets(a) + PiPackets(Tail(a) + b)
    ensures Tail(a + b) == Tail(Tail(a) + b)
  {
    SplitAppend(a, b);
    PiReadAppend(Segments(a), Segments(Tail(a) + b));
  }

  lemma ReadOne(segment: seq<byte>)
    ensures segment == [] ==> PiReadOne(segment) == []
    ensures segment != [] && FromSegment(segment) == None ==> PiReadOne(segment) == []
    ensures segment != [] && FromSegment(segment).Some? ==> PiReadOne(segment) == [FromSegment(segment).value]
  {
  }

  lemma FirstSegment(s: seq<byte>)
    requires RunLength(s, |s|) < |s|
    ensures var n := RunLength(s, |s|);
      PiPackets(s) == PiReadOne(s[..n]) + PiPackets(s[n + 1..]) && Tail(s) == Tail(s[n + 1..])
  {
    hide RunLength, PiReadOne, PiRead, Segments, Tail;
    var n := RunLength(s, |s|);
    SplitAtZero(s, n);
    FirstPiece(s[..n], s[n + 1..]);
    PiReadCons(s[..n], Segments(s[n + 1..]));
  }

  lemma PiReadCons(segment: seq<byte>, segments: seq<seq<byte>>)
    ensures PiRead([segment] + segments) == PiReadOne(segment) + PiRead(segments)
  {
    hide PiReadOne;
    assert ([segment] + segments)[1..] == segments;
  }

  lemma ZeroFreeStream(s: seq<byte>)
    requires ZeroFree(s)
    ensures PiPackets(s) == [] && Tail(s) == s
  {
    SplitZeroFree(s);
  }

  lemma TailIsZeroFree(s: seq<byte>)
    ensures ZeroFree(Tail(s))
  {
    SplitExists(s);
  }

  // ----- streams of encoded packets -----

  function WireAll(ps: seq<Packet>): seq<byte> {
    if ps == [] then [] else Wire(ps[0]) + WireAll(ps[1..])
  }

  lemma {:induction false} WireAllAppend(a: seq<Packet>, p: Packet)
    ensures WireAll(a + [p]) == WireAll(a) + Wire(p)
    decreases |a|
  {
    hide Wire;
    if a == [] {
      var one := [p];
      assert [] + one == one && one[1..] == [] && WireAll([]) == [];
      Empty(Wire(p));
    } else {
      assert (a + [p])[1..] == a[1..] + [p];
      WireAllAppend(a[1..], p);
      Assoc(Wire(a[0]), WireAll(a[1..]), Wire(p));
    }
  }

  lemma OneSegment(t: seq<byte>)
    requires ZeroFree(t) && t != []
    ensures PiPackets(t + [0]) == AsSeq(FromSegment(t)) && Tail(t + [0]) == []
  {
    hide Segments, Tail, FromSegment;
    SplitDelimited(t);
    var segments := [t];
    assert segments[1..] == [] && PiRead([]) == [];
    assert PiRead(segments) == PiReadOne(t) + PiRead(segments[1..]);
    Empty(PiReadOne(t));
  }

  lemma OnePacket(p: Packet)
    ensures PiPackets(Wire(p)) == [p] && Tail(Wire(p)) == []
  {
    PacketRoundTrip(p);
    OneSegment(Encode(Frame(p)));
  }

  /** A stream of encoded packets reads as those packets, with nothing left over. */
  lemma {:induction false} CleanStream(ps: seq<Packet>)
    ensures PiPackets(WireAll(ps)) == ps && Tail(WireAll(ps)) == []
    decreases |ps|
  {
    if ps == [] {
    } else {
      hide PiPackets, Tail, Wire;
      var rest := WireAll(ps[1..]);
      OnePacket(ps[0]);
      CleanStream(ps[1..]);
      PiPacketsAppend(Wire(ps[0]), rest);
      Empty(rest);
      assert ps == [ps[0]] + ps[1..];
    }
  }

  lemma {:induction false} AllFit(ps: seq<Packet>)
    requires forall i :: 0 <= i < |ps| ==> |ps[i].payload| <= 64
    ensures Fitting(ps) == ps
    decreases |ps|
  {
    if ps == [] {
    } else {
      AllFit(ps[1..]);
    }
  }

  /** So it does for the firmware, if the payloads have at most 64 bytes. */
  lemma CleanStreamTeensy(ps: seq<Packet>)
    requires forall i :: 0 <= i < |ps| ==> |ps[i].payload| <= 64
    ensures TeensyPackets(WireAll(ps)) == ps
  {
    hide PiPackets, TeensyPackets, WireAll, Fitting;
    CleanStream(ps);
    ReceiversAgree(WireAll(ps));
    AllFit(ps);
  }

  /** After any garbage that ends with a delimiter, every packet is recovered, at both ends. */
  lemma Resynchronisation(garbage: seq<byte>, ps: seq<Packet>)
    ensures PiPackets(garbage + [0] + WireAll(ps)) == PiPackets(garbage + [0]) + ps
    ensures TeensyPackets(garbage + [0] + WireAll(ps)) == TeensyPackets(garbage + [0]) + Fitting(ps)
    ensures Tail(garbage + [0] + WireAll(ps)) == []
  {
    var g := garbage + [0];
    TailAfterDelimiter(garbage);
    PiPacketsAppend(g, WireAll(ps));
    assert [] + WireAll(ps) == WireAll(ps);
    CleanStream(ps);
    ReceiversAgree(g + WireAll(ps));
    ReceiversAgree(g);
    FittingAppend(PiPackets(g), ps);
  }

  lemma TailAfterDelimiter(garbage: seq<byte>)
    ensures Tail(garbage + [0]) == []
    ensures Segments(garbage + [0]) == Segments(garbage) + [Tail(garbage)]
  {
    SplitExists(garbage);
    SplitAppend(garbage, [0]);
    SplitDelimited(Tail(garbage));
  }

  /** What a packet sent right behind garbage is read as: at most one packet. */
  function Spoilt(garbage: seq<byte>, p: Packet): (s: seq<Packet>)
    ensures |s| <= 1
  {
    AsSeq(FromSegment(Tail(garbage) + Encode(Frame(p))))
  }

  lemma BehindGarbage(garbage: seq<byte>, p: Packet)
    ensures PiPackets(garbage + Wire(p)) == PiPackets(garbage) + Spoilt(garbage, p)
    ensures Tail(garbage + Wire(p)) == []
  {
    hide PiPackets, Tail, Encode, FromSegment, Frame, AsSeq;
    var e := Encode(Frame(p));
    var t := Tail(garbage) + e;
    PacketRoundTrip(p);
    SplitExists(garbage);
    PiPacketsAppend(garbage, Wire(p));
    Assoc(Tail(garbage), e, [0]);
    OneSegment(t);
  }

  /** After garbage without a delimiter the first packet may be spoilt, but all others are
      recovered by the driver ... */
  lemma LateResynchronisation(garbage: seq<byte>, ps: seq<Packet>)
    requires ps != []
    ensures PiPackets(garbage + WireAll(ps)) == PiPackets(garbage) + Spoilt(garbage, ps[0]) + ps[1..]
    ensures Tail(garbage + WireAll(ps)) == []
  {
    hide PiPackets, Tail, Wire, Spoilt;
    var rest := WireAll(ps[1..]);
    BehindGarbage(garbage, ps[0]);
    CleanStream(ps[1..]);
    Assoc(garbage, Wire(ps[0]), rest);
    PiPacketsAppend(garbage + Wire(ps[0]), rest);
    Empty(rest);
  }

  /** ... and by the firmware. */
  lemma LateResynchronisationTeensy(garbage: seq<byte>, ps: seq<Packet>)
    requires ps != []
    ensures TeensyPackets(garbage + WireAll(ps)) ==
      TeensyPackets(garbage) + Fitting(Spoilt(garbage, ps[0])) + Fitting(ps[1..])
  {
    hide PiPackets, TeensyPackets, Spoilt, Fitting;
    LateResynchronisation(garbage, ps);
    ReceiversAgree(garbage + WireAll(ps));
    ReceiversAgree(garbage);
    FittingAppend(PiPackets(garbage) + Spoilt(garbage, ps[0]), ps[1..]);
    FittingAppend(PiPackets(garbage), Spoilt(garbage, ps[0]));
  }
}
