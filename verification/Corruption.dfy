/** What the receivers read when one COBS data byte of a packet in a stream is changed. */
module Corruption {
  import opened Base
  import opened Cobs
  import opened Crc
  import opened Packets
  import opened Framing

  /** Reading a delimited piece in the middle of a stream. */
  lemma ReadPiece(a: seq<Packet>, piece: seq<byte>, rest: seq<byte>)
    requires ZeroFree(piece)
    ensures PiPackets(WireAll(a) + (piece + [0] + rest)) == a + (PiReadOne(piece) + PiPackets(rest))
    ensures Tail(WireAll(a) + (piece + [0] + rest)) == Tail(rest)
  {
    hide Segments, Tail, PiRead, PiReadOne, WireAll;
    CleanStream(a);
    PiPacketsAppend(WireAll(a), piece + [0] + rest);
    Empty(piece + [0] + rest);
    FirstPiece(piece, rest);
    PiReadCons(piece, Segments(rest));
  }

  lemma ChangedFrame(p: Packet, i: nat, b: byte)
    requires i < |Encode(Frame(p))| && IsDataByte(Encode(Frame(p)), i)
    requires b != 0 && b != Encode(Frame(p))[i]
    ensures var piece := Encode(Frame(p))[i := b];
      && ZeroFree(piece) && FromSegment(piece) == None
      && i < |Wire(p)| && Wire(p)[i := b] == piece + [0]
  {
    EncodeIsZeroFree(Frame(p));
    CorruptionRejected(p, i, b);
    hide Encode, FromSegment;
  }

  /** A data byte changed to another non-zero byte costs exactly the packet it is in. */
  lemma ChangedByte(a: seq<Packet>, p: Packet, i: nat, b: byte, c: seq<Packet>)
    requires i < |Encode(Frame(p))| && IsDataByte(Encode(Frame(p)), i)
    requires b != 0 && b != Encode(Frame(p))[i]
    ensures PiPackets(WireAll(a) + Wire(p)[i := b] + WireAll(c)) == a + c
    ensures TeensyPackets(WireAll(a) + Wire(p)[i := b] + WireAll(c)) == Fitting(a + c)
    ensures Tail(WireAll(a) + Wire(p)[i := b] + WireAll(c)) == []
  {
    hide PiPackets, TeensyPackets, Tail, WireAll, Encode, Wire, FromSegment, Frame, Fitting;
    ChangedFrame(p, i, b);
    var piece := Encode(Frame(p))[i := b];
    Assoc(WireAll(a), piece + [0], WireAll(c));
    ReadPiece(a, piece, WireAll(c));
    CleanStream(c);
    ReadOne(piece);
    Empty(c);
    ReceiversAgree(WireAll(a) + Wire(p)[i := b] + WireAll(c));
  }

  lemma ZeroedFrame(p: Packet, i: nat)
    requires i < |Encode(Frame(p))| && IsDataByte(Encode(Frame(p)), i)
    ensures var before, behind := Encode(Frame(p))[..i], Encode(Frame(p))[i + 1..];
      && ZeroFree(before) && ZeroFree(behind) && FromSegment(before) == None
      && i < |Wire(p)| && Wire(p)[i := 0] == before + [0] + (behind + [0])
  {
    hide Encode, Decode;
    EncodeIsZeroFree(Frame(p));
    CutFrame(Encode(Frame(p)), i);
  }

  /** A data byte changed to zero splits its frame: the part in front of it is rejected, and the
      part behind it is read as a segment of its own. */
  lemma ZeroedByte(a: seq<Packet>, p: Packet, i: nat, c: seq<Packet>)
    requires i < |Encode(Frame(p))| && IsDataByte(Encode(Frame(p)), i)
    ensures PiPackets(WireAll(a) + Wire(p)[i := 0] + WireAll(c)) == a + (PiReadOne(Encode(Frame(p))[i + 1..]) + c)
    ensures TeensyPackets(WireAll(a) + Wire(p)[i := 0] + WireAll(c)) ==
      Fitting(a + (PiReadOne(Encode(Frame(p))[i + 1..]) + c))
    ensures Tail(WireAll(a) + Wire(p)[i := 0] + WireAll(c)) == []
  {
    hide PiPackets, TeensyPackets, Tail, WireAll, Encode, Wire, FromSegment, Frame, PiReadOne, Fitting;
    ZeroedFrame(p, i);
    var before, behind := Encode(Frame(p))[..i], Encode(Frame(p))[i + 1..];
    Assoc(before + [0], behind + [0], WireAll(c));
    Assoc(WireAll(a), before + [0] + (behind + [0]), WireAll(c));
    ReadPiece(a, before, behind + [0] + WireAll(c));
    ReadFirst(behind, WireAll(c));
    CleanStream(c);
    ReadOne(before);
    Empty(PiReadOne(behind) + c);
    ReceiversAgree(WireAll(a) + Wire(p)[i := 0] + WireAll(c));
  }

  /** The only thing a short segment can be read as is the packet it is the frame of. */
  lemma ReadsAsFrame(segment: seq<byte>)
    requires ZeroFree(segment) && |segment| < MAX_ENCODED_SIZE
    ensures PiReadOne(segment) != [] <==> exists q :: Fits(q) && Encode(Frame(q)) == segment
  {
    hide Encode, Frame, FromSegmentBounded;
    if segment != [] && FromSegment(segment).Some? {
      var q := FromSegment(segment).value;
      ShortSegment(segment, q);
      OnlySegment(segment, q);
    }
    forall q | Fits(q) && Encode(Frame(q)) == segment
      ensures PiReadOne(segment) == [q]
    {
      PacketRoundTrip(q);
    }
  }

  lemma ShortSegment(segment: seq<byte>, q: Packet)
    requires ZeroFree(segment) && segment != [] && |segment| < MAX_ENCODED_SIZE && FromSegment(segment) == Some(q)
    ensures Fits(q)
  {
    var frame := Decode(segment).value;
    DecodeShrinks(segment);
    ParseIffFrame(frame, q);
  }

  /** Zeroing a data byte of a packet does more than to lose it exactly if what is behind the byte
      is the frame of a packet. */
  lemma ZeroedIffInner(a: seq<Packet>, p: Packet, i: nat, c: seq<Packet>)
    requires i < |Encode(Frame(p))| && IsDataByte(Encode(Frame(p)), i) && Fits(p)
    ensures PiPackets(WireAll(a) + Wire(p)[i := 0] + WireAll(c)) != a + c <==>
      exists q :: Fits(q) && Encode(Frame(q)) == Encode(Frame(p))[i + 1..]
  {
    hide PiPackets, WireAll, Encode, Frame, PiReadOne;
    var behind := Encode(Frame(p))[i + 1..];
    ZeroedByte(a, p, i, c);
    ZeroedFrame(p, i);
    WireSize(p);
    ReadsAsFrame(behind);
    Surplus(a, PiReadOne(behind), c);
  }

  lemma Surplus<T>(a: seq<T>, x: seq<T>, c: seq<T>)
    ensures a + (x + c) == a + c <==> x == []
  {
    if x == [] {
      Empty(c);
    } else {
      assert |a + (x + c)| > |a + c|;
    }
  }

  lemma ReadFirst(piece: seq<byte>, rest: seq<byte>)
    requires ZeroFree(piece)
    ensures PiPackets(piece + [0] + rest) == PiReadOne(piece) + PiPackets(rest)
    ensures Tail(piece + [0] + rest) == Tail(rest)
  {
    hide Segments, Tail, PiRead, PiReadOne;
    FirstPiece(piece, rest);
    PiReadCons(piece, Segments(rest));
  }

  // ----- a packet within a packet -----

  const HOST: Packet := Packet(0x10, 0x01, [0x3D, 0x04, 0x10, 0x01])
  const PHANTOM: Packet := Packet(0x10, 0x01, [])

  lemma RegisterStep(s: byte, x: byte, data: seq<byte>)
    ensures Register(s, [x] + data) == Register(ShiftN(s ^ x, 8), data)
  {
    assert ([x] + data)[1..] == data;
  }

  lemma PhantomShifts()
    ensures ShiftN(0x10, 8) == 0x70 && ShiftN(0x71, 8) == 0x50 && ShiftN(0x6D, 8) == 0x04 && ShiftN(0x00, 8) == 0x00
  {
  }

  /** The bytes 0x3D, 0x04 behind the header bring the register back to zero. */
  lemma PhantomChecksums()
    ensures Checksum(Body(PHANTOM)) == 0x50 && Checksum(Body(HOST)) == 0x50
  {
    hide ShiftN, Register;
    PhantomShifts();
    assert Body(PHANTOM) == [0x10] + ([0x01] + []);
    assert Body(HOST) == [0x10] + ([0x01] + ([0x3D] + ([0x04] + Body(PHANTOM))));
    RegisterStep(0, 0x10, [0x01] + []);
    RegisterStep(0x70, 0x01, []);
    RegisterStep(0, 0x10, [0x01] + ([0x3D] + ([0x04] + Body(PHANTOM))));
    RegisterStep(0x70, 0x01, [0x3D] + ([0x04] + Body(PHANTOM)));
    RegisterStep(0x50, 0x3D, [0x04] + Body(PHANTOM));
    RegisterStep(0x04, 0x04, Body(PHANTOM));
    NoData(0x50);
  }

  lemma NoData(s: byte)
    ensures Register(s, []) == s
  {
  }

  lemma PhantomFrames()
    ensures Encode(Frame(PHANTOM)) == [0x04, 0x10, 0x01, 0x50]
    ensures Encode(Frame(HOST)) == [0x08, 0x10, 0x01, 0x3D, 0x04, 0x10, 0x01, 0x50]
  {
    hide Encode, Checksum;
    PhantomChecksums();
    assert Frame(PHANTOM) == [0x10, 0x01, 0x50];
    assert Frame(HOST) == [0x10, 0x01, 0x3D, 0x04, 0x10, 0x01, 0x50];
    EncodeRun(Frame(PHANTOM), []);
    EncodeRun(Frame(HOST), []);
    assert Counter(4) == 0x04 && Counter(8) == 0x08;
  }

  /** One zeroed byte makes both receivers read a packet that was never sent. */
  lemma Phantom(a: seq<Packet>, c: seq<Packet>)
    ensures IsDataByte(Encode(Frame(HOST)), 3) && 3 < |Wire(HOST)|
    ensures PiPackets(WireAll(a) + Wire(HOST)[3 := 0] + WireAll(c)) == a + ([PHANTOM] + c)
    ensures TeensyPackets(WireAll(a) + Wire(HOST)[3 := 0] + WireAll(c)) == Fitting(a + ([PHANTOM] + c))
  {
    hide Encode, Frame, PiPackets, TeensyPackets, WireAll, Fitting, FromSegment;
    PhantomFrames();
    assert ToNat(0x08) == 8;
    assert Encode(Frame(HOST))[4..] == Encode(Frame(PHANTOM));
    PacketRoundTrip(PHANTOM);
    ReadOne(Encode(Frame(PHANTOM)));
    ZeroedByte(a, HOST, 3, c);
  }
}
