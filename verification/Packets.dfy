/** Packets on the wire: two header bytes, a payload and a checksum, COBS-encoded and delimited. */
module Packets {
  import opened Base
  import opened Cobs
  import Crc
  import CrcErrors

  const MAX_PAYLOAD_SIZE: nat := 64
  const HEADER_SIZE: nat := 2
  const CRC_SIZE: nat := 1
  const MAX_FRAME_SIZE: nat := HEADER_SIZE + MAX_PAYLOAD_SIZE + CRC_SIZE

  /** The largest encoded packet, with its delimiter. */
  const MAX_ENCODED_SIZE: nat := MAX_PAYLOAD_SIZE + 3 + (MAX_PAYLOAD_SIZE + 3) / 254 + 2

  datatype Packet = Packet(packetId: byte, deviceId: byte, payload: seq<byte>)

  predicate Fits(p: Packet) {
    |p.payload| <= MAX_PAYLOAD_SIZE
  }

  function Body(p: Packet): (b: seq<byte>)
    ensures |b| == HEADER_SIZE + |p.payload|
  {
    [p.packetId, p.deviceId] + p.payload
  }

  function Frame(p: Packet): (f: seq<byte>)
    ensures |f| == HEADER_SIZE + |p.payload| + CRC_SIZE
  {
    Body(p) + [Crc.Checksum(Body(p))]
  }

  /** The bytes sent for a packet. */
  function Wire(p: Packet): seq<byte> {
    Encode(Frame(p)) + [0]
  }

  function Parse(frame: seq<byte>): Option<Packet> {
    if |frame| < HEADER_SIZE + CRC_SIZE || !CrcErrors.Accepts(frame) then None
    else Some(Packet(frame[0], frame[1], frame[HEADER_SIZE..|frame| - CRC_SIZE]))
  }

  /** What the driver reads in a delimiter-free segment. */
  function FromSegment(e: seq<byte>): Option<Packet> {
    match Decode(e)
    case None => None
    case Some(frame) => Parse(frame)
  }

  /** What the firmware reads in it, with room for the largest frame only. */
  function FromSegmentBounded(e: seq<byte>): Option<Packet> {
    match DecodeBounded(e, MAX_FRAME_SIZE)
    case None => None
    case Some(frame) => Parse(frame)
  }

  // ----- packets and frames -----

  /** Parsing accepts the frame of a packet, and no other bytes, as that packet. */
  lemma ParseIffFrame(frame: seq<byte>, p: Packet)
    ensures Parse(frame) == Some(p) <==> frame == Frame(p)
  {
    var f := Frame(p);
    assert f[..|f| - 1] == Body(p);
    assert f[HEADER_SIZE..|f| - 1] == p.payload;
    if Parse(frame) == Some(p) {
      var n := |frame| - 1;
      assert frame == frame[..n] + [frame[n]];
      assert frame[..n] == [frame[0], frame[1]] + frame[HEADER_SIZE..n];
    }
  }

  /** A packet of any size survives encoding and decoding. */
  lemma PacketRoundTrip(p: Packet)
    ensures FromSegment(Encode(Frame(p))) == Some(p)
    ensures FromSegmentBounded(Encode(Frame(p))) == if Fits(p) then Some(p) else None
    ensures ZeroFree(Encode(Frame(p))) && Encode(Frame(p)) != []
  {
    RoundTrip(Frame(p));
    EncodeIsZeroFree(Frame(p));
    ParseIffFrame(Frame(p), p);
  }

  /** A packet that fits takes five bytes more than its payload. */
  lemma WireSize(p: Packet)
    requires Fits(p)
    ensures |Wire(p)| == |p.payload| + 5 <= MAX_ENCODED_SIZE == 69
  {
    ShortEncode(Frame(p));
  }

  /** The one segment that is read as a given packet. */
  lemma OnlySegment(e: seq<byte>, p: Packet)
    requires ZeroFree(e) && e != [] && Fits(p)
    ensures FromSegment(e) == Some(p) <==> e == Encode(Frame(p))
  {
    PacketRoundTrip(p);
    if FromSegment(e) == Some(p) {
      var frame := Decode(e).value;
      ParseIffFrame(frame, p);
      ShortDecode(e, frame);
      ShortEncode(frame);
      NormalForm(e, frame);
      assert e + [] == e;
    }
  }

  function KeepFitting(p: Option<Packet>): Option<Packet> {
    match p
    case None => None
    case Some(v) => if Fits(v) then p else None
  }

  /** The two decoders agree on every segment, except that the firmware drops large packets;
      and a segment too long for its buffer could only have held such a packet. */
  lemma SegmentAgreement(e: seq<byte>)
    requires ZeroFree(e) && e != []
    ensures FromSegmentBounded(e) == KeepFitting(FromSegment(e))
    ensures |e| > MAX_ENCODED_SIZE ==> KeepFitting(FromSegment(e)) == None
  {
    match Decode(e)
    case None =>
    case Some(frame) =>
      if |frame| <= MAX_FRAME_SIZE {
        ShortDecode(e, frame);
      }
      if Parse(frame).Some? {
        ParseIffFrame(frame, Parse(frame).value);
      }
  }

  /** Replacing one data byte of an encoded packet gets the segment rejected by both ends. */
  lemma CorruptionRejected(p: Packet, i: nat, b: byte)
    requires IsDataByte(Encode(Frame(p)), i) && i < |Encode(Frame(p))| && b != Encode(Frame(p))[i]
    ensures FromSegment(Encode(Frame(p))[i := b]) == None
    ensures FromSegmentBounded(Encode(Frame(p))[i := b]) == None
  {
    var e, frame := Encode(Frame(p)), Frame(p);
    RoundTrip(frame);
    var j := DataByteChange(e, i, b);
    ParseIffFrame(frame, p);
    CrcErrors.ByteChangeDetected(frame, j, b);
  }

  // ----- the bytes of a frame -----

  /** A frame is two id bytes, the payload, and the remainder of the polynomial division. */
  lemma FrameLayout(p: Packet)
    ensures var f := Frame(p); var n := |p.payload|;
      && |f| == n + 3 && f[0] == p.packetId && f[1] == p.deviceId && f[2..n + 2] == p.payload
      && Crc.IsRemainder([p.packetId, p.deviceId] + p.payload, f[n + 2])
  {
    hide Crc.Checksum, Crc.IsRemainder;
    Crc.ChecksumIsRemainder(Body(p), Crc.Checksum(Body(p)));
  }

  // ----- the packets of one kind -----

  function WithId(ps: seq<Packet>, id: byte): seq<Packet> {
    if ps == [] then [] else (if ps[0].packetId == id then [ps[0]] else []) + WithId(ps[1..], id)
  }

  lemma {:induction false} WithIdAppend(a: seq<Packet>, b: seq<Packet>, id: byte)
    ensures WithId(a + b, id) == WithId(a, id) + WithId(b, id)
    decreases |a|
  {
    if a == [] {
      Empty(b);
      Empty(WithId(b, id));
    } else {
      assert (a + b)[1..] == a[1..] + b;
      WithIdAppend(a[1..], b, id);
      Assoc(if a[0].packetId == id then [a[0]] else [], WithId(a[1..], id), WithId(b, id));
    }
  }

  lemma WithIdOne(p: Packet, id: byte)
    ensures WithId([p], id) == if p.packetId == id then [p] else []
  {
    var ps := [p];
    assert ps[1..] == [] && WithId([], id) == [];
  }
}
