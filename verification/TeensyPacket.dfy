/** The firmware's packet encoder and decoder, over fixed-size buffers. */
module TeensyPacket {
  import opened Base
  import opened Packets
  import Cobs
  import Crc
  import TeensyCobs

  /** A packet with embedded storage: `size` bytes of the 64-byte payload are in use. */
  datatype RawPacket = RawPacket(packetId: byte, deviceId: byte, payload: seq<byte>, size: nat)

  ghost predicate ValidRaw(p: RawPacket) {
    |p.payload| == MAX_PAYLOAD_SIZE
  }

  function View(p: RawPacket): Packet
    requires p.size <= |p.payload|
  {
    Packet(p.packetId, p.deviceId, p.payload[..p.size])
  }

  /** The first half of `encode`: lay out header, payload and checksum. */
  method FillFrame(packet: RawPacket, frame: array<byte>) returns (frameSize: nat)
    requires ValidRaw(packet) && packet.size <= MAX_PAYLOAD_SIZE && frame.Length == MAX_FRAME_SIZE
    modifies frame
    ensures frameSize == HEADER_SIZE + packet.size
    ensures frame[..frameSize + CRC_SIZE] == Frame(View(packet))
  {
    hide Crc.Checksum;
    frame[0] := packet.packetId;
    frame[1] := packet.deviceId;
    var i := 0;
    while i < packet.size
      invariant i <= packet.size
      invariant frame[0] == packet.packetId && frame[1] == packet.deviceId
      invariant forall j :: 0 <= j < i ==> frame[HEADER_SIZE + j] == packet.payload[j]
    {
      frame[HEADER_SIZE + i] := packet.payload[i];
      i := i + 1;
    }
    frameSize := HEADER_SIZE + packet.size;
    assert frame[..frameSize] == Body(View(packet));
    var crc := Crc.CalculateCrc(frame, frameSize);
    frame[frameSize] := crc;
    assert frame[..frameSize + CRC_SIZE] == Body(View(packet)) + [crc];
  }

  /** `encode`: the number of bytes written, or -1 when the payload or the result does not fit. */
  method Encode(packet: RawPacket, out: array<byte>, outSize: nat) returns (n: int)
    requires ValidRaw(packet) && outSize <= out.Length
    modifies out
    ensures n == -1 <==> packet.size > MAX_PAYLOAD_SIZE || outSize < packet.size + 5
    ensures n != -1 ==> n == packet.size + 5 && out[..n] == Wire(View(packet))
    ensures forall i :: outSize <= i < out.Length ==> out[i] == old(out[i])
  {
    if packet.size > MAX_PAYLOAD_SIZE || outSize == 0 {
      return -1;
    }
    hide Cobs.Encode, Cobs.Capacity;
    Cobs.ShortCapacity(packet.size + 3);
    Cobs.ShortEncode(Frame(View(packet)));
    var frame := new byte[MAX_FRAME_SIZE](_ => 0);
    var frameSize := FillFrame(packet, frame);
    var encodedSize := TeensyCobs.EncodeCobs(frame, frameSize + CRC_SIZE, out, outSize - 1);
    if encodedSize < 0 {
      return -1;
    }
    out[encodedSize] := 0;
    assert out[..encodedSize + 1] == out[..encodedSize] + [0];
    return encodedSize + 1;
  }

  /** `decode`: the packet in a delimiter-free segment, if it is well formed. */
  method Decode(data: array<byte>, size: nat) returns (r: Option<RawPacket>)
    requires size <= data.Length
    ensures r.None? <==> FromSegmentBounded(data[..size]) == None
    ensures r.Some? ==> ValidRaw(r.value) && r.value.size <= MAX_PAYLOAD_SIZE
    ensures r.Some? ==> FromSegmentBounded(data[..size]) == Some(View(r.value))
  {
    hide Cobs.Decode, Crc.Checksum;
    var decoded := new byte[MAX_FRAME_SIZE](_ => 0);
    var decodedSize := TeensyCobs.DecodeCobs(data, size, decoded, decoded.Length);
    if decodedSize < 0 || decodedSize < HEADER_SIZE + CRC_SIZE {
      return None;
    }
    ghost var frame := decoded[..decodedSize];
    var bodySize := decodedSize - CRC_SIZE;
    var expected := Crc.CalculateCrc(decoded, bodySize);
    var actual := decoded[bodySize];
    assert decoded[..bodySize] == frame[..bodySize];
    if actual != expected {
      return None;
    }
    var payload := new byte[MAX_PAYLOAD_SIZE](_ => 0);
    var outSize := bodySize - HEADER_SIZE;
    var i := 0;
    while i < outSize
      invariant i <= outSize
      invariant decoded[..decodedSize] == frame
      invariant forall j :: 0 <= j < i ==> payload[j] == frame[HEADER_SIZE + j]
    {
      payload[i] := decoded[HEADER_SIZE + i];
      i := i + 1;
    }
    assert payload[..outSize] == frame[HEADER_SIZE..bodySize];
    return Some(RawPacket(decoded[0], decoded[1], payload[..], outSize));
  }
}
