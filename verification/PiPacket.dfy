/** The driver's packet encoder and decoder, and the splitting of a byte buffer into packets. */
module PiPacket {
  import opened Base
  import opened Packets
  import Crc
  import PiCobs
  import Framing

  /** `decode_packet`; None stands for the exception it throws. */
  method DecodePacket(data: seq<byte>) returns (r: Option<Packet>)
    ensures r == FromSegment(data)
  {
    var decoded := PiCobs.DecodeCobs(data);
    if decoded.None? {
      return None;
    }
    var d := decoded.value;
    if |d| < HEADER_SIZE + CRC_SIZE {
      return None;
    }
    var payloadSize := |d| - CRC_SIZE;
    var expected := Crc.CalculateCrcVector(d[..payloadSize]);
    var actual := d[payloadSize];
    if actual != expected {
      return None;
    }
    return Some(Packet(d[0], d[1], d[HEADER_SIZE..payloadSize]));
  }

  /** `encode_packet`; None stands for the exception thrown for an oversized payload. */
  method EncodePacket(packetId: byte, deviceId: byte, payload: seq<byte>) returns (r: Option<seq<byte>>)
    ensures r == if |payload| > MAX_PAYLOAD_SIZE then None else Some(Wire(Packet(packetId, deviceId, payload)))
  {
    if |payload| > MAX_PAYLOAD_SIZE {
      return None;
    }
    var body: seq<byte> := [];
    body := body + [packetId];
    body := body + [deviceId];
    body := body + payload;
    assert body == Body(Packet(packetId, deviceId, payload));
    var crc := Crc.CalculateCrcVector(body);
    body := body + [crc];
    var frame := PiCobs.EncodeCobs(body);
    frame := frame + [0];
    return Some(frame);
  }

  /** `std::find` for the delimiter, from `start` on. */
  method FindDelimiter(data: seq<byte>, start: nat) returns (n: nat)
    requires start <= |data|
    ensures n == start + RunLength(data[start..], |data| - start)
  {
    n := start;
    while n < |data| && data[n] != 0
      invariant start <= n <= |data|
      invariant forall i :: start <= i < n ==> data[i] != 0
    {
      n := n + 1;
    }
    RunLengthIs(data[start..], |data| - start, n - start);
  }

  /** What reading up to the next delimiter does to the packets and to the rest. */
  lemma ReadUpTo(data: seq<byte>, packets: seq<Packet>, start: nat, delimiter: nat)
    requires start <= delimiter < |data|
    requires delimiter == start + RunLength(data[start..], |data| - start)
    ensures packets + Framing.PiPackets(data[start..]) ==
            packets + Framing.PiReadOne(data[start..delimiter]) + Framing.PiPackets(data[delimiter + 1..])
    ensures Framing.Tail(data[start..]) == Framing.Tail(data[delimiter + 1..])
  {
    hide RunLength, FromSegment, Framing.PiPackets, Framing.PiReadOne, Framing.Tail;
    var rest := data[start..];
    var n := delimiter - start;
    assert rest[..n] == data[start..delimiter] && rest[n + 1..] == data[delimiter + 1..];
    Framing.FirstSegment(rest);
    Assoc(packets, Framing.PiReadOne(data[start..delimiter]), Framing.PiPackets(data[delimiter + 1..]));
  }

  /** `decode_packets`: the packets of a buffer, and where its undelimited rest starts. */
  method DecodePackets(data: seq<byte>) returns (packets: seq<Packet>, start: nat)
    ensures packets == Framing.PiPackets(data)
    ensures start <= |data| && data[start..] == Framing.Tail(data)
  {
    hide FromSegment, Framing.PiPackets, Framing.PiReadOne, Framing.Tail, RunLength;
    packets, start := [], 0;
    var delimiter := FindDelimiter(data, start);
    assert data[0..] == data;
    Empty(Framing.PiPackets(data));
    while delimiter != |data|
      invariant start <= delimiter <= |data|
      invariant delimiter == start + RunLength(data[start..], |data| - start)
      invariant Framing.PiPackets(data) == packets + Framing.PiPackets(data[start..])
      invariant Framing.Tail(data) == Framing.Tail(data[start..])
      decreases |data| - start
    {
      var packetData := data[start..delimiter];
      ReadUpTo(data, packets, start, delimiter);
      Framing.ReadOne(packetData);
      start := delimiter + 1;
      delimiter := FindDelimiter(data, start);
      Empty(packets);
      if packetData == [] {
        continue;
      }
      var packet := DecodePacket(packetData);
      if packet.Some? {
        packets := packets + [packet.value];
      }
    }
    var rest := data[start..];
    assert rest[..|rest|] == rest;
    Framing.ZeroFreeStream(rest);
    Empty(packets);
  }
}
