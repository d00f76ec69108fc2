/** The driver's COBS routines, which work on growable vectors. */
module PiCobs {
  import opened Base
  import opened Cobs

  /** `decode_cobs`; None stands for the exception it throws on a malformed frame. */
  method DecodeCobs(packet: seq<byte>) returns (r: Option<seq<byte>>)
    ensures r == Decode(packet)
  {
    var decoded: seq<byte> := [];
    ghost var rest := packet;
    DecoderStart(packet);
    hide Decode, DecoderState;
    var i := 0;
    while i < |packet|
      invariant i <= |packet| && rest == packet[i..]
      invariant DecoderState(packet, decoded, rest)
    {
      ghost var start, done := i, decoded;
      DecoderBlock(packet, done, rest);
      var code := packet[i];
      i := i + 1;
      if code == 0 {
        return None;
      }
      ghost var run := if BadBlock(rest) then rest[1..] else rest[1..ToNat(code)];
      ghost var after := if BadBlock(rest) then [] else rest[ToNat(code)..];
      var n := 1;
      while n < ToNat(code)
        invariant 1 <= n <= |run| + 1 && i == start + n
        invariant decoded == done + run[..n - 1]
      {
        if i >= |packet| {
          return None;
        }
        assert packet[i] == rest[n] == run[n - 1];
        decoded := decoded + [packet[i]];
        assert decoded == done + run[..n];
        i := i + 1;
        n := n + 1;
      }
      assert run[..n - 1] == run;
      if code != 0xFF && i < |packet| {
        decoded := decoded + [0];
        assert decoded == done + (run + [0]);
      } else {
        assert run + [] == run;
      }
      rest := after;
    }
    DecoderEnd(packet, decoded);
    return Some(decoded);
  }

  /** `encode_cobs`, writing into a vector of the largest size it can need and trimming it. */
  method EncodeCobs(data: seq<byte>) returns (r: seq<byte>)
    ensures r == Encode(data)
  {
    hide Encode, Encoding;
    var out := new byte[|data| + |data| / 254 + 1](_ => 0);
    ghost var e := Encode(data);
    ghost var rest, buf := data, out[..];
    EncodeFits(data);
    EncoderStart(data, buf);
    var write := 0;
    var codeIndex := write;
    write := write + 1;
    var code: byte := 1;
    for read := 0 to |data|
      invariant rest == data[read..] && buf == out[..]
      invariant EncoderState(buf, e, codeIndex, write, code, rest)
    {
      assert rest[0] == data[read] && rest[1..] == data[read + 1..];
      EncoderRoom(buf, e, codeIndex, write, code, rest);
      if data[read] == 0 {
        EncoderZero(buf, e, codeIndex, write, code, rest);
        out[codeIndex] := code;
        buf, rest := buf[codeIndex := code], rest[1..];
        codeIndex := write;
        write := write + 1;
        code := 1;
        continue;
      }
      EncoderByte(buf, e, codeIndex, write, code, rest);
      out[write] := data[read];
      buf, rest := buf[write := data[read]], rest[1..];
      write := write + 1;
      code := code + 1;
      if code == 0xFF {
        out[codeIndex] := code;
        buf := buf[codeIndex := code];
        codeIndex := write;
        write := write + 1;
        code := 1;
      }
      assert EncoderState(buf, e, codeIndex, write, code, rest);
    }
    EncoderEnd(buf, e, codeIndex, write, code);
    out[codeIndex] := code;
    buf := buf[codeIndex := code];
    assert out[..] == buf;
    return out[..write];
  }
}
