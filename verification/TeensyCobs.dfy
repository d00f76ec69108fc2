/** The firmware's COBS routines, which work on raw buffers of limited capacity. */
module TeensyCobs {
  import opened Base
  import opened Cobs

  /** `encode_cobs`: the number of bytes written, or -1 when `out` is too small. */
  method EncodeCobs(data: array<byte>, size: nat, out: array<byte>, outSize: nat) returns (n: int)
    requires size <= data.Length && outSize <= out.Length && data != out
    modifies out
    ensures n == -1 <==> outSize < Capacity(size)
    ensures n == -1 ==> out[..] == old(out[..])
    ensures n != -1 ==> 0 <= n <= outSize && out[..n] == Encode(data[..size])
    ensures forall i :: outSize <= i < out.Length ==> out[i] == old(out[i])
  {
    hide Encode, Encoding;
    if outSize < size + size / 254 + 1 {
      return -1;
    }
    ghost var d := data[..size];
    ghost var e := Encode(d);
    ghost var rest, buf := d, out[..];
    EncodeFits(d);
    EncoderStart(d, buf);
    var write := 0;
    var codeIndex := write;
    write := write + 1;
    var code: byte := 1;
    var read := 0;
    while read < size
      invariant read <= size && d == data[..size] && rest == d[read..]
      invariant buf == out[..] && buf[outSize..] == old(out[outSize..])
      invariant EncoderState(buf, e, codeIndex, write, code, rest)
    {
      assert rest[0] == data[read] && rest[1..] == d[read + 1..];
      EncoderRoom(buf, e, codeIndex, write, code, rest);
      if data[read] == 0 {
        EncoderZero(buf, e, codeIndex, write, code, rest);
        out[codeIndex] := code;
        buf, rest := buf[codeIndex := code], rest[1..];
        codeIndex := write;
        write := write + 1;
        code := 1;
        read := read + 1;
        continue;
      }
      EncoderByte(buf, e, codeIndex, write, code, rest);
      out[write] := data[read];
      buf, rest := buf[write := data[read]], rest[1..];
      write := write + 1;
      code := code + 1;
      if code == 0xFF {
        out[codeIndex] := code;
        buf := buf[codeIndex := code];
        codeIndex := write;
        write := write + 1;
        code := 1;
      }
      assert EncoderState(buf, e, codeIndex, write, code, rest);
      read := read + 1;
    }
    EncoderEnd(buf, e, codeIndex, write, code);
    out[codeIndex] := code;
    buf := buf[codeIndex := code];
    assert out[..] == buf;
    return write;
  }

  lemma DropTwice(s: seq<byte>, i: nat, k: nat)
    requires i + k <= |s|
    ensures s[i..][k..] == s[i + k..]
  {
  }

  /** `decode_cobs`: the number of bytes written, or -1 for a malformed frame or a full buffer. */
  method DecodeCobs(data: array<byte>, size: nat, out: array<byte>, outSize: nat) returns (n: int)
    requires size <= data.Length && outSize <= out.Length && data != out
    modifies out
    ensures n == -1 <==> DecodeBounded(data[..size], outSize) == None
    ensures n != -1 ==> 0 <= n <= outSize && DecodeBounded(data[..size], outSize) == Some(out[..n])
    ensures forall i :: outSize <= i < out.Length ==> out[i] == old(out[i])
  {
    hide Decode, DecoderState, ToNat;
    ghost var e := data[..size];
    ghost var rest := e;
    DecoderStart(e);
    var write := 0;
    var read := 0;
    assert out[..0] == [];
    while read < size
      invariant read <= size && write <= outSize && e == data[..size] && rest == e[read..]
      invariant DecoderState(e, out[..write], rest)
      invariant forall i :: outSize <= i < out.Length ==> out[i] == old(out[i])
    {
      ghost var start, done := read, out[..write];
      DecoderBlock(e, done, rest);
      var code := data[read];
      read := read + 1;
      if code == 0 {
        return -1;
      }
      CodeOfSize(code);
      ghost var run := if BadBlock(rest) then rest[1..] else rest[1..ToNat(code)];
      ghost var after := if BadBlock(rest) then [] else rest[ToNat(code)..];
      if !BadBlock(rest) {
        DecoderGrows(e, done + (run + Separator(code, after)), after);
      }
      var count := 1;
      while count < ToNat(code)
        invariant 1 <= count <= |run| + 1 && e == data[..size]
        invariant read == start + count && write == |done| + count - 1 <= outSize
        invariant out[..write] == done + run[..count - 1]
        invariant forall i :: outSize <= i < out.Length ==> out[i] == old(out[i])
      {
        if read >= size {
          return -1;
        }
        if write >= outSize {
          return -1;
        }
        assert data[read] == rest[count] == run[count - 1];
        out[write] := data[read];
        assert out[..write + 1] == done + run[..count];
        write := write + 1;
        read := read + 1;
        count := count + 1;
      }
      assert run[..count - 1] == run;
      if code != 0xFF && read < size {
        if write >= outSize {
          return -1;
        }
        out[write] := 0;
        Assoc(done, run, [0]);
        assert out[..write + 1] == done + run + [0];
        write := write + 1;
      } else {
        Empty(run);
      }
      assert out[..write] == done + (run + Separator(code, after));
      DropTwice(e, start, ToNat(code));
      rest := after;
    }
    DecoderEnd(e, out[..write]);
    return write;
  }
}
