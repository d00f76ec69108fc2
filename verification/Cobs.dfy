/** Consistent Overhead Byte Stuffing, as both ends of the link compute it. */
module Cobs {
  import opened Base

  const MAX_RUN: nat := 254

  /** A code byte and the data bytes it announces. */
  function Block(data: seq<byte>): (b: seq<byte>)
    ensures |b| == |data| + 1
  {
    [Counter(|data| + 1)] + data
  }

  /** One block per zero byte and one more for the end; a run of 254 bytes closes its block early. */
  function Encode(data: seq<byte>): (e: seq<byte>)
    ensures |e| > |data|
    decreases |data|
  {
    var n := RunLength(data, MAX_RUN);
    if n == MAX_RUN then Block(data[..n]) + Encode(data[n..])
    else if n == |data| then Block(data)
    else Block(data[..n]) + Encode(data[n + 1..])
  }

  /** The zero byte that a block stands for unless it is full or the last one. */
  function Separator(code: byte, rest: seq<byte>): seq<byte> {
    if code != 0xFF && rest != [] then [0] else []
  }

  function Prepend(prefix: seq<byte>, d: Option<seq<byte>>): Option<seq<byte>> {
    match d
    case None => None
    case Some(v) => Some(prefix + v)
  }

  /** What a delimiter-free frame stands for; None for a frame that is malformed. */
  function Decode(e: seq<byte>): Option<seq<byte>>
    decreases |e|
  {
    if e == [] then Some([])
    else if e[0] == 0 then None
    else
      var k := ToNat(e[0]);
      if k > |e| then None
      else Prepend(e[1..k] + Separator(e[0], e[k..]), Decode(e[k..]))
  }

  /** How many blocks the encoder closes because they are full. */
  function FullBlocks(data: seq<byte>): nat
    decreases |data|
  {
    var n := RunLength(data, MAX_RUN);
    if n == MAX_RUN then 1 + FullBlocks(data[n..])
    else if n == |data| then 0
    else FullBlocks(data[n + 1..])
  }

  /** The frame ends exactly where a full block ends. */
  predicate EndsFull(e: seq<byte>)
    decreases |e|
  {
    if e == [] || e[0] == 0 || ToNat(e[0]) > |e| then false
    else if ToNat(e[0]) == |e| then e[0] == 0xFF
    else EndsFull(e[ToNat(e[0])..])
  }

  // ----- code bytes -----

  lemma CodeByte(n: nat)
    requires n <= MAX_RUN
    ensures ToNat(Counter(n + 1)) == n + 1
    ensures Counter(n + 1) != 0
    ensures Counter(n + 1) == 0xFF <==> n == MAX_RUN
  {
    CounterWraps(n + 1);
    ToNatRange(Counter(n + 1));
  }

  lemma DecodeBlock(data: seq<byte>, rest: seq<byte>)
    requires |data| <= MAX_RUN
    ensures var code := Counter(|data| + 1);
      Decode(Block(data) + rest) == Prepend(data + Separator(code, rest), Decode(rest))
  {
    CodeByte(|data|);
    var e := Block(data) + rest;
    assert e[1..|data| + 1] == data && e[|data| + 1..] == rest;
  }

  // ----- encoding, then decoding -----

  lemma {:induction false} EncodeIsZeroFree(data: seq<byte>)
    ensures ZeroFree(Encode(data))
    decreases |data|
  {
    var n := RunLength(data, MAX_RUN);
    CodeByte(n);
    if n == MAX_RUN {
      EncodeIsZeroFree(data[n..]);
    } else if n < |data| {
      EncodeIsZeroFree(data[n + 1..]);
    } else {
      assert data[..n] == data;
    }
  }

  /** One block in front of a frame whose decoding is known. */
  lemma DecodeStep(run: seq<byte>, e: seq<byte>, rest: seq<byte>, data: seq<byte>)
    requires |run| <= MAX_RUN && Decode(e) == Some(rest)
    requires data == run + (if |run| < MAX_RUN && e != [] then [0] else []) + rest
    ensures Decode(Block(run) + e) == Some(data)
  {
    CodeByte(|run|);
    DecodeBlock(run, e);
  }

  /** Decoding gives back any data, whatever its length and wherever its zeros are. */
  lemma {:induction false} RoundTrip(data: seq<byte>)
    ensures Decode(Encode(data)) == Some(data)
    decreases |data|
  {
    var n := RunLength(data, MAX_RUN);
    var run := data[..n];
    if n == MAX_RUN {
      var rest := data[n..];
      RoundTrip(rest);
      assert run + [] + rest == data;
      DecodeStep(run, Encode(rest), rest, data);
    } else if n < |data| {
      var rest := data[n + 1..];
      RoundTrip(rest);
      SplitAtZero(data, n);
      DecodeStep(run, Encode(rest), rest, data);
    } else {
      assert run + [] + [] == data && Block(run) + [] == Block(run);
      DecodeStep(run, [], [], data);
    }
  }

  // ----- size -----

  lemma {:induction false} EncodedSize(data: seq<byte>)
    ensures |Encode(data)| == |data| + 1 + FullBlocks(data)
    ensures MAX_RUN * FullBlocks(data) <= |data|
    decreases |data|
  {
    var n := RunLength(data, MAX_RUN);
    if n == MAX_RUN {
      EncodedSize(data[n..]);
    } else if n == |data| {
    } else {
      EncodedSize(data[n + 1..]);
    }
  }

  /** The capacity both encoders reserve. */
  function Capacity(size: nat): nat {
    size + size / MAX_RUN + 1
  }

  lemma ShortCapacity(size: nat)
    requires size < MAX_RUN
    ensures Capacity(size) == size + 1
  {
  }

  lemma EncodeFits(data: seq<byte>)
    ensures |Encode(data)| <= Capacity(|data|)
  {
    EncodedSize(data);
  }

  /** The capacity cannot be lowered: data without zeros needs all of it. */
  lemma {:induction false} CapacityIsTight(data: seq<byte>)
    requires ZeroFree(data)
    ensures |Encode(data)| == Capacity(|data|)
    decreases |data|
  {
    if |data| >= MAX_RUN {
      RunLengthIs(data, MAX_RUN, MAX_RUN);
      CapacityIsTight(data[MAX_RUN..]);
      assert |data| / MAX_RUN == (|data| - MAX_RUN) / MAX_RUN + 1;
    } else {
      RunLengthIs(data, MAX_RUN, |data|);
    }
  }

  /** Data too short to fill a block costs exactly one byte. */
  lemma ShortEncode(data: seq<byte>)
    requires |data| < MAX_RUN
    ensures |Encode(data)| == |data| + 1
  {
    EncodedSize(data);
  }

  // ----- decoding, then encoding -----

  lemma EncodeFull(run: seq<byte>, rest: seq<byte>)
    requires |run| == MAX_RUN && ZeroFree(run)
    ensures Encode(run + rest) == Block(run) + Encode(rest)
  {
    var data := run + rest;
    assert data[..MAX_RUN] == run && data[MAX_RUN..] == rest;
    RunLengthIs(data, MAX_RUN, MAX_RUN);
  }

  lemma EncodeRun(run: seq<byte>, rest: seq<byte>)
    requires |run| < MAX_RUN && ZeroFree(run)
    ensures Encode(run + [0] + rest) == Block(run) + Encode(rest)
    ensures Encode(run) == Block(run)
  {
    var data := run + [0] + rest;
    assert data[..|run|] == run && data[|run| + 1..] == rest;
    RunLengthIs(data, MAX_RUN, |run|);
    assert run[..|run|] == run;
    RunLengthIs(run, MAX_RUN, |run|);
  }

  lemma CodeOfSize(code: byte)
    requires code != 0
    ensures 1 <= ToNat(code) <= 255 && Counter(ToNat(code)) == code
  {
    ToNatRange(code);
    CounterWraps(ToNat(code));
    SameNumber(Counter(ToNat(code)), code);
  }

  /** What the encoder adds to a frame that ends with a full block: an empty one. */
  function Extra(e: seq<byte>): seq<byte> {
    if EndsFull(e) then [1] else []
  }

  /** The last block, re-encoded. */
  lemma NormalFormLast(e: seq<byte>, data: seq<byte>)
    requires e != [] && ZeroFree(e) && Decode(e) == Some(data) && ToNat(e[0]) == |e|
    ensures Encode(data) == e + Extra(e)
  {
    var run := e[1..];
    CodeOfSize(e[0]);
    ToNatRange(e[0]);
    assert Block(run) == e;
    assert e[1..|e|] == run && e[|e|..] == [];
    assert run + [] + [] == run;
    if e[0] == 0xFF {
      EncodeFull(run, []);
      assert run + [] == run;
      assert Encode([]) == [1];
    } else {
      EncodeRun(run, []);
      assert e + [] == e;
    }
  }

  lemma DecodeFirst(e: seq<byte>, k: nat)
    requires e != [] && e[0] != 0 && k == ToNat(e[0]) <= |e|
    ensures Decode(e) == Prepend(e[1..k] + Separator(e[0], e[k..]), Decode(e[k..]))
  {
    hide ToNat, Separator, Prepend;
  }

  /** Any other block, re-encoded in front of the rest. */
  lemma NormalFormBlock(e: seq<byte>, data: seq<byte>, tail: seq<byte>)
    requires e != [] && ZeroFree(e) && Decode(e) == Some(data) && ToNat(e[0]) < |e|
    requires Decode(e[ToNat(e[0])..]) == Some(tail)
    ensures Encode(data) == e[..ToNat(e[0])] + Encode(tail)
  {
    hide Encode, Decode;
    var k := ToNat(e[0]);
    var run := e[1..k];
    CodeOfSize(e[0]);
    ToNatRange(e[0]);
    DecodeFirst(e, k);
    assert Block(run) == e[..k];
    if e[0] == 0xFF {
      assert run + [] + tail == run + tail;
      EncodeFull(run, tail);
    } else {
      EncodeRun(run, tail);
    }
  }

  lemma Regroup(e: seq<byte>, k: nat, x: seq<byte>)
    requires k <= |e|
    ensures e[..k] + (e[k..] + x) == e + x
  {
  }

  /** A frame is what the encoder makes of its decoding, up to the empty block the encoder
      adds after a full one. */
  lemma {:induction false} NormalForm(e: seq<byte>, data: seq<byte>)
    requires e != [] && ZeroFree(e) && Decode(e) == Some(data)
    ensures Encode(data) == e + Extra(e)
    decreases |e|
  {
    var k := ToNat(e[0]);
    CodeOfSize(e[0]);
    if k == |e| {
      NormalFormLast(e, data);
    } else {
      var rest := e[k..];
      var tail := Decode(rest).value;
      NormalForm(rest, tail);
      NormalFormBlock(e, data, tail);
      assert Extra(e) == Extra(rest);
      Regroup(e, k, Extra(rest));
    }
  }

  /** The zero-free frames that decode to given data: the encoder's, and the same one without a
      final empty block that follows a full one. */
  lemma Preimages(e: seq<byte>, data: seq<byte>)
    requires ZeroFree(e) && e != []
    ensures Decode(e) == Some(data) <==> e == Encode(data) || (EndsFull(e) && e + [1] == Encode(data))
  {
    if Decode(e) == Some(data) {
      NormalForm(e, data);
      assert e + [] == e;
    }
    RoundTrip(data);
    if EndsFull(e) && e + [1] == Encode(data) {
      DropEmptyBlock(e);
    }
  }

  lemma {:induction false} DropEmptyBlock(e: seq<byte>)
    requires EndsFull(e)
    ensures Decode(e + [1]) == Decode(e)
    decreases |e|
  {
    var k := ToNat(e[0]);
    var run, rest := e[1..k], e[k..];
    var f := e + [1];
    assert f[1..k] == run && f[k..] == rest + [1];
    if rest == [] {
      var one: seq<byte> := [1];
      Increment(0);
      assert one[1..1] == [] && one[1..] == [];
      assert rest + [1] == one;
      assert Decode(one) == Some([]) by {
        assert ToNat(one[0]) == 1;
        assert one[1..1] + Separator(one[0], one[1..]) + [] == [];
      }
    } else {
      DropEmptyBlock(rest);
    }
  }

  /** Short frames decode to exactly one byte less. */
  lemma ShortDecode(e: seq<byte>, data: seq<byte>)
    requires e != [] && ZeroFree(e) && Decode(e) == Some(data)
    requires |data| < MAX_RUN
    ensures |e| == |data| + 1
  {
    NormalForm(e, data);
    ShortEncode(data);
    if EndsFull(e) {
      EndsFullSize(e, data);
    }
  }

  lemma {:induction false} EndsFullSize(e: seq<byte>, data: seq<byte>)
    requires EndsFull(e) && Decode(e) == Some(data)
    ensures |data| >= MAX_RUN
    decreases |e|
  {
    var k := ToNat(e[0]);
    if k == |e| {
      ToNatRange(e[0]);
    } else {
      EndsFullSize(e[k..], Decode(e[k..]).value);
    }
  }

  // ----- the encoding loop -----

  /** Part way through the encoding `e`: `done` are the finished blocks, `run` the data bytes of
      the open block and `rest` the data still to be read. */
  ghost predicate Encoding(e: seq<byte>, done: seq<byte>, run: seq<byte>, rest: seq<byte>) {
    && |run| < MAX_RUN && ZeroFree(run)
    && e == done + Encode(run + rest)
  }

  lemma EncodeByte(e: seq<byte>, done: seq<byte>, run: seq<byte>, rest: seq<byte>)
    requires Encoding(e, done, run, rest) && rest != [] && rest[0] != 0
    ensures |run| + 1 < MAX_RUN ==> Encoding(e, done, run + [rest[0]], rest[1..])
    ensures |run| + 1 == MAX_RUN ==> Encoding(e, done + Block(run + [rest[0]]), [], rest[1..])
  {
    hide Encode, Block;
    var run' := run + [rest[0]];
    assert run + rest == run' + rest[1..];
    if |run'| == MAX_RUN {
      EncodeFull(run', rest[1..]);
      Empty(rest[1..]);
      Assoc(done, Block(run'), Encode(rest[1..]));
    }
  }

  lemma EncodeZero(e: seq<byte>, done: seq<byte>, run: seq<byte>, rest: seq<byte>)
    requires Encoding(e, done, run, rest) && rest != [] && rest[0] == 0
    ensures Encoding(e, done + Block(run), [], rest[1..])
  {
    hide Encode;
    assert run + rest == run + [0] + rest[1..];
    EncodeRun(run, rest[1..]);
    assert [] + rest[1..] == rest[1..];
    assert done + (Block(run) + Encode(rest[1..])) == done + Block(run) + Encode(rest[1..]);
  }

  /** The encoder's variables: blocks before `codeIndex` are finished, the slot at `codeIndex` is
      reserved for the code byte, and the open block's data lies between it and `write`. */
  ghost predicate EncoderState(out: seq<byte>, e: seq<byte>, codeIndex: nat, write: nat, code: byte, rest: seq<byte>) {
    && codeIndex < write <= |out|
    && code == Counter(write - codeIndex)
    && Encoding(e, out[..codeIndex], out[codeIndex + 1..write], rest)
  }

  lemma EncoderStart(data: seq<byte>, out: seq<byte>)
    requires out != []
    ensures EncoderState(out, Encode(data), 0, 1, 1, data)
  {
    assert [] + data == data && [] + Encode(data) == Encode(data);
    assert Counter(1) == Counter(0) + 1;
    assert out[..0] == [] && out[1..1] == [];
  }

  lemma EncoderRoom(out: seq<byte>, e: seq<byte>, codeIndex: nat, write: nat, code: byte, rest: seq<byte>)
    requires EncoderState(out, e, codeIndex, write, code, rest)
    ensures write + |rest| <= |e|
  {
  }

  lemma FillSlot(out: seq<byte>, codeIndex: nat, write: nat)
    requires codeIndex < write <= |out|
    ensures var code := Counter(write - codeIndex);
      out[codeIndex := code][..write] == out[..codeIndex] + Block(out[codeIndex + 1..write])
  {
  }

  /** A zero byte closes the block and opens the next one. */
  lemma EncoderZero(out: seq<byte>, e: seq<byte>, codeIndex: nat, write: nat, code: byte, rest: seq<byte>)
    requires EncoderState(out, e, codeIndex, write, code, rest)
    requires rest != [] && rest[0] == 0 && write < |out|
    ensures EncoderState(out[codeIndex := code], e, write, write + 1, 1, rest[1..])
  {
    EncodeZero(e, out[..codeIndex], out[codeIndex + 1..write], rest);
    FillSlot(out, codeIndex, write);
    assert Counter(1) == Counter(0) + 1;
    assert out[codeIndex := code][write + 1..write + 1] == [];
  }

  /** Any other byte joins the open block. */
  lemma EncoderByte(out: seq<byte>, e: seq<byte>, codeIndex: nat, write: nat, code: byte, rest: seq<byte>)
    requires EncoderState(out, e, codeIndex, write, code, rest)
    requires rest != [] && rest[0] != 0 && write < |out|
    ensures code + 1 != 0xFF ==> EncoderState(out[write := rest[0]], e, codeIndex, write + 1, code + 1, rest[1..])
    ensures code + 1 == 0xFF ==> write + 1 < |e|
    ensures code + 1 == 0xFF && write + 1 < |out| ==>
      EncoderState(out[write := rest[0]][codeIndex := code + 1], e, write + 1, write + 2, 1, rest[1..])
  {
    var done, run := out[..codeIndex], out[codeIndex + 1..write];
    var out' := out[write := rest[0]];
    EncodeByte(e, done, run, rest);
    CodeByte(|run| + 1);
    assert out'[..codeIndex] == done && out'[codeIndex + 1..write + 1] == run + [rest[0]];
    assert code + 1 == Counter(write + 1 - codeIndex);
    if code + 1 == 0xFF {
      FillSlot(out', codeIndex, write + 1);
      assert Counter(1) == Counter(0) + 1;
      if write + 1 < |out| {
        assert out'[codeIndex := code + 1][write + 2..write + 2] == [];
      }
    }
  }

  /** At the end of the data, the last code byte completes the encoding. */
  lemma EncoderEnd(out: seq<byte>, e: seq<byte>, codeIndex: nat, write: nat, code: byte)
    requires EncoderState(out, e, codeIndex, write, code, [])
    ensures out[codeIndex := code][..write] == e
  {
    var run := out[codeIndex + 1..write];
    assert run + [] == run;
    EncodeRun(run, []);
    FillSlot(out, codeIndex, write);
  }

  // ----- the decoding loop -----

  /** The result of a decoder that can store `capacity` bytes. */
  function DecodeBounded(e: seq<byte>, capacity: nat): Option<seq<byte>> {
    match Decode(e)
    case None => None
    case Some(data) => if |data| <= capacity then Some(data) else None
  }

  /** Out of the frame `e` the decoder has produced `out`, and `rest` is still to be read. */
  ghost predicate DecoderState(e: seq<byte>, out: seq<byte>, rest: seq<byte>) {
    Decode(e) == Prepend(out, Decode(rest))
  }

  lemma PrependEmpty(d: Option<seq<byte>>)
    ensures Prepend([], d) == d
  {
    match d
    case None =>
    case Some(v) => assert [] + v == v;
  }

  lemma DecoderStart(e: seq<byte>)
    ensures DecoderState(e, [], e)
  {
    PrependEmpty(Decode(e));
  }

  lemma PrependTwice(a: seq<byte>, b: seq<byte>, d: Option<seq<byte>>)
    ensures Prepend(a, Prepend(b, d)) == Prepend(a + b, d)
  {
    match d
    case None =>
    case Some(v) => assert a + (b + v) == a + b + v;
  }

  lemma DecoderEnd(e: seq<byte>, out: seq<byte>)
    requires DecoderState(e, out, [])
    ensures Decode(e) == Some(out)
  {
    assert out + [] == out;
  }

  predicate BadBlock(rest: seq<byte>) {
    rest != [] && (rest[0] == 0 || ToNat(rest[0]) > |rest|)
  }

  /** What one block contributes, and when it makes the frame malformed. */
  lemma DecoderBlock(e: seq<byte>, out: seq<byte>, rest: seq<byte>)
    requires DecoderState(e, out, rest) && rest != []
    ensures BadBlock(rest) ==> Decode(e) == None
    ensures !BadBlock(rest) ==>
      var k := ToNat(rest[0]);
      DecoderState(e, out + (rest[1..k] + Separator(rest[0], rest[k..])), rest[k..])
  {
    if !BadBlock(rest) {
      var k := ToNat(rest[0]);
      PrependTwice(out, rest[1..k] + Separator(rest[0], rest[k..]), Decode(rest[k..]));
    }
  }

  /** What is produced so far never exceeds the final result. */
  lemma DecoderGrows(e: seq<byte>, out: seq<byte>, rest: seq<byte>)
    requires DecoderState(e, out, rest)
    ensures Decode(e).Some? ==> |Decode(e).value| >= |out|
  {
  }

  /** Decoding never yields more than the frame without its first code byte. */
  lemma {:induction false} DecodeShrinks(e: seq<byte>)
    requires e != [] && Decode(e).Some?
    ensures |Decode(e).value| < |e|
    decreases |e|
  {
    hide ToNat;
    CodeOfSize(e[0]);
    var k := ToNat(e[0]);
    if k == |e| {
    } else {
      DecodeShrinks(e[k..]);
    }
  }

  // ----- a changed data byte -----

  /** Position `i` of the frame holds a data byte, not a code byte. */
  predicate IsDataByte(e: seq<byte>, i: nat)
    decreases |e|
  {
    if i >= |e| || e[0] == 0 || ToNat(e[0]) > |e| then false
    else if i < ToNat(e[0]) then i > 0
    else IsDataByte(e[ToNat(e[0])..], i - ToNat(e[0]))
  }

  /** A frame cut off in front of a data byte is malformed. */
  lemma {:induction false} CutFrame(e: seq<byte>, i: nat)
    requires IsDataByte(e, i) && i < |e|
    ensures Decode(e[..i]) == None
    decreases |e|
  {
    hide ToNat;
    CodeOfSize(e[0]);
    var k := ToNat(e[0]);
    if i < k {
    } else {
      assert e[..i][k..] == e[k..][..i - k];
      CutFrame(e[k..], i - k);
      DecodeFirst(e[..i], k);
    }
  }

  /** Replacing a data byte, even by a zero, replaces exactly one decoded byte. */
  lemma {:induction false} DataByteChange(e: seq<byte>, i: nat, b: byte) returns (j: nat)
    requires Decode(e).Some? && IsDataByte(e, i)
    ensures var data := Decode(e).value;
      j < |data| && data[j] == e[i] && Decode(e[i := b]) == Some(data[j := b])
    decreases |e|
  {
    hide ToNat;
    CodeOfSize(e[0]);
    var k := ToNat(e[0]);
    var run, rest := e[1..k], e[k..];
    var pre := run + Separator(e[0], rest);
    var tail := Decode(rest).value;
    if i < k {
      j := i - 1;
      DataByteInBlock(e, i, b);
    } else {
      var j' := DataByteChange(rest, i - k, b);
      j := |pre| + j';
      DataByteBehindBlock(e, i, b, j');
    }
  }

  lemma DataByteBehindBlock(e: seq<byte>, i: nat, b: byte, j: nat)
    requires e != [] && e[0] != 0 && Decode(e).Some? && 1 <= ToNat(e[0]) <= i < |e|
    requires Decode(e[ToNat(e[0])..]).Some?
    requires var k := ToNat(e[0]); var tail := Decode(e[k..]).value;
      j < |tail| && tail[j] == e[i] && Decode(e[k..][i - k := b]) == Some(tail[j := b])
    ensures var k := ToNat(e[0]); var data := Decode(e).value;
      var n := |e[1..k] + Separator(e[0], e[k..])|;
      n + j < |data| && data[n + j] == e[i] && Decode(e[i := b]) == Some(data[n + j := b])
  {
    hide ToNat, Decode, Separator;
    var k := ToNat(e[0]);
    var pre, f := e[1..k] + Separator(e[0], e[k..]), e[i := b];
    assert f[1..k] == e[1..k] && f[k..] == e[k..][i - k := b];
    DecodeFirst(e, k);
    DecodeFirst(f, k);
    SeparatorOf(e[0], e[k..], f[k..]);
    UpdateTail(pre, Decode(e[k..]).value, j, b);
  }

  lemma SeparatorOf(code: byte, rest: seq<byte>, rest': seq<byte>)
    requires |rest| == |rest'|
    ensures Separator(code, rest) == Separator(code, rest')
  {
  }

  lemma UpdateTail(pre: seq<byte>, tail: seq<byte>, j: nat, b: byte)
    requires j < |tail|
    ensures (pre + tail)[|pre| + j := b] == pre + tail[j := b]
  {
  }

  lemma DataByteInBlock(e: seq<byte>, i: nat, b: byte)
    requires Decode(e).Some? && e != [] && 0 < i < ToNat(e[0])
    ensures var data := Decode(e).value;
      i - 1 < |data| && data[i - 1] == e[i] && Decode(e[i := b]) == Some(data[i - 1 := b])
  {
    var k := ToNat(e[0]);
    var run, rest := e[1..k], e[k..];
    var f := e[i := b];
    assert f[1..k] == run[i - 1 := b] && f[k..] == rest;
    var sep, tail := Separator(e[0], rest), Decode(rest).value;
    assert (run + sep + tail)[i - 1 := b] == run[i - 1 := b] + sep + tail;
  }
}
