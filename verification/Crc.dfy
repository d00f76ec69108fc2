/** CRC-8 with polynomial 0x07, initial value 0, no reflection and no final XOR. */
module Crc {
  import opened Base
  import opened Gf2

  /** x^8 + x^2 + x + 1 */
  const GENERATOR: Poly := [true, false, false, false, false, false, true, true, true]

  /** One iteration of the bit loop: multiply the register by x and reduce. */
  function Shift(s: byte): byte {
    if s & 0x80 != 0 then (s << 1) ^ 0x07 else s << 1
  }

  function ShiftN(s: byte, n: nat): byte
    decreases n, s
  {
    if n == 0 then s else ShiftN(Shift(s), n - 1)
  }

  /** The register after the whole of `data` went through it, starting from `s`. */
  function Register(s: byte, data: seq<byte>): byte
    decreases |data|
  {
    if data == [] then s else Register(ShiftN(s ^ data[0], 8), data[1..])
  }

  function Checksum(data: seq<byte>): byte {
    Register(0, data)
  }

  /** `calculate_crc` of the firmware, over a raw buffer. */
  method CalculateCrc(data: array<byte>, size: nat) returns (r: byte)
    requires size <= data.Length
    ensures r == Checksum(data[..size])
  {
    var crc: byte := 0;
    var i := 0;
    while i < size
      invariant i <= size
      invariant Register(0, data[..size]) == Register(crc, data[..size][i..])
    {
      ghost var rest := data[..size][i..];
      crc := crc ^ data[i];
      ghost var start := crc;
      var bit := 0;
      while bit < 8
        invariant bit <= 8
        invariant ShiftN(crc, 8 - bit) == ShiftN(start, 8)
      {
        if crc & 0x80 != 0 {
          crc := (crc << 1) ^ 0x07;
        } else {
          crc := crc << 1;
        }
        bit := bit + 1;
      }
      assert rest[0] == data[i] && rest[1..] == data[..size][i + 1..];
      i := i + 1;
    }
    return crc;
  }

  /** `calculate_crc` of the driver, over a growable vector. */
  method CalculateCrcVector(packet: seq<byte>) returns (r: byte)
    ensures r == Checksum(packet)
  {
    var crc: byte := 0;
    for i := 0 to |packet|
      invariant Register(0, packet) == Register(crc, packet[i..])
    {
      crc := crc ^ packet[i];
      ghost var start := crc;
      for bit := 0 to 8
        invariant ShiftN(crc, 8 - bit) == ShiftN(start, 8)
      {
        if crc & 0x80 != 0 {
          crc := (crc << 1) ^ 0x07;
        } else {
          crc := crc << 1;
        }
      }
      assert packet[i..][1..] == packet[i + 1..];
    }
    return crc;
  }

  // ----- bits of bytes and messages -----

  predicate Bit(v: byte, mask: byte) {
    v & mask != 0
  }

  /** The mask of coefficient `i`, counting from the most significant bit. */
  function Mask(i: nat): byte
    requires i < 8
  {
    match i
    case 0 => 0x80
    case 1 => 0x40
    case 2 => 0x20
    case 3 => 0x10
    case 4 => 0x08
    case 5 => 0x04
    case 6 => 0x02
    case 7 => 0x01
  }

  function Bits(v: byte): (p: Poly)
    ensures |p| == 8
    ensures forall i :: 0 <= i < 8 ==> p[i] == Bit(v, Mask(i))
  {
    seq(8, i requires 0 <= i < 8 => Bit(v, Mask(i)))
  }

  /** The message polynomial: every byte most significant bit first. */
  function BitsOf(data: seq<byte>): (p: Poly)
    ensures |p| == 8 * |data|
  {
    if data == [] then [] else Bits(data[0]) + BitsOf(data[1..])
  }

  lemma XorBit(v: byte, w: byte, i: nat)
    requires i < 8
    ensures Bit(v ^ w, Mask(i)) == (Bit(v, Mask(i)) != Bit(w, Mask(i)))
  {
  }

  lemma XorBits(v: byte, w: byte)
    ensures Bits(v ^ w) == Xor(Bits(v), Bits(w))
  {
    forall i | 0 <= i < 8
      ensures Bits(v ^ w)[i] == (Bits(v)[i] != Bits(w)[i])
    {
      XorBit(v, w, i);
    }
  }

  lemma ShiftedBit(v: byte, i: nat)
    requires i < 8
    ensures Bit(v << 1, Mask(i)) == (i < 7 && Bit(v, Mask(i + 1)))
  {
  }

  lemma ShiftedBits(v: byte)
    ensures Bits(v << 1) == Bits(v)[1..] + [false]
  {
    forall i | 0 <= i < 8
      ensures Bits(v << 1)[i] == (Bits(v)[1..] + [false])[i]
    {
      ShiftedBit(v, i);
    }
  }

  lemma BitsInjective(v: byte, w: byte)
    requires Bits(v) == Bits(w)
    ensures v == w
  {
    if Bits(v)[0] == Bits(w)[0] && Bits(v)[1] == Bits(w)[1] && Bits(v)[2] == Bits(w)[2] && Bits(v)[3] == Bits(w)[3] {
      assert v & 0xF0 == w & 0xF0;
    }
    if Bits(v)[4] == Bits(w)[4] && Bits(v)[5] == Bits(w)[5] && Bits(v)[6] == Bits(w)[6] && Bits(v)[7] == Bits(w)[7] {
      assert v & 0x0F == w & 0x0F;
    }
  }

  // ----- the register as eight coefficients -----

  /** The generator without its leading term. */
  const TAPS: Poly := GENERATOR[1..]

  /** One message bit entering an eight-coefficient register. */
  function Feed(r: Poly, b: bool): (r': Poly)
    requires |r| == 8
    ensures |r'| == 8
  {
    Xor(r[1..] + [false], Scale(r[0] != b, TAPS))
  }

  function FeedAll(r: Poly, m: Poly): (r': Poly)
    requires |r| == 8
    ensures |r'| == 8
    decreases |m|
  {
    if m == [] then r else FeedAll(Feed(r, m[0]), m[1..])
  }

  /** One iteration of the bit loop is a zero bit entering the register. */
  lemma ShiftBits(s: byte)
    ensures Bits(Shift(s)) == Feed(Bits(s), false)
  {
    ShiftedBits(s);
    XorBits(s << 1, 0x07);
    assert Bits(0x07) == TAPS;
  }

  lemma {:induction false} ShiftNBits(s: byte, n: nat)
    ensures Bits(ShiftN(s, n)) == FeedAll(Bits(s), Zeros(n))
    decreases n
  {
    if n == 0 {
    } else {
      ShiftBits(s);
      ShiftNBits(Shift(s), n - 1);
      assert Zeros(n)[1..] == Zeros(n - 1);
    }
  }

  lemma {:induction false} FeedAppend(r: Poly, a: Poly, b: Poly)
    requires |r| == 8
    ensures FeedAll(r, a + b) == FeedAll(FeedAll(r, a), b)
    decreases |a|
  {
    if a == [] {
      assert a + b == b;
    } else {
      assert (a + b)[1..] == a[1..] + b;
      FeedAppend(Feed(r, a[0]), a[1..], b);
    }
  }

  /** Bits may as well be XORed into the register beforehand. */
  lemma {:induction false} FeedAhead(r: Poly, p: Poly, k: nat)
    requires |r| == 8 && |p| + k == 8
    ensures FeedAll(r, p) == FeedAll(Xor(r, p + Zeros(k)), Zeros(|p|))
    decreases |p|
  {
    var t := Xor(r, p + Zeros(k));
    if p == [] {
      assert t == r;
    } else {
      var p' := p[1..];
      assert t[0] == (r[0] != p[0]);
      assert Feed(t, false) == Xor(Feed(r, p[0]), p' + Zeros(k + 1));
      FeedAhead(Feed(r, p[0]), p', k + 1);
      assert Zeros(|p|)[1..] == Zeros(|p'|);
    }
  }

  /** Eight bits entering a register, or XORed into it and shifted through. */
  lemma FeedEight(r: Poly, p: Poly, m: Poly)
    requires |r| == |p| == 8
    ensures FeedAll(r, p + m) == FeedAll(FeedAll(Xor(r, p), Zeros(8)), m)
  {
    FeedAhead(r, p, 0);
    assert p + Zeros(0) == p;
    FeedAppend(r, p, m);
  }

  lemma AbsorbByte(s: byte, v: byte)
    ensures Bits(ShiftN(s ^ v, 8)) == FeedAll(Xor(Bits(s), Bits(v)), Zeros(8))
  {
    XorBits(s, v);
    ShiftNBits(s ^ v, 8);
  }

  /** The byte-wise register is the bit-wise one. */
  lemma {:induction false} RegisterByBits(s: byte, data: seq<byte>)
    ensures Bits(Register(s, data)) == FeedAll(Bits(s), BitsOf(data))
    decreases |data|
  {
    if data == [] {
    } else {
      AbsorbByte(s, data[0]);
      FeedEight(Bits(s), Bits(data[0]), BitsOf(data[1..]));
      RegisterByBits(ShiftN(s ^ data[0], 8), data[1..]);
    }
  }

  // ----- the register is a polynomial remainder -----

  /** Bringing one more message bit down in the long division. */
  lemma DivisionStep(m: Poly, b: bool, q: Poly, r: Poly)
    requires IsDivision(m + Zeros(8), GENERATOR, q, r)
    ensures IsDivision(m + [b] + Zeros(8), GENERATOR, q + [r[0] != b], Feed(r, b))
  {
    var n := |m|;
    var c := r[0] != b;
    var q', r' := q + [c], Feed(r, b);
    var lhs := m + [b] + Zeros(8);
    var rhs := Xor(Mul(q', GENERATOR), Zeros(n + 1) + r');
    assert q'[..n] == q;
    var p := Mul(q, GENERATOR);
    forall i | 0 <= i < n + 9
      ensures lhs[i] == rhs[i]
    {
      assert Mul(q', GENERATOR)[i] == ((p + [false])[i] != (Zeros(n) + Scale(c, GENERATOR))[i]);
      if i < n + 8 {
        assert (m + Zeros(8))[i] == (p[i] != (Zeros(n) + r)[i]);
      }
      if i > n {
        var k := i - n - 1;
        assert r'[k] == ((r[1..] + [false])[k] != Scale(c, TAPS)[k]);
        assert Scale(c, GENERATOR)[k + 1] == Scale(c, TAPS)[k];
      }
    }
    assert lhs == rhs;
  }

  lemma {:induction false} RemainderExists(m: Poly) returns (q: Poly)
    ensures IsDivision(m + Zeros(8), GENERATOR, q, FeedAll(Zeros(8), m))
  {
    if m == [] {
      q := [];
      assert Mul([], GENERATOR) == Zeros(8);
    } else {
      var n := |m| - 1;
      var m', b := m[..n], m[n];
      q := RemainderExists(m');
      var r := FeedAll(Zeros(8), m');
      DivisionStep(m', b, q, r);
      FeedAppend(Zeros(8), m', [b]);
      assert FeedAll(r, [b]) == Feed(r, b);
      assert m == m' + [b];
      q := q + [r[0] != b];
    }
  }

  ghost predicate IsRemainder(data: seq<byte>, r: byte) {
    exists q :: IsDivision(BitsOf(data) + Zeros(8), GENERATOR, q, Bits(r))
  }

  /** The checksum is the one and only remainder of message(x) * x^8 modulo the generator. */
  lemma ChecksumIsRemainder(data: seq<byte>, r: byte)
    ensures r == Checksum(data) <==> IsRemainder(data, r)
  {
    var m := BitsOf(data);
    var s := Checksum(data);
    RegisterByBits(0, data);
    assert Bits(0) == Zeros(8);
    var q := RemainderExists(m);
    assert IsDivision(m + Zeros(8), GENERATOR, q, Bits(s));
    if IsRemainder(data, r) {
      var q' :| IsDivision(m + Zeros(8), GENERATOR, q', Bits(r));
      DivisionIsUnique(m + Zeros(8), GENERATOR, q, Bits(s), q', Bits(r));
      BitsInjective(s, r);
    }
  }
}
