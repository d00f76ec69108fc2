/** Which transmission errors the checksum byte detects, for frames of any length. */
module CrcErrors {
  import opened Base
  import opened Gf2
  import opened Crc

  /** The receivers' test: the last byte is the checksum of the bytes before it. */
  predicate Accepts(frame: seq<byte>) {
    |frame| > 0 && Checksum(frame[..|frame| - 1]) == frame[|frame| - 1]
  }

  /** The flipped bits, in the order the register sees them. */
  function Errors(sent: seq<byte>, received: seq<byte>): (e: Poly)
    requires |sent| == |received|
    ensures |e| == 8 * |sent|
  {
    Xor(BitsOf(sent), BitsOf(received))
  }

  function Syndrome(e: Poly): (r: Poly)
    ensures |r| == 8
  {
    FeedAll(Zeros(8), e)
  }

  // ----- the register is linear and never loses a difference -----

  lemma {:induction false} FeedLinear(r: Poly, t: Poly, a: Poly, b: Poly)
    requires |r| == |t| == 8 && |a| == |b|
    ensures FeedAll(Xor(r, t), Xor(a, b)) == Xor(FeedAll(r, a), FeedAll(t, b))
    decreases |a|
  {
    if a == [] {
    } else {
      assert Feed(Xor(r, t), Xor(a, b)[0]) == Xor(Feed(r, a[0]), Feed(t, b[0]));
      assert Xor(a, b)[1..] == Xor(a[1..], b[1..]);
      FeedLinear(Feed(r, a[0]), Feed(t, b[0]), a[1..], b[1..]);
    }
  }

  function XorBytes(a: seq<byte>, b: seq<byte>): (c: seq<byte>)
    requires |a| == |b|
    ensures |c| == |a|
  {
    if a == [] then [] else [a[0] ^ b[0]] + XorBytes(a[1..], b[1..])
  }

  lemma {:induction false} XorBytesBits(a: seq<byte>, b: seq<byte>)
    requires |a| == |b|
    ensures BitsOf(XorBytes(a, b)) == Xor(BitsOf(a), BitsOf(b))
    decreases |a|
  {
    if a == [] {
    } else {
      hide Bits, Xor;
      XorBytesBits(a[1..], b[1..]);
      XorBits(a[0], b[0]);
      XorConcat(Bits(a[0]), BitsOf(a[1..]), Bits(b[0]), BitsOf(b[1..]));
      assert XorBytes(a, b)[1..] == XorBytes(a[1..], b[1..]);
    }
  }

  lemma XorConcat(p: Poly, q: Poly, p': Poly, q': Poly)
    requires |p| == |p'| && |q| == |q'|
    ensures Xor(p + q, p' + q') == Xor(p, p') + Xor(q, q')
  {
  }

  /** The checksum of a sum is the sum of the checksums. */
  lemma ChecksumIsLinear(a: seq<byte>, b: seq<byte>)
    requires |a| == |b|
    ensures Checksum(XorBytes(a, b)) == Checksum(a) ^ Checksum(b)
  {
    hide XorBytes, FeedAll, Bits;
    XorBytesBits(a, b);
    RegisterByBits(0, a);
    RegisterByBits(0, b);
    RegisterByBits(0, XorBytes(a, b));
    SameBits(0, 0);
    assert Xor(Zeros(8), Zeros(8)) == Zeros(8);
    FeedLinear(Zeros(8), Zeros(8), BitsOf(a), BitsOf(b));
    XorBits(Checksum(a), Checksum(b));
    SameBits(Checksum(XorBytes(a, b)), Checksum(a) ^ Checksum(b));
  }

  lemma FeedZeroIsBijective(r: Poly)
    requires |r| == 8
    ensures Feed(r, false) == Zeros(8) <==> r == Zeros(8)
  {
    assert Scale(r[0], TAPS)[7] == r[0];
    assert Feed(r, false)[7] == r[0];
    if Feed(r, false) == Zeros(8) {
      forall i | 0 < i < 8
        ensures !r[i]
      {
        assert Feed(r, false)[i - 1] == r[i];
      }
    }
  }

  lemma {:induction false} ZerosKeepDifference(r: Poly, n: nat)
    requires |r| == 8
    ensures FeedAll(r, Zeros(n)) == Zeros(8) <==> r == Zeros(8)
    decreases n
  {
    if n == 0 {
    } else {
      FeedZeroIsBijective(r);
      assert Zeros(n)[1..] == Zeros(n - 1);
      ZerosKeepDifference(Feed(r, false), n - 1);
    }
  }

  lemma {:induction false} BitsOfAppend(a: seq<byte>, c: byte)
    ensures BitsOf(a + [c]) == BitsOf(a) + Bits(c)
    decreases |a|
  {
    if a == [] {
      assert BitsOf([c]) == Bits(c) + BitsOf([c][1..]);
    } else {
      assert (a + [c])[1..] == a[1..] + [c];
      BitsOfAppend(a[1..], c);
    }
  }

  lemma EqualIsZeroXor(p: Poly, q: Poly)
    requires |p| == |q| == 8
    ensures Xor(p, q) == Zeros(8) <==> p == q
  {
    if Xor(p, q) == Zeros(8) {
      assert forall i :: 0 <= i < 8 ==> p[i] == q[i] by {
        assert forall i :: 0 <= i < 8 ==> Xor(p, q)[i] == (p[i] != q[i]);
      }
    }
  }

  /** Eight bits bring the register to zero exactly when they equal it. */
  lemma OnlyItselfCancels(r: Poly, p: Poly)
    requires |r| == |p| == 8
    ensures FeedAll(r, p) == Zeros(8) <==> r == p
  {
    FeedAhead(r, p, 0);
    assert p + Zeros(0) == p;
    ZerosKeepDifference(Xor(r, p), 8);
    EqualIsZeroXor(r, p);
  }

  lemma SameBits(v: byte, w: byte)
    ensures Bits(v) == Bits(w) <==> v == w
    ensures Bits(0) == Zeros(8)
  {
    if Bits(v) == Bits(w) {
      BitsInjective(v, w);
    }
  }

  /** A body followed by its checksum leaves the register at zero, and nothing else does. */
  lemma AcceptedIffZero(frame: seq<byte>)
    requires frame != []
    ensures Accepts(frame) <==> Syndrome(BitsOf(frame)) == Zeros(8)
    ensures Accepts(frame) <==> Checksum(frame) == 0
  {
    var n := |frame| - 1;
    var body, c := frame[..n], frame[n];
    assert frame == body + [c];
    BitsOfAppend(body, c);
    SameBits(Checksum(body), c);
    SameBits(Checksum(frame), 0);
    RegisterByBits(0, body);
    RegisterByBits(0, frame);
    FeedAppend(Zeros(8), BitsOf(body), Bits(c));
    OnlyItselfCancels(Bits(Checksum(body)), Bits(c));
  }

  /** Whether an error is noticed depends on the flipped bits alone. */
  lemma DetectedIffSyndrome(sent: seq<byte>, received: seq<byte>)
    requires Accepts(sent) && |sent| == |received|
    ensures Accepts(received) <==> Syndrome(Errors(sent, received)) == Zeros(8)
  {
    AcceptedIffZero(sent);
    AcceptedIffZero(received);
    FeedLinear(Zeros(8), Zeros(8), BitsOf(sent), BitsOf(received));
    assert Xor(Zeros(8), Zeros(8)) == Zeros(8);
    EqualIsZeroXor(Syndrome(BitsOf(sent)), Syndrome(BitsOf(received)));
  }

  // ----- exactly the multiples of the generator go unnoticed -----

  lemma MulTimesX(q: Poly, g: Poly)
    requires |g| > 0
    ensures Mul(q + [false], g) == Mul(q, g) + [false]
  {
    assert (q + [false])[..|q|] == q;
    assert Mul(q + [false], g) == Xor(Mul(q, g) + [false], Zeros(|q|) + Zeros(|g|));
  }

  lemma {:induction false} MulShifted(q: Poly, g: Poly, k: nat)
    requires |g| > 0
    ensures Mul(q + Zeros(k), g) == Mul(q, g) + Zeros(k)
  {
    if k == 0 {
      assert q + Zeros(0) == q && Mul(q, g) + Zeros(0) == Mul(q, g);
    } else {
      MulShifted(q, g, k - 1);
      MulTimesX(q + Zeros(k - 1), g);
      AppendZero(q, k);
      AppendZero(Mul(q, g), k);
    }
  }

  ghost predicate IsMultiple(e: Poly, g: Poly) {
    |g| > 0 && exists q: Poly :: e == Mul(q, g)
  }

  lemma XorZeros(p: Poly, n: nat)
    requires |p| == n + 8
    ensures Xor(p, Zeros(n) + Zeros(8)) == p
  {
  }

  lemma ZeroSyndromeIffMultiple(e: Poly)
    requires |e| >= 8
    ensures Syndrome(e) == Zeros(8) <==> IsMultiple(e, GENERATOR)
  {
    var q := RemainderExists(e);
    if Syndrome(e) == Zeros(8) {
      XorZeros(Mul(q, GENERATOR), |e|);
      TrailingZeros(q, GENERATOR, e, 8);
    }
    if IsMultiple(e, GENERATOR) {
      var p: Poly :| e == Mul(p, GENERATOR);
      MulShifted(p, GENERATOR, 8);
      XorZeros(e + Zeros(8), |e|);
      assert IsDivision(e + Zeros(8), GENERATOR, p + Zeros(8), Zeros(8));
      DivisionIsUnique(e + Zeros(8), GENERATOR, q, Syndrome(e), p + Zeros(8), Zeros(8));
    }
  }

  /** The complete description of the undetected errors. */
  lemma UndetectedIffMultiple(sent: seq<byte>, received: seq<byte>)
    requires Accepts(sent) && |sent| == |received|
    ensures Accepts(received) <==> IsMultiple(Errors(sent, received), GENERATOR)
  {
    DetectedIffSyndrome(sent, received);
    ZeroSyndromeIffMultiple(Errors(sent, received));
  }

  // ----- an odd number of flipped bits -----

  predicate Odd(p: Poly) {
    Weight(p) % 2 == 1
  }

  lemma {:induction false} OddXor(a: Poly, b: Poly)
    requires |a| == |b|
    ensures Odd(Xor(a, b)) == (Odd(a) != Odd(b))
    decreases |a|
  {
    if a == [] {
    } else {
      assert Xor(a, b)[1..] == Xor(a[1..], b[1..]);
      OddXor(a[1..], b[1..]);
    }
  }

  lemma {:induction false} OddAppend(a: Poly, c: bool)
    ensures Odd(a + [c]) == (Odd(a) != c)
    decreases |a|
  {
    if a == [] {
      assert Weight([c][1..]) == 0;
    } else {
      assert (a + [c])[1..] == a[1..] + [c];
      OddAppend(a[1..], c);
    }
  }

  lemma {:induction false} OddZeros(n: nat)
    ensures !Odd(Zeros(n))
  {
    if n == 0 {
    } else {
      assert Zeros(n)[1..] == Zeros(n - 1);
      OddZeros(n - 1);
    }
  }

  lemma TapsAreOdd()
    ensures Odd(TAPS)
  {
    assert TAPS == [false, false, false, false, false] + [true, true, true];
    var p := [false, false, false, false, false];
    assert p == Zeros(5);
    OddZeros(5);
    OddAppend(p, true);
    OddAppend(p + [true], true);
    OddAppend(p + [true] + [true], true);
    assert TAPS == p + [true] + [true] + [true];
  }

  /** x + 1 divides the generator, so the register keeps the parity of what went in. */
  lemma {:induction false} FeedKeepsParity(r: Poly, m: Poly)
    requires |r| == 8
    ensures Odd(FeedAll(r, m)) == (Odd(r) != Odd(m))
    decreases |m|
  {
    if m == [] {
    } else {
      var c := r[0] != m[0];
      OddXor(r[1..] + [false], Scale(c, TAPS));
      OddAppend(r[1..], false);
      TapsAreOdd();
      OddZeros(8);
      FeedKeepsParity(Feed(r, m[0]), m[1..]);
    }
  }

  /** Every error that flips an odd number of bits is detected. */
  lemma OddErrorsDetected(sent: seq<byte>, received: seq<byte>)
    requires Accepts(sent) && |sent| == |received|
    requires Odd(Errors(sent, received))
    ensures !Accepts(received)
  {
    DetectedIffSyndrome(sent, received);
    FeedKeepsParity(Zeros(8), Errors(sent, received));
    OddZeros(8);
  }

  // ----- bursts -----

  /** All flipped bits lie within `width` consecutive positions starting at `i`. */
  ghost predicate Burst(e: Poly, i: nat, width: nat) {
    && (exists k :: 0 <= k < |e| && e[k])
    && forall k :: 0 <= k < |e| && e[k] ==> i <= k < i + width
  }

  /** Up to eight bits entering an empty register leave a difference. */
  lemma ShortBurst(p: Poly)
    requires |p| <= 8 && exists i :: 0 <= i < |p| && p[i]
    ensures Syndrome(p) != Zeros(8)
  {
    var k := 8 - |p|;
    FeedAhead(Zeros(8), p, k);
    var t := Xor(Zeros(8), p + Zeros(k));
    assert forall i :: 0 <= i < |p| ==> t[i] == p[i];
    ZerosKeepDifference(t, |p|);
    var i :| 0 <= i < |p| && p[i];
    assert t[i];
  }

  /** Zeros on both sides of an error do not hide it. */
  lemma PaddedSyndrome(i: nat, p: Poly, j: nat)
    ensures Syndrome(Zeros(i) + p + Zeros(j)) == Zeros(8) <==> Syndrome(p) == Zeros(8)
  {
    FeedAppend(Zeros(8), Zeros(i) + p, Zeros(j));
    FeedAppend(Zeros(8), Zeros(i), p);
    ZerosKeepDifference(Zeros(8), i);
    ZerosKeepDifference(Syndrome(p), j);
  }

  /** Every burst spanning at most eight bits is detected, wherever it lies. */
  lemma BurstsDetected(sent: seq<byte>, received: seq<byte>, i: nat)
    requires Accepts(sent) && |sent| == |received|
    requires Burst(Errors(sent, received), i, 8)
    ensures !Accepts(received)
  {
    var e := Errors(sent, received);
    var j := if i + 8 <= |e| then i + 8 else |e|;
    DetectedIffSyndrome(sent, received);
    PaddedBurst(e, i, j);
  }

  lemma BurstParts(e: Poly, i: nat, j: nat)
    requires i <= j <= |e| && Burst(e, i, j - i)
    ensures e == Zeros(i) + e[i..j] + Zeros(|e| - j)
    ensures exists k :: 0 <= k < j - i && e[i..j][k]
  {
    var k :| 0 <= k < |e| && e[k];
    assert e[i..j][k - i];
  }

  lemma PaddedBurst(e: Poly, i: nat, j: nat)
    requires i <= j <= |e| && j <= i + 8 && Burst(e, i, j - i)
    ensures Syndrome(e) != Zeros(8)
  {
    hide Syndrome, Burst, Zeros;
    BurstParts(e, i, j);
    ShortBurst(e[i..j]);
    PaddedSyndrome(i, e[i..j], |e| - j);
  }

  lemma {:induction false} BitsOfConcat(a: seq<byte>, b: seq<byte>)
    ensures BitsOf(a + b) == BitsOf(a) + BitsOf(b)
    decreases |a|
  {
    if a == [] {
      assert a + b == b;
    } else {
      assert (a + b)[1..] == a[1..] + b;
      BitsOfConcat(a[1..], b);
    }
  }

  /** Changing any one byte of an accepted frame gets it rejected. */
  lemma ByteChangeDetected(sent: seq<byte>, i: nat, b: byte)
    requires Accepts(sent) && i < |sent| && b != sent[i]
    ensures !Accepts(sent[i := b])
  {
    var received := sent[i := b];
    var x, y := sent[..i], sent[i + 1..];
    BitsOfThree(x, sent[i], y);
    BitsOfThree(x, b, y);
    assert sent == x + [sent[i]] + y && received == x + [b] + y;
    SameBits(sent[i], b);
    LocalDifference(BitsOf(x), Bits(sent[i]), Bits(b), BitsOf(y));
    DetectedIffSyndrome(sent, received);
  }

  lemma LocalDifference(x: Poly, p: Poly, q: Poly, y: Poly)
    requires |p| == |q| == 8 && p != q
    ensures Syndrome(Xor(x + p + y, x + q + y)) != Zeros(8)
  {
    var d := Xor(p, q);
    assert Xor(x + p + y, x + q + y) == Zeros(|x|) + d + Zeros(|y|);
    var i :| 0 <= i < 8 && p[i] != q[i];
    assert d[i];
    ShortBurst(d);
    PaddedSyndrome(|x|, d, |y|);
  }

  lemma BitsOfThree(x: seq<byte>, c: byte, y: seq<byte>)
    ensures BitsOf(x + [c] + y) == BitsOf(x) + Bits(c) + BitsOf(y)
  {
    BitsOfConcat(x + [c], y);
    BitsOfAppend(x, c);
  }

  // ----- two flipped bits -----

  /** Exactly the bits at positions `i` and `i + d` are flipped. */
  ghost predicate Double(e: Poly, i: nat, d: nat) {
    && 0 < d && i + d < |e|
    && forall k :: 0 <= k < |e| ==> (e[k] <==> k == i || k == i + d)
  }

  lemma {:induction false} ShiftNAdd(s: byte, m: nat, n: nat)
    ensures ShiftN(s, m + n) == ShiftN(ShiftN(s, m), n)
    decreases m
  {
    if m == 0 {
    } else {
      ShiftNAdd(Shift(s), m - 1, n);
    }
  }

  /** x^7 comes back after d further multiplications by x. */
  predicate Period(d: nat) {
    ShiftN(0x80, d) == 0x80
  }

  /** None of s, s * x, ..., s * x^(n - 1) is x^7. */
  predicate Avoids(s: byte, n: nat)
    decreases n, s
  {
    n == 0 || (s != 0x80 && Avoids(Shift(s), n - 1))
  }

  lemma {:induction false} AvoidsAt(s: byte, n: nat, d: nat)
    requires Avoids(s, n) && d < n
    ensures ShiftN(s, d) != 0x80
    decreases d
  {
    if d == 0 {
    } else {
      AvoidsAt(Shift(s), n - 1, d - 1);
    }
  }

  lemma {:induction false} AvoidsAdd(s: byte, m: nat, n: nat)
    requires Avoids(s, m) && Avoids(ShiftN(s, m), n)
    ensures Avoids(s, m + n)
    decreases m
  {
    if m == 0 {
    } else {
      AvoidsAdd(Shift(s), m - 1, n);
    }
  }

  /** Nine multiplications by x, none of them from x^7; `t` is where they end. */
  predicate Nine(s: byte, t: byte) {
    var a := Shift(s);
    var b := Shift(a);
    var c := Shift(b);
    var d := Shift(c);
    var e := Shift(d);
    var f := Shift(e);
    var g := Shift(f);
    var h := Shift(g);
    && s != 0x80 && a != 0x80 && b != 0x80 && c != 0x80 && d != 0x80
    && e != 0x80 && f != 0x80 && g != 0x80 && h != 0x80
    && Shift(h) == t
  }

  lemma NineSteps(s: byte, t: byte)
    requires Nine(s, t)
    ensures Avoids(s, 9) && ShiftN(s, 9) == t
  {
    var a := Shift(s);
    var b := Shift(a);
    var c := Shift(b);
    var d := Shift(c);
    var e := Shift(d);
    var f := Shift(e);
    var g := Shift(f);
    var h := Shift(g);
    assert Avoids(t, 0) && ShiftN(t, 0) == t;
    assert Avoids(h, 1) && ShiftN(h, 1) == t;
    assert Avoids(g, 2) && ShiftN(g, 2) == t;
    assert Avoids(e, 4) && ShiftN(e, 4) == t;
    assert Avoids(c, 6) && ShiftN(c, 6) == t;
    assert Avoids(a, 8) && ShiftN(a, 8) == t;
  }

  /** The orbit of x^7, nine multiplications at a time. */
  lemma Orbit()
    ensures Nine(0x07, 0x2A)
    ensures Nine(0x2A, 0xAB)
    ensures Nine(0xAB, 0xB0)
    ensures Nine(0xB0, 0x32)
    ensures Nine(0x32, 0x3B)
    ensures Nine(0x3B, 0x45)
    ensures Nine(0x45, 0xBF)
    ensures Nine(0xBF, 0x68)
    ensures Nine(0x68, 0x3E)
    ensures Nine(0x3E, 0x73)
    ensures Nine(0x73, 0xBC)
    ensures Nine(0xBC, 0x7A)
    ensures Nine(0x7A, 0xC2)
    ensures Nine(0xC2, 0x80)
  {
  }

  lemma Join(s: byte, m: nat, t: byte, u: byte)
    requires Avoids(s, m) && ShiftN(s, m) == t && Nine(t, u)
    ensures Avoids(s, m + 9) && ShiftN(s, m + 9) == u
  {
    NineSteps(t, u);
    AvoidsAdd(s, m, 9);
    ShiftNAdd(s, m, 9);
  }

  /** The generator divides x^127 - 1 but no shorter x^d - 1. */
  lemma OrbitLength()
    ensures Period(127)
    ensures forall d :: 0 < d < 127 ==> !Period(d)
  {
    Orbit();
    Join(0x07, 0, 0x07, 0x2A);
    Join(0x07, 9, 0x2A, 0xAB);
    Join(0x07, 18, 0xAB, 0xB0);
    Join(0x07, 27, 0xB0, 0x32);
    Join(0x07, 36, 0x32, 0x3B);
    Join(0x07, 45, 0x3B, 0x45);
    Join(0x07, 54, 0x45, 0xBF);
    Join(0x07, 63, 0xBF, 0x68);
    Join(0x07, 72, 0x68, 0x3E);
    Join(0x07, 81, 0x3E, 0x73);
    Join(0x07, 90, 0x73, 0xBC);
    Join(0x07, 99, 0xBC, 0x7A);
    Join(0x07, 108, 0x7A, 0xC2);
    Join(0x07, 117, 0xC2, 0x80);
    forall d | 0 < d < 127
      ensures !Period(d)
    {
      AvoidsAt(0x07, 126, d - 1);
      assert ShiftN(0x80, d) == ShiftN(Shift(0x80), d - 1);
    }
    assert ShiftN(0x80, 127) == ShiftN(Shift(0x80), 126);
  }

  lemma {:induction false} PeriodIffMultiple(d: nat)
    ensures Period(d) <==> d % 127 == 0
    decreases d
  {
    OrbitLength();
    if d >= 127 {
      ShiftNAdd(0x80, 127, d - 127);
      PeriodIffMultiple(d - 127);
    } else if d == 0 {
      assert ShiftN(0x80, 0) == 0x80;
    }
  }

  /** A one, `d - 1` zeros and another one entering an empty register. */
  lemma PairSyndrome(d: nat)
    requires 0 < d
    ensures Syndrome([true] + Zeros(d - 1) + [true]) == Zeros(8) <==> Period(d)
  {
    var x7 := Bits(0x80);
    assert x7 == [true] + Zeros(7) by {
      assert Mask(0) == 0x80;
    }
    assert Feed(Zeros(8), true) == TAPS == Feed(x7, false);
    var r := FeedAll(x7, Zeros(d));
    assert Zeros(d)[1..] == Zeros(d - 1);
    FeedAppend(Zeros(8), [true] + Zeros(d - 1), [true]);
    assert ([true] + Zeros(d - 1))[1..] == Zeros(d - 1);
    assert FeedAll(Zeros(8), [true] + Zeros(d - 1)) == r;
    assert FeedAll(r, [true]) == Feed(r, true);
    assert Feed(r, true) == Feed(Xor(r, x7), false);
    FeedZeroIsBijective(Xor(r, x7));
    EqualIsZeroXor(r, x7);
    ShiftNBits(0x80, d);
    SameBits(ShiftN(0x80, d), 0x80);
  }

  /** Two flipped bits go unnoticed exactly when their distance is a multiple of 127. */
  lemma DoubleErrors(sent: seq<byte>, received: seq<byte>, i: nat, d: nat)
    requires Accepts(sent) && |sent| == |received|
    requires Double(Errors(sent, received), i, d)
    ensures Accepts(received) <==> d % 127 == 0
  {
    var e := Errors(sent, received);
    var p := [true] + Zeros(d - 1) + [true];
    assert e == Zeros(i) + p + Zeros(|e| - i - d - 1);
    PairSyndrome(d);
    PeriodIffMultiple(d);
    PaddedSyndrome(i, p, |e| - i - d - 1);
    DetectedIffSyndrome(sent, received);
  }
}
