/** Bytes, optional values and the few sequence notions every layer shares. */
module Base {

  /** An unsigned 8-bit integer (`uint8_t`); addition wraps around. */
  type byte = bv8

  datatype Option<+T> = None | Some(value: T)

  function AsSeq<T>(o: Option<T>): seq<T> {
    match o
    case None => []
    case Some(v) => [v]
  }

  lemma Assoc<T>(x: seq<T>, y: seq<T>, z: seq<T>)
    ensures x + y + z == x + (y + z)
  {
  }

  lemma Empty<T>(x: seq<T>)
    ensures [] + x == x && x + [] == x
  {
  }

  ghost predicate ZeroFree(s: seq<byte>) {
    forall i :: 0 <= i < |s| ==> s[i] != 0
  }

  /** How many bytes of `s` come before its first zero byte, counting no further than `cap`. */
  function RunLength(s: seq<byte>, cap: nat): (n: nat)
    ensures n <= cap && n <= |s|
    ensures ZeroFree(s[..n])
    ensures n < cap && n < |s| ==> s[n] == 0
  {
    if cap == 0 || s == [] || s[0] == 0 then 0
    else
      var m := RunLength(s[1..], cap - 1);
      assert s[..m + 1] == [s[0]] + s[1..][..m];
      m + 1
  }

  /** `RunLength` is the only number with these properties. */
  lemma RunLengthIs(s: seq<byte>, cap: nat, n: nat)
    requires n <= cap && n <= |s|
    requires ZeroFree(s[..n])
    requires n < cap && n < |s| ==> s[n] == 0
    ensures RunLength(s, cap) == n
  {
  }

  lemma SplitAtZero(s: seq<byte>, n: nat)
    requires n < |s| && s[n] == 0
    ensures s == s[..n] + [0] + s[n + 1..]
  {
  }

  // ----- bytes as numbers -----

  function ToNat(b: byte): nat
    decreases b
  {
    if b == 0 then 0 else 1 + ToNat(b - 1)
  }

  /** `uint8_t` increment. */
  function Next(b: byte): byte {
    b + 1
  }

  /** A byte counter that started at `b` and was incremented `n` times. */
  function Plus(b: byte, n: nat): byte {
    if n == 0 then b else Next(Plus(b, n - 1))
  }

  /** A byte counter that started at zero and was incremented `n` times. */
  function Counter(n: nat): byte {
    Plus(0, n)
  }

  lemma {:induction false} ToNatIsValue(b: byte)
    ensures ToNat(b) == b as nat
    decreases b
  {
    if b == 0 {
    } else {
      ToNatIsValue(b - 1);
    }
  }

  lemma ToNatRange(b: byte)
    ensures ToNat(b) <= 255
    ensures ToNat(b) == 255 <==> b == 0xFF
  {
    ToNatIsValue(b);
  }

  lemma {:induction false} SameNumber(b: byte, c: byte)
    ensures ToNat(b) == ToNat(c) ==> b == c
    decreases b
  {
    if b == 0 || c == 0 {
    } else {
      SameNumber(b - 1, c - 1);
    }
  }

  lemma Increment(b: byte)
    ensures ToNat(b + 1) == if b == 0xFF then 0 else ToNat(b) + 1
  {
    assert b + 1 == 0 <==> b == 0xFF;
    assert b + 1 - 1 == b;
  }

  /** Incrementing wraps at 256. */
  lemma {:induction false} PlusWraps(b: byte, n: nat)
    ensures ToNat(Plus(b, n)) == (ToNat(b) + n) % 256
    decreases n
  {
    hide ToNat;
    ToNatRange(b);
    if n == 0 {
    } else {
      var c := Plus(b, n - 1);
      PlusWraps(b, n - 1);
      Increment(c);
      ToNatRange(c);
    }
  }

  lemma CounterWraps(n: nat)
    ensures ToNat(Counter(n)) == n % 256
  {
    PlusWraps(0, n);
  }

  /** Two counters that show the same byte are a multiple of 256 increments apart. */
  lemma CounterReuse(m: nat, n: nat)
    ensures Counter(m) == Counter(n) <==> m % 256 == n % 256
  {
    CounterWraps(m);
    CounterWraps(n);
    SameNumber(Counter(m), Counter(n));
  }
}
