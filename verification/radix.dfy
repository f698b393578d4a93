/** Rust's `from_str_radix`, which the program uses (through `parse` and
    directly) to read decimal and hexadecimal text: an optional sign, then at
    least one digit of the radix; the value must lie in the target integer
    type. Also the fixed-width digit writer that its partner lemmas read
    back. */
module Radix {
  import opened Bytes

  const PLUS: byte := 0x2B   // '+'
  const MINUS: byte := 0x2D  // '-'

  /** An integer type as `from_str_radix` sees it: its range. A type whose
      minimum is below zero is signed and accepts a leading `-`. */
  datatype IntType = IntType(min: int, max: int)
  {
    predicate Signed() { min < 0 }
  }

  const I32 := IntType(-0x8000_0000, 0x7FFF_FFFF)
  const U128 := IntType(0, 0x1_0000_0000_0000_0000_0000_0000_0000_0000 - 1)

  function Base(hex: bool): nat { if hex then 16 else 10 }

  /** A digit of radix 16 (either case) or radix 10. */
  predicate IsDigitOf(b: byte, hex: bool) { if hex then IsHexDigit(b) else IsDigit(b) }

  predicate AllDigitsOf(s: Bytes, hex: bool) { forall i :: 0 <= i < |s| ==> IsDigitOf(s[i], hex) }

  function DigitValue(b: byte, hex: bool): (v: nat)
    requires IsDigitOf(b, hex)
    ensures v < Base(hex)
  {
    HexValue(b) as nat
  }

  /** The number the digits denote, most significant first. */
  function Value(s: Bytes, hex: bool): nat
    requires AllDigitsOf(s, hex)
  {
    if |s| == 0 then 0 else Value(s[..|s| - 1], hex) * Base(hex) + DigitValue(s[|s| - 1], hex)
  }

  function Pow(b: nat, e: nat): (r: nat)
    ensures b > 0 ==> r > 0
  {
    if e == 0 then 1 else b * Pow(b, e - 1)
  }

  /** The powers of sixteen the fixed-width hex fields need. */
  lemma HexPowers()
    ensures Pow(16, 4) == 0x1_0000 && Pow(16, 7) == 0x1000_0000
    ensures Pow(16, 8) == 0x1_0000_0000 && Pow(16, 12) == 0x1_0000_0000_0000
  {
    assert Pow(16, 2) == 0x100;
    assert Pow(16, 4) == 0x1_0000;
    assert Pow(16, 6) == 0x100_0000;
    assert Pow(16, 8) == 0x1_0000_0000;
    assert Pow(16, 10) == 0x100_0000_0000;
  }

  /** `from_str_radix(src, 16 or 10)` into the type `t`. An empty text or a
      lone sign is rejected; `+` may precede the digits, and `-` too when
      the type is signed (for an unsigned type it is a bad digit). Rust
      checks each step of the accumulation for overflow; the accumulated
      magnitude only grows, so this is a range check of the final value. */
  function FromStrRadix(src: Bytes, hex: bool, t: IntType): (r: Option<int>)
    ensures r.Some? ==> t.min <= r.value <= t.max
  {
    if |src| == 0 || ((src[0] == PLUS || src[0] == MINUS) && |src| == 1) then None
    else
      var negative := src[0] == MINUS && t.Signed();
      var digits := if src[0] == PLUS || negative then src[1..] else src;
      if !AllDigitsOf(digits, hex) then None
      else
        var v: int := if negative then -(Value(digits, hex) as int) else Value(digits, hex);
        if t.min <= v <= t.max then Some(v) else None
  }

  /** `n` written with exactly `w` upper-case digits of the radix, keeping
      the low `w` digits. */
  function Digits(n: nat, w: nat, hex: bool): (r: Bytes)
    ensures |r| == w && AllDigitsOf(r, hex)
    ensures forall i :: 0 <= i < |r| ==> !IsLower(r[i])
  {
    if w == 0 then []
    else
      var d := HexDigit(ByteOf(n % Base(hex)), true);
      Digits(n / Base(hex), w - 1, hex) + [d]
  }

  /** The number of digits `n` needs in the radix (at least one). */
  function Width(n: nat, hex: bool): (w: nat)
    ensures w > 0 && n < Pow(Base(hex), w)
  {
    if n < Base(hex) then 1 else Width(n / Base(hex), hex) + 1
  }

  /** `n` in the radix without leading zeros: the text `{}` or `{:X}` writes. */
  function Text(n: nat, hex: bool): (r: Bytes)
    ensures |r| > 0 && AllDigitsOf(r, hex)
  {
    Digits(n, Width(n, hex), hex)
  }

  /** Digits written for a number that fits in `w` of them read back as it. */
  lemma {:induction false} ValueOfDigits(n: nat, w: nat, hex: bool)
    requires n < Pow(Base(hex), w)
    ensures Value(Digits(n, w, hex), hex) == n
  {
    if w > 0 {
      var b := Base(hex);
      var s := Digits(n, w, hex);
      assert s[..|s| - 1] == Digits(n / b, w - 1, hex);
      ValueOfDigits(n / b, w - 1, hex);
      assert DigitValue(s[|s| - 1], hex) == n % b;
    } else {
      assert n == 0;
    }
  }

  /** A number denoted by `w` digits is below the radix to the `w`. */
  lemma {:induction false} ValueBound(s: Bytes, hex: bool)
    requires AllDigitsOf(s, hex)
    ensures Value(s, hex) < Pow(Base(hex), |s|)
  {
    if |s| > 0 {
      ValueBound(s[..|s| - 1], hex);
      var b := Base(hex);
      var p := Pow(b, |s| - 1);
      var v := Value(s[..|s| - 1], hex);
      assert v * b + DigitValue(s[|s| - 1], hex) < (v + 1) * b;
      assert (v + 1) * b <= p * b by {
        assert v + 1 <= p;
      }
    }
  }

  /** Powers of a base of at least one grow with the exponent. */
  lemma {:induction false} PowMonotone(b: nat, e: nat, f: nat)
    requires b > 0 && e <= f
    ensures Pow(b, e) <= Pow(b, f)
  {
    if e < f {
      PowMonotone(b, e, f - 1);
    }
  }

  /** What an unsigned type accepts is below the radix to the length of the
      text. */
  lemma UnsignedBound(src: Bytes, hex: bool, t: IntType)
    requires !t.Signed() && FromStrRadix(src, hex, t).Some?
    ensures FromStrRadix(src, hex, t).value < Pow(Base(hex), |src|)
  {
    var digits := if src[0] == PLUS then src[1..] else src;
    ValueBound(digits, hex);
    PowMonotone(Base(hex), |digits|, |src|);
  }

  /** Unsigned digits in range read back as their value. */
  lemma ReadsDigits(n: nat, w: nat, hex: bool, t: IntType)
    requires 0 < w && n < Pow(Base(hex), w) && t.min <= n <= t.max
    ensures FromStrRadix(Digits(n, w, hex), hex, t) == Some(n)
  {
    ValueOfDigits(n, w, hex);
  }

  /** A digit as `Digits` writes it: lower-case letters raised to upper case. */
  function UpperDigit(b: byte): (u: byte)
    ensures !IsLower(u)
  {
    if IsLower(b) then b - 0x20 else b
  }

  function UpperDigits(s: Bytes): (r: Bytes)
    ensures |r| == |s|
    ensures forall i :: 0 <= i < |s| ==> r[i] == UpperDigit(s[i])
  {
    seq(|s|, i requires 0 <= i < |s| => UpperDigit(s[i]))
  }

  /** Writing a digit's value gives the digit back in upper case. */
  lemma DigitWritten(c: byte, hex: bool)
    requires IsDigitOf(c, hex)
    ensures HexDigit(ByteOf(DigitValue(c, hex)), true) == UpperDigit(c)
  {
    SameByte(ByteOf(DigitValue(c, hex)), HexValue(c));
  }

  /** Any digit text, in either case, is the upper-case writing of its value
      at its own width: the value determines the digits up to case. */
  lemma {:induction false} DigitsOfValue(s: Bytes, hex: bool)
    requires AllDigitsOf(s, hex)
    ensures Value(s, hex) < Pow(Base(hex), |s|)
    ensures Digits(Value(s, hex), |s|, hex) == UpperDigits(s)
  {
    ValueBound(s, hex);
    if |s| > 0 {
      var p := s[..|s| - 1];
      var c := s[|s| - 1];
      DigitsOfValue(p, hex);
      var n := Value(s, hex);
      var d := DigitValue(c, hex);
      if hex {
        assert n == Value(p, hex) * 16 + d;
      } else {
        assert n == Value(p, hex) * 10 + d;
      }
      assert n / Base(hex) == Value(p, hex) && n % Base(hex) == d;
      DigitWritten(c, hex);
      assert UpperDigits(s) == UpperDigits(p) + [UpperDigit(c)];
    }
  }

  /** Whatever `from_str_radix` accepts, lower-case hex included, is a sign
      allowed for the type followed by the digits of the value's magnitude,
      up to case: a minus exactly for a non-positive value of a signed type. */
  lemma Accepted(src: Bytes, hex: bool, t: IntType)
    requires FromStrRadix(src, hex, t).Some?
    ensures var v := FromStrRadix(src, hex, t).value;
      var negative := src[0] == MINUS;
      var digits := if src[0] == PLUS || negative then src[1..] else src;
      |digits| > 0 && AllDigitsOf(digits, hex)
      && (negative ==> t.Signed() && v <= 0)
      && (v < 0 ==> negative)
      && UpperDigits(digits) == Digits(if v < 0 then -v else v, |digits|, hex)
  {
    var negative := src[0] == MINUS;
    if negative && !t.Signed() {
      UnsignedRejectsMinus(src, hex, t);
      assert false;
    }
    var digits := if src[0] == PLUS || negative then src[1..] else src;
    assert |digits| > 0 && AllDigitsOf(digits, hex);
    var v := FromStrRadix(src, hex, t).value;
    assert v == if negative then -(Value(digits, hex) as int) else Value(digits, hex);
    DigitsOfValue(digits, hex);
  }

  /** A leading `+` is accepted and changes nothing. */
  lemma ReadsPlus(n: nat, w: nat, hex: bool, t: IntType)
    requires 0 < w && n < Pow(Base(hex), w) && t.min <= n <= t.max
    ensures FromStrRadix([PLUS] + Digits(n, w, hex), hex, t) == Some(n)
  {
    ValueOfDigits(n, w, hex);
    assert ([PLUS] + Digits(n, w, hex))[1..] == Digits(n, w, hex);
  }

  /** A leading `-` negates the value for a signed type. */
  lemma ReadsMinus(n: nat, w: nat, hex: bool, t: IntType)
    requires t.Signed() && 0 < w && n < Pow(Base(hex), w) && t.min <= -(n as int) <= t.max
    ensures FromStrRadix([MINUS] + Digits(n, w, hex), hex, t) == Some(-(n as int))
  {
    ValueOfDigits(n, w, hex);
    assert ([MINUS] + Digits(n, w, hex))[1..] == Digits(n, w, hex);
  }

  /** A value outside the type is rejected, not wrapped. */
  lemma RejectsOutOfRange(n: nat, w: nat, hex: bool, t: IntType)
    requires 0 < w && n < Pow(Base(hex), w) && !(t.min <= n <= t.max)
    ensures FromStrRadix(Digits(n, w, hex), hex, t) == None
  {
    ValueOfDigits(n, w, hex);
  }

  /** A negative value below a signed type's range is rejected too. */
  lemma RejectsMinusOutOfRange(n: nat, w: nat, hex: bool, t: IntType)
    requires t.Signed() && 0 < w && n < Pow(Base(hex), w) && !(t.min <= -(n as int) <= t.max)
    ensures FromStrRadix([MINUS] + Digits(n, w, hex), hex, t) == None
  {
    ValueOfDigits(n, w, hex);
    assert ([MINUS] + Digits(n, w, hex))[1..] == Digits(n, w, hex);
  }

  /** An unsigned type rejects every text that starts with `-`. */
  lemma UnsignedRejectsMinus(src: Bytes, hex: bool, t: IntType)
    requires !t.Signed() && |src| > 0 && src[0] == MINUS
    ensures FromStrRadix(src, hex, t) == None
  {
    assert !IsDigitOf(src[0], hex);
  }

  /** Signs and digits are ASCII, so a text holding any other byte is
      rejected. */
  lemma NonAsciiRejected(src: Bytes, hex: bool, t: IntType, k: nat)
    requires k < |src| && src[k] > 0x7F
    ensures FromStrRadix(src, hex, t) == None
  {
    if |src| > 1 && (src[0] == PLUS || (src[0] == MINUS && t.Signed())) {
      assert src[1..][k - 1] == src[k] by { assert k > 0; }
    }
  }
}
