/** `int_32::parse`: an optional `-` and at least one decimal digit, read as
    an `i32`. A value out of range is a `map_res` error at the start of the
    number. */
module Int32 {
  import opened Bytes
  import opened Nom
  import opened Radix

  function Parse(input: Bytes): IResult<int>
  {
    var (_, afterSign) :- Opt(Tag([MINUS], input), input);
    var (_, rest) :- TakeWhile1(IsDigit, afterSign);
    // `recognize`: the bytes the sign and the digits consumed
    var text := input[..|input| - |rest|];
    match FromStrRadix(text, false, I32)
    case None => Failed(input)
    case Some(v) => Parsed(v, rest)
  }

  /** How Rust's `{}` writes an integer: a `-` for negatives, then the
      decimal digits without leading zeros. */
  function DecimalText(n: int): (r: Bytes)
    ensures |r| > 0
  {
    if n < 0 then [MINUS] + Text(-n, false) else Text(n, false)
  }

  /** The parser after its sign: the digit run and the value read from the
      whole recognized text. */
  lemma ParseDigits(sign: Bytes, digits: Bytes, rest: Bytes)
    requires sign == [] || sign == [MINUS]
    requires |digits| > 0 && AllDigitsOf(digits, false)
    requires |rest| == 0 || !IsDigit(rest[0])
    ensures Parse(sign + digits + rest)
      == match FromStrRadix(sign + digits, false, I32)
         case None => Failed(sign + digits + rest)
         case Some(v) => Parsed(v, rest)
  {
    var input := sign + digits + rest;
    SignRead(sign, digits + rest);
    assert input == sign + (digits + rest);
    RunOfPrefix(IsDigit, digits, rest, |digits + rest|);
    assert (digits + rest)[..|digits|] == digits && (digits + rest)[|digits|..] == rest;
    assert input[..|input| - |rest|] == sign + digits;
    ParseLaidOut(input, digits + rest, digits, rest);
  }

  /** `parse` over a sign, a digit run and the rest. */
  lemma ParseLaidOut(input: Bytes, tail: Bytes, digits: Bytes, rest: Bytes)
    requires Opt(Tag([MINUS], input), input).rest == tail
    requires TakeWhile1(IsDigit, tail) == Parsed(digits, rest)
    requires |rest| <= |input|
    ensures Parse(input)
      == match FromStrRadix(input[..|input| - |rest|], false, I32)
         case None => Failed(input)
         case Some(v) => Parsed(v, rest)
  {
  }

  /** The optional sign is taken, and the digits follow it. */
  lemma SignRead(sign: Bytes, tail: Bytes)
    requires sign == [] || sign == [MINUS]
    requires |tail| > 0 && IsDigit(tail[0])
    ensures Opt(Tag([MINUS], sign + tail), sign + tail).rest == tail
  {
    var input := sign + tail;
    if sign == [] {
      assert input == tail;
      assert !([MINUS] <= input);
    } else {
      assert input[1..] == tail;
    }
  }

  /** Every `i32`, written as Rust writes it, reads back as itself when no
      digit follows: `2147483647` and `-2147483648` included. */
  lemma ParseWritten(n: int, rest: Bytes)
    requires I32.min <= n <= I32.max
    requires |rest| == 0 || !IsDigit(rest[0])
    ensures Parse(DecimalText(n) + rest) == Parsed(n, rest)
  {
    if n < 0 {
      ParseDigits([MINUS], Text(-n, false), rest);
      ReadsMinus(-n, Width(-n, false), false, I32);
    } else {
      assert DecimalText(n) == [] + Text(n, false);
      ParseDigits([], Text(n, false), rest);
      ReadsDigits(n, Width(n, false), false, I32);
    }
  }

  /** A number outside the `i32` range is an error at its first byte. */
  lemma RejectsOutOfRange(n: int, rest: Bytes)
    requires !(I32.min <= n <= I32.max)
    requires |rest| == 0 || !IsDigit(rest[0])
    ensures Parse(DecimalText(n) + rest) == Failed(DecimalText(n) + rest)
  {
    if n < 0 {
      ParseDigits([MINUS], Text(-n, false), rest);
      RejectsMinusOutOfRange(-n, Width(-n, false), false, I32);
    } else {
      assert DecimalText(n) == [] + Text(n, false);
      ParseDigits([], Text(n, false), rest);
      Radix.RejectsOutOfRange(n, Width(n, false), false, I32);
    }
  }

  /** Input that starts with neither `-` nor a digit is an error at the
      input; a `-` not followed by a digit is an error after the `-`. */
  lemma RejectsNonDigit(input: Bytes)
    requires |input| == 0 || !IsDigit(input[0])
    ensures input == [] || input[0] != MINUS ==> Parse(input) == Failed(input)
    ensures |input| > 0 && input[0] == MINUS && (|input| == 1 || !IsDigit(input[1]))
      ==> Parse(input) == Failed(input[1..])
  {
  }

  /** A number consumes at least its first digit. */
  lemma ParseConsumes(input: Bytes)
    requires Parse(input).Parsed?
    ensures |Parse(input).rest| < |input|
  {
  }

  lemma ParseShortens()
    ensures Shortening(Parse)
  {
    forall i | Parse(i).Parsed? ensures |Parse(i).rest| <= |i| {
      ParseConsumes(i);
    }
  }
}
