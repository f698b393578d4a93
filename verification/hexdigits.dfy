/** The hex-digit-pair parser used for the encrypted CMG, DPB and GC fields:
    between `min / 2` and `max / 2` pairs of hex digits, each read as one
    byte. */
module HexDigits {
  import opened Bytes
  import opened Nom

  /** Two hex digits at the start of the input. */
  predicate StartsWithPair(s: Bytes)
  {
    |s| >= 2 && IsHexDigit(s[0]) && IsHexDigit(s[1])
  }

  /** `parse_hex_pair`: exactly two hex digits, read as `(hi << 4) | lo`. */
  function ParseHexPair(input: Bytes): (r: IResult<byte>)
    ensures r.Parsed? <==> StartsWithPair(input)
    ensures r.Parsed? ==> r.value == PairValue(input[0], input[1]) && r.rest == input[2..]
    ensures r.Failed? ==> r.at == input
  {
    match TakeWhileMN(2, 2, IsHexDigit, input)
    case Parsed(digits, rest) => Parsed(PairValue(digits[0], digits[1]), rest)
    case Failed(at) => Failed(at)
  }

  /** `parse(min, max)`. */
  function Parse(min: nat, max: nat, input: Bytes): IResult<Bytes>
  {
    ManyMN(min / 2, max / 2, ParseHexPair, input)
  }

  /** The bytes of the leading digit pairs, at most `cap` of them: the
      reference reading the parser is compared with. */
  function LeadingBytes(input: Bytes, cap: nat): (v: Bytes)
    ensures |v| <= cap && 2 * |v| <= |input|
  {
    if cap == 0 || !StartsWithPair(input) then []
    else [PairValue(input[0], input[1])] + LeadingBytes(input[2..], cap - 1)
  }

  /** The leading pairs are consecutive digit pairs, each read as its byte,
      and the reading stops at the cap or at the first position that does
      not hold a pair. */
  lemma {:induction false} LeadingBytesSpec(input: Bytes, cap: nat)
    ensures var v := LeadingBytes(input, cap);
      && (forall i :: 0 <= i < |v| ==> StartsWithPair(input[2 * i..]) && v[i] == PairValue(input[2 * i], input[2 * i + 1]))
      && (|v| < cap ==> !StartsWithPair(input[2 * |v|..]))
  {
    if cap > 0 && StartsWithPair(input) {
      var tail := input[2..];
      LeadingBytesSpec(tail, cap - 1);
      var v := LeadingBytes(input, cap);
      forall i | 1 <= i < |v|
        ensures StartsWithPair(input[2 * i..]) && v[i] == PairValue(input[2 * i], input[2 * i + 1])
      {
        assert input[2 * i..] == tail[2 * (i - 1)..];
      }
      assert input[2 * |v|..] == tail[2 * (|v| - 1)..];
    }
  }

  /** The independent reading of `parse(min, max)`: take the leading pairs up
      to `max / 2`; fewer than `min / 2` is an error where the pairs stopped. */
  function Expected(min: nat, max: nat, input: Bytes): IResult<Bytes>
  {
    if min / 2 > max / 2 then Failed(input)
    else
      var v := LeadingBytes(input, max / 2);
      if |v| < min / 2 then Failed(input[2 * |v|..]) else Parsed(v, input[2 * |v|..])
  }

  lemma {:induction false} RepeatPairs(mn: nat, mx: nat, input: Bytes)
    requires mn <= mx
    ensures var v := LeadingBytes(input, mx);
      Repeat(mn, mx, ParseHexPair, input)
        == if |v| < mn then Failed(input[2 * |v|..]) else Parsed(v, input[2 * |v|..])
  {
    if mx > 0 && StartsWithPair(input) {
      RepeatPairs(if mn > 0 then mn - 1 else 0, mx - 1, input[2..]);
      var v := LeadingBytes(input[2..], mx - 1);
      assert input[2..][2 * |v|..] == input[2 * (|v| + 1)..];
    }
  }

  /** The parser is the reference reading, on every input and bounds. */
  lemma ParseIsExpected(min: nat, max: nat, input: Bytes)
    ensures Parse(min, max, input) == Expected(min, max, input)
  {
    if min / 2 <= max / 2 {
      RepeatPairs(min / 2, max / 2, input);
    }
  }

  /** Leading pairs of a written hex string give back its bytes. */
  lemma {:induction false} LeadingBytesOfHex(d: Bytes, upper: bool, rest: Bytes, cap: nat)
    requires |d| <= cap && (|d| == cap || !StartsWithPair(rest))
    ensures LeadingBytes(HexString(d, upper) + rest, cap) == d
  {
    var s := HexString(d, upper) + rest;
    if |d| > 0 {
      var h := HexString(d, upper);
      assert h[0..2] == HexPair(d[0], upper);
      assert h[0] == HexPair(d[0], upper)[0] && h[1] == HexPair(d[0], upper)[1];
      assert s[2..] == HexString(d[1..], upper) + rest;
      LeadingBytesOfHex(d[1..], upper, rest, cap - 1);
    } else {
      assert s == rest;
    }
  }

  /** Hex text of between `min / 2` and `max / 2` bytes, in either case,
      followed by something that is not a digit pair (or filling the
      maximum), parses back to those bytes and leaves the rest. */
  lemma ParseHexString(min: nat, max: nat, d: Bytes, upper: bool, rest: Bytes)
    requires min / 2 <= |d| <= max / 2
    requires |d| == max / 2 || !StartsWithPair(rest)
    ensures Parse(min, max, HexString(d, upper) + rest) == Parsed(d, rest)
  {
    ParseIsExpected(min, max, HexString(d, upper) + rest);
    LeadingBytesOfHex(d, upper, rest, max / 2);
    assert (HexString(d, upper) + rest)[2 * |d|..] == rest;
  }

  /** Hex text of fewer digits than the minimum fails where the digit
      pairs run out (the module's test: eight digits against a minimum of
      16 fail at the end of the input). */
  lemma ShortHexFails(min: nat, max: nat, s: Bytes)
    requires min / 2 <= max / 2 && 2 * (min / 2) > |s|
    requires AllHexDigits(s)
    ensures Parse(min, max, s) == Failed(s[2 * (|s| / 2)..])
  {
    ParseIsExpected(min, max, s);
    LeadingBytesSpec(s, max / 2);
  }
}
