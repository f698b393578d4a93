/** `quoted_character::parse`: one character of a quoted string: a byte
    0x21 or 0x23 and above (anything but a control character below 0x20, a
    space or a double quote; 0x7F is accepted); a space or a tab; or a
    doubled double quote, read as one. */
module QuotedCharacter {
  import opened Bytes
  import opened Nom
  import Whitespace

  const DQUOTE: byte := 0x22

  /** The bytes `parse_nq_char` accepts: `!` and everything from `#` up. */
  predicate IsNqChar(b: byte) { b >= 0x23 || b == 0x21 }

  function ParseNqChar(input: Bytes): IResult<byte>
  {
    var (c, rest) :- TakeWhileMN(1, 1, IsNqChar, input);
    Parsed(c[0], rest)
  }

  predicate IsDquote(b: byte) { b == DQUOTE }

  function ParseDquote(input: Bytes): IResult<byte>
  {
    Value(DQUOTE, TakeWhileMN(2, 2, IsDquote, input))
  }

  /** `alt` of the three: the error, when all fail, is the last one's. */
  function Parse(input: Bytes): IResult<byte>
  {
    OrElse(ParseNqChar(input), OrElse(Whitespace.Parse(input), ParseDquote(input)))
  }

  /** A byte that stands for itself inside a quoted string. */
  predicate IsPlain(b: byte) { IsNqChar(b) || Whitespace.IsBlank(b) }

  /** A byte a quoted string can hold: a plain byte or a double quote. */
  predicate IsText(b: byte) { IsPlain(b) || b == DQUOTE }

  /** A plain byte is read as itself, one byte consumed; a doubled double
      quote as one double quote, two bytes consumed; anything else (a lone
      double quote, CR, LF, NUL, other control bytes, the empty input) is an
      error at the input. */
  lemma ParseSpec(input: Bytes)
    ensures Parse(input).Parsed? <==>
      |input| > 0 && (IsPlain(input[0]) || (|input| >= 2 && input[0] == DQUOTE && input[1] == DQUOTE))
    ensures Parse(input).Parsed? && IsPlain(input[0]) ==> Parse(input) == Parsed(input[0], input[1..])
    ensures Parse(input).Parsed? && input[0] == DQUOTE ==> Parse(input) == Parsed(DQUOTE, input[2..])
    ensures Parse(input).Failed? ==> Parse(input).at == input
  {
    Whitespace.ParseSpec(input);
    if |input| > 0 {
      assert Run(IsNqChar, input, 1) == (if IsNqChar(input[0]) then 1 else 0);
      if |input| >= 2 && input[0] == DQUOTE && input[1] == DQUOTE {
        assert Run(IsDquote, input, 2) == 2 by {
          assert Run(IsDquote, input[1..], 1) == 1;
        }
      }
    }
  }

  /** The written form of one character: a double quote is doubled. */
  function Escape(c: byte): Bytes
  {
    if c == DQUOTE then [DQUOTE, DQUOTE] else [c]
  }

  /** Every text byte, written in its escaped form, reads back as itself
      whatever follows. */
  lemma ParseEscaped(c: byte, rest: Bytes)
    requires IsText(c)
    ensures Parse(Escape(c) + rest) == Parsed(c, rest)
  {
    var s := Escape(c) + rest;
    ParseSpec(s);
    assert s[|Escape(c)|..] == rest;
  }

  lemma ParseShortens()
    ensures Shortening(Parse)
  {
    forall i ensures Parse(i).Parsed? ==> |Parse(i).rest| < |i| {
      ParseSpec(i);
    }
  }
}
