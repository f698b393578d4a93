/** `hex_int_32::parse`: `&H` and exactly eight bytes read as a radix-16
    `i32`. */
module HexInt32 {
  import opened Bytes
  import opened Nom
  import opened Radix
  import Types

  const PREFIX: Bytes := [0x26, 0x48]  // "&H"
  const WIDTH := 8

  function Parse(input: Bytes): IResult<int>
  {
    var (_, afterPrefix) :- Tag(PREFIX, input);
    var (num, rest) :- Take(WIDTH, afterPrefix);
    match Types.I32FromHexBytes(num)
    case Err(e) => Failed(e)
    case Ok(v) => Parsed(v, rest)
  }

  /** After the prefix, the eight bytes are read whatever follows them; an
      error in them is reported at those eight bytes. */
  lemma ParseEight(num: Bytes, rest: Bytes)
    requires |num| == WIDTH
    ensures Parse(PREFIX + num + rest)
      == match Types.I32FromHexBytes(num)
         case Err(e) => Failed(num)
         case Ok(v) => Parsed(v, rest)
  {
    var input := PREFIX + num + rest;
    assert PREFIX <= input;
    assert input[2..] == num + rest;
    assert (num + rest)[..WIDTH] == num && (num + rest)[WIDTH..] == rest;
  }

  /** A non-negative `i32` written with eight upper-case hex digits after
      `&H` reads back as itself, and the bytes after the eighth are left. */
  lemma ParseWritten(n: nat, rest: Bytes)
    requires n <= I32.max
    ensures Parse(PREFIX + Digits(n, WIDTH, true) + rest) == Parsed(n, rest)
  {
    ParseEight(Digits(n, WIDTH, true), rest);
    Types.I32ReadsHex(n);
  }

  /** `&H80000000` to `&HFFFFFFFF` are rejected at their eight digits. */
  lemma HighBitRejected(n: nat, rest: Bytes)
    requires I32.max < n < 0x1_0000_0000
    ensures Parse(PREFIX + Digits(n, WIDTH, true) + rest) == Failed(Digits(n, WIDTH, true))
  {
    ParseEight(Digits(n, WIDTH, true), rest);
    Types.I32RejectsHighBit(n);
  }

  /** Without the prefix the parse is an error at the input; with fewer than
      eight bytes after it, an error after the prefix. */
  lemma ParseShort(input: Bytes)
    ensures !(PREFIX <= input) ==> Parse(input) == Failed(input)
    ensures PREFIX <= input && |input| < 2 + WIDTH ==> Parse(input) == Failed(input[2..])
  {
  }

  /** A hex `i32` is ten bytes: the prefix and eight digits. */
  lemma ParseLength(input: Bytes)
    requires Parse(input).Parsed?
    ensures |Parse(input).rest| + 10 == |input|
  {
  }

  lemma ParseShortens()
    ensures Shortening(Parse)
  {
    forall i | Parse(i).Parsed? ensures |Parse(i).rest| <= |i| {
      ParseLength(i);
    }
  }
}
