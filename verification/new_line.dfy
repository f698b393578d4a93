/** `new_line::parse`: a line break of the PROJECT stream, written either as
    CR LF or as LF CR, read as a line feed. */
module NewLine {
  import opened Bytes
  import opened Nom

  const CR: byte := 0x0D
  const LF: byte := 0x0A
  const CRLF: Bytes := [CR, LF]
  const LFCR: Bytes := [LF, CR]

  function Parse(input: Bytes): IResult<byte>
  {
    Value(LF, OrElse(Tag(CRLF, input), Tag(LFCR, input)))
  }

  /** The two bytes that make a line break. */
  predicate StartsWithBreak(s: Bytes)
  {
    |s| >= 2 && ((s[0] == CR && s[1] == LF) || (s[0] == LF && s[1] == CR))
  }

  /** A line break is read exactly when the input starts with CR LF or LF CR;
      it consumes those two bytes and yields a line feed. Anything else,
      a lone LF included, is an error at the input. */
  lemma ParseSpec(input: Bytes)
    ensures Parse(input).Parsed? <==> StartsWithBreak(input)
    ensures Parse(input).Parsed? ==> Parse(input) == Parsed(LF, input[2..])
    ensures Parse(input).Failed? ==> Parse(input).at == input
  {
    if |input| >= 2 {
      assert CRLF <= input <==> input[0] == CR && input[1] == LF;
      assert LFCR <= input <==> input[0] == LF && input[1] == CR;
    }
  }

  /** Either written form followed by anything reads back as a line feed. */
  lemma ParseWritten(brk: Bytes, rest: Bytes)
    requires brk == CRLF || brk == LFCR
    ensures Parse(brk + rest) == Parsed(LF, rest)
  {
    ParseSpec(brk + rest);
    assert (brk + rest)[2..] == rest;
  }

  /** A lone line feed is not a line break. */
  lemma BareLineFeedRejected(rest: Bytes)
    requires |rest| == 0 || rest[0] != CR
    ensures Parse([LF] + rest) == Failed([LF] + rest)
  {
    ParseSpec([LF] + rest);
  }

  lemma ParseShortens()
    ensures Shortening(Parse)
  {
    forall i ensures Parse(i).Parsed? ==> |Parse(i).rest| <= |i| {
      ParseSpec(i);
    }
  }
}
