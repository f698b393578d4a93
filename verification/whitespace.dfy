/** `whitespace::parse`: one space or tab. */
module Whitespace {
  import opened Bytes
  import opened Nom

  const SPACE: byte := 0x20
  const TAB: byte := 0x09

  function Parse(input: Bytes): IResult<byte>
  {
    OrElse(Value(SPACE, Tag([SPACE], input)), Value(TAB, Tag([TAB], input)))
  }

  predicate IsBlank(b: byte) { b == SPACE || b == TAB }

  /** Exactly one leading space or tab is read, as itself; any other input
      is an error at the input. */
  lemma ParseSpec(input: Bytes)
    ensures Parse(input).Parsed? <==> |input| > 0 && IsBlank(input[0])
    ensures Parse(input).Parsed? ==> Parse(input) == Parsed(input[0], input[1..])
    ensures Parse(input).Failed? ==> Parse(input).at == input
  {
    if |input| > 0 {
      assert [SPACE] <= input <==> input[0] == SPACE;
      assert [TAB] <= input <==> input[0] == TAB;
    }
  }
}
