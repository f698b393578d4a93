/** `module_identifier::parse`: a letter, then up to 30 letters, digits or
    underscores; longer identifiers are cut at 31 bytes. */
module ModuleIdentifier {
  import opened Bytes
  import opened Nom

  const UNDERSCORE: byte := 0x5F
  const MAX_LENGTH := 31

  predicate IsTailByte(b: byte) { IsAlnum(b) || b == UNDERSCORE }

  /** `recognize` of the two runs: the value is the bytes both consumed. */
  function Parse(input: Bytes): IResult<Bytes>
  {
    var (first, afterFirst) :- TakeWhileMN(1, 1, IsAlpha, input);
    var (more, rest) :- TakeWhileMN(0, MAX_LENGTH - 1, IsTailByte, afterFirst);
    Parsed(first + more, rest)
  }

  /** An identifier: a letter, then letters, digits and underscores. */
  predicate IsIdentifier(s: Bytes)
  {
    |s| > 0 && IsAlpha(s[0]) && forall i :: 1 <= i < |s| ==> IsTailByte(s[i])
  }

  /** The parse succeeds exactly when the input starts with a letter, and
      then returns the longest identifier prefix of at most 31 bytes,
      leaving the rest; otherwise it is an error at the input. */
  lemma ParseSpec(input: Bytes)
    ensures Parse(input).Parsed? <==> |input| > 0 && IsAlpha(input[0])
    ensures Parse(input).Parsed? ==> var r := Parse(input);
      && input == r.value + r.rest
      && IsIdentifier(r.value) && |r.value| <= MAX_LENGTH
      && (|r.value| < MAX_LENGTH && |r.rest| > 0 ==> !IsTailByte(r.rest[0]))
    ensures Parse(input).Failed? ==> Parse(input).at == input
  {
    if |input| > 0 && IsAlpha(input[0]) {
      assert Run(IsAlpha, input, 1) == 1;
      var k := Run(IsTailByte, input[1..], MAX_LENGTH - 1);
      var r := Parse(input);
      assert r.value == input[..1] + input[1..][..k];
      assert r.value == input[..k + 1];
      assert r.rest == input[k + 1..];
    } else if |input| > 0 {
      assert Run(IsAlpha, input, 1) == 0;
    }
  }

  /** An identifier of at most 31 bytes reads back as itself when what
      follows cannot continue it. */
  lemma ParseWritten(name: Bytes, rest: Bytes)
    requires IsIdentifier(name) && |name| <= MAX_LENGTH
    requires |name| == MAX_LENGTH || |rest| == 0 || !IsTailByte(rest[0])
    ensures Parse(name + rest) == Parsed(name, rest)
  {
    var input := name + rest;
    assert Run(IsAlpha, input, 1) == 1;
    assert input[1..] == name[1..] + rest;
    RunOfPrefix(IsTailByte, name[1..], rest, MAX_LENGTH - 1);
    var r := Parse(input);
    assert r.value == input[..1] + name[1..];
    assert r.value == name;
  }

  lemma ParseShortens()
    ensures Shortening(Parse)
  {
    forall i ensures Parse(i).Parsed? ==> |Parse(i).rest| <= |i| {
      ParseSpec(i);
    }
  }
}
