/** `quoted_characters::parse(min, max)`: a double quote, between `min` and
    `max` quoted characters, and a closing double quote. The characters are
    kept as bytes. */
module QuotedCharacters {
  import opened Bytes
  import opened Nom
  import QuotedCharacter

  const DQUOTE: byte := 0x22

  function Parse(min: nat, max: nat, input: Bytes): IResult<Bytes>
  {
    var (_, afterOpen) :- Tag([DQUOTE], input);
    var (chars, afterChars) :- ManyMN(min, max, QuotedCharacter.Parse, afterOpen);
    var (_, rest) :- Tag([DQUOTE], afterChars);
    Parsed(chars, rest)
  }

  /** The written form of a string: every double quote doubled. */
  function Escape(s: Bytes): Bytes
  {
    Concat(QuotedCharacter.Escape, s)
  }

  /** Bytes a quoted string can hold. */
  predicate AllText(s: Bytes) { forall i :: 0 <= i < |s| ==> QuotedCharacter.IsText(s[i]) }

  /** Quoted characters read every escaped text byte back. */
  lemma ReadsText(s: Bytes)
    requires AllText(s)
    ensures Reads(QuotedCharacter.Parse, QuotedCharacter.Escape, s)
  {
    forall i, tail | 0 <= i < |s|
      ensures QuotedCharacter.Parse(QuotedCharacter.Escape(s[i]) + tail) == Parsed(s[i], tail)
    {
      QuotedCharacter.ParseEscaped(s[i], tail);
    }
  }

  /** The characters of an escaped string, read by `many_m_n`. */
  lemma ManyEscaped(min: nat, max: nat, s: Bytes, tail: Bytes)
    requires min <= max && AllText(s)
    requires |s| >= max || QuotedCharacter.Parse(tail).Failed?
    ensures ManyMN(min, max, QuotedCharacter.Parse, Escape(s) + tail)
      == if |s| >= max then Parsed(s[..max], Escape(s[max..]) + tail)
         else if |s| >= min then Parsed(s, tail)
         else Failed(QuotedCharacter.Parse(tail).at)
  {
    ReadsText(s);
    RepeatWritten(min, max, QuotedCharacter.Parse, QuotedCharacter.Escape, s, tail);
  }

  /** The parser around its characters: an opening quote, the repetition,
      and a closing quote that must follow it. */
  lemma ParseFrame(min: nat, max: nat, body: Bytes)
    ensures Parse(min, max, [DQUOTE] + body)
      == match ManyMN(min, max, QuotedCharacter.Parse, body)
         case Failed(e) => Failed(e)
         case Parsed(cs, r) => if |r| > 0 && r[0] == DQUOTE then Parsed(cs, r[1..]) else Failed(r)
  {
    assert ([DQUOTE] + body)[1..] == body;
    match ManyMN(min, max, QuotedCharacter.Parse, body)
    case Failed(e) =>
    case Parsed(cs, r) =>
      assert [DQUOTE] <= r <==> |r| > 0 && r[0] == DQUOTE;
  }

  /** A string of `min` to `max` text bytes, written quoted with its double
      quotes doubled, reads back as itself and leaves what follows, unless
      that starts with a double quote while the string is shorter than
      `max` (the closing quote would then read as an escaped one). */
  lemma ParseWritten(min: nat, max: nat, s: Bytes, rest: Bytes)
    requires min <= |s| <= max && AllText(s)
    requires |s| == max || |rest| == 0 || rest[0] != DQUOTE
    ensures Parse(min, max, [DQUOTE] + Escape(s) + [DQUOTE] + rest) == Parsed(s, rest)
  {
    var tail := [DQUOTE] + rest;
    assert [DQUOTE] + Escape(s) + [DQUOTE] + rest == [DQUOTE] + (Escape(s) + tail);
    ParseFrame(min, max, Escape(s) + tail);
    QuotedCharacter.ParseSpec(tail);
    ManyEscaped(min, max, s, tail);
    assert tail[1..] == rest;
    if |s| == max {
      assert s[..max] == s && s[max..] == [];
      assert Escape(s[max..]) + tail == tail;
    }
  }

  /** Fewer than `min` characters is an error at the closing quote. */
  lemma TooShort(min: nat, max: nat, s: Bytes, rest: Bytes)
    requires |s| < min <= max && AllText(s)
    requires |rest| == 0 || rest[0] != DQUOTE
    ensures Parse(min, max, [DQUOTE] + Escape(s) + [DQUOTE] + rest) == Failed([DQUOTE] + rest)
  {
    var tail := [DQUOTE] + rest;
    assert [DQUOTE] + Escape(s) + [DQUOTE] + rest == [DQUOTE] + (Escape(s) + tail);
    ParseFrame(min, max, Escape(s) + tail);
    QuotedCharacter.ParseSpec(tail);
    ManyEscaped(min, max, s, tail);
  }

  /** More than `max` characters stop at `max`: the closing-quote tag then
      fails where the excess starts, unless the excess starts with an
      escaped double quote. */
  lemma TooLong(min: nat, max: nat, s: Bytes, rest: Bytes)
    requires min <= max < |s| && AllText(s) && s[max] != DQUOTE
    ensures Parse(min, max, [DQUOTE] + Escape(s) + [DQUOTE] + rest)
      == Failed(Escape(s[max..]) + [DQUOTE] + rest)
  {
    var tail := [DQUOTE] + rest;
    assert [DQUOTE] + Escape(s) + [DQUOTE] + rest == [DQUOTE] + (Escape(s) + tail);
    ParseFrame(min, max, Escape(s) + tail);
    ManyEscaped(min, max, s, tail);
    assert Escape(s[max..]) == [s[max]] + Escape(s[max..][1..]);
    assert Escape(s[max..]) + tail == Escape(s[max..]) + [DQUOTE] + rest;
  }
}
