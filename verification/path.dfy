/** `path::parse`: a path is a quoted string of at most 259 characters. */
module Path {
  import opened Bytes
  import opened Nom
  import QuotedCharacters

  const MAX_PATH := 259

  function Parse(input: Bytes): IResult<Bytes>
  {
    QuotedCharacters.Parse(0, MAX_PATH, input)
  }

  /** A path of up to 259 text bytes, quoted with its double quotes doubled,
      reads back as itself; what follows the closing quote is left, unless
      it starts with a double quote while the path is shorter than the
      maximum. */
  lemma ParseWritten(path: Bytes, rest: Bytes)
    requires |path| <= MAX_PATH && QuotedCharacters.AllText(path)
    requires |path| == MAX_PATH || |rest| == 0 || rest[0] != QuotedCharacters.DQUOTE
    ensures Parse([QuotedCharacters.DQUOTE] + QuotedCharacters.Escape(path) + [QuotedCharacters.DQUOTE] + rest)
      == Parsed(path, rest)
  {
    QuotedCharacters.ParseWritten(0, MAX_PATH, path, rest);
  }

  /** A longer path is rejected where the 260th character starts. */
  lemma TooLong(path: Bytes, rest: Bytes)
    requires |path| > MAX_PATH && QuotedCharacters.AllText(path) && path[MAX_PATH] != QuotedCharacters.DQUOTE
    ensures Parse([QuotedCharacters.DQUOTE] + QuotedCharacters.Escape(path) + [QuotedCharacters.DQUOTE] + rest)
      == Failed(QuotedCharacters.Escape(path[MAX_PATH..]) + [QuotedCharacters.DQUOTE] + rest)
  {
    QuotedCharacters.TooLong(0, MAX_PATH, path, rest);
  }
}
