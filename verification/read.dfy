/** The stand-alone readers of a single CMG, DPB or GC line (`FromStr` for
    `ProjectProtectionState`, `ProjectPassword` and `ProjectVisibililyState`).
    Each strips the field's tag from the front and the closing quotes from
    the back, turns the hex text into decrypted bytes, and classifies those
    bytes exactly as the grammar does (the classifications are shared, in
    `Fields`).

    The hex-text-to-plaintext step, `data_encryption::decode_str`, is not
    part of this model: it is the parameter `decodeStr`, and the round trips
    below require only that it decrypts the hex of an encrypted buffer the
    way `DataEncryption.Decode` decrypts the buffer itself. */
module FieldReaders {
  import opened Bytes
  import DataEncryption
  import Data
  import Fields
  import ProjectRecord
  import ProjectText
  import Nom

  type CipherError = DataEncryption.CipherError

  /** `data_encryption::decode_str`: hex text to decrypted bytes. */
  type DecodeStr = Bytes -> Result<Bytes, CipherError>

  const DQUOTE: byte := ProjectRecord.DQUOTE

  // Trimming

  /** `n` copies of `pat`, back to back. */
  function Copies(pat: Bytes, n: nat): Bytes
  {
    if n == 0 then [] else pat + Copies(pat, n - 1)
  }

  /** `str::trim_start_matches` with a string pattern: every leading copy of
      `pat` is removed, so what is left is a suffix that does not start
      with `pat`. */
  function TrimStartMatches(s: Bytes, pat: Bytes): Bytes
    requires |pat| > 0
    decreases |s|
  {
    if pat <= s then TrimStartMatches(s[|pat|..], pat) else s
  }

  /** Trimming one leading copy of the pattern. */
  lemma TrimStartStep(pat: Bytes, tail: Bytes)
    requires |pat| > 0
    ensures TrimStartMatches(pat + tail, pat) == TrimStartMatches(tail, pat)
  {
    var s := pat + tail;
    assert s[..|pat|] == pat;
    assert s[|pat|..] == tail;
  }

  /** What is trimmed is a whole number of copies of the pattern, and
      what is left does not start with it ... */
  lemma {:induction false} TrimStartRemovesCopies(s: Bytes, pat: Bytes)
    requires |pat| > 0
    ensures !(pat <= TrimStartMatches(s, pat))
    ensures exists n: nat :: s == Copies(pat, n) + TrimStartMatches(s, pat)
    decreases |s|
  {
    if pat <= s {
      var tail := s[|pat|..];
      TrimStartRemovesCopies(tail, pat);
      var n: nat :| tail == Copies(pat, n) + TrimStartMatches(tail, pat);
      assert s == pat + tail;
      TrimStartStep(pat, tail);
      assert s == Copies(pat, n + 1) + TrimStartMatches(s, pat);
    } else {
      assert s == Copies(pat, 0) + s;
    }
  }

  /** ... and every run of leading copies is trimmed, whatever follows it
      as long as that does not start with the pattern. */
  lemma {:induction false} TrimStartOfCopies(pat: Bytes, n: nat, r: Bytes)
    requires |pat| > 0 && !(pat <= r)
    ensures TrimStartMatches(Copies(pat, n) + r, pat) == r
  {
    if n > 0 {
      var c := Copies(pat, n - 1);
      assert Copies(pat, n) + r == pat + (c + r);
      TrimStartStep(pat, c + r);
      TrimStartOfCopies(pat, n - 1, r);
    } else {
      assert Copies(pat, n) + r == r;
    }
  }

  /** `str::trim_end_matches` with a byte: the longest prefix that does not
      end in `c`, all of the bytes after it being `c`. */
  function TrimEndMatches(s: Bytes, c: byte): (r: Bytes)
    ensures r <= s
    ensures |r| == 0 || r[|r| - 1] != c
    ensures forall i :: |r| <= i < |s| ==> s[i] == c
    decreases |s|
  {
    if |s| > 0 && s[|s| - 1] == c then TrimEndMatches(s[..|s| - 1], c) else s
  }

  /** `n` copies of the byte `c`. */
  function Fill(c: byte, n: nat): (r: Bytes)
    ensures |r| == n && forall i :: 0 <= i < n ==> r[i] == c
  {
    if n == 0 then [] else Fill(c, n - 1) + [c]
  }

  /** Any run of `c` after a text that does not end in `c` is trimmed. */
  lemma {:induction false} TrimEndOfFill(r: Bytes, c: byte, n: nat)
    requires |r| == 0 || r[|r| - 1] != c
    ensures TrimEndMatches(r + Fill(c, n), c) == r
  {
    if n > 0 {
      var s := r + Fill(c, n);
      assert s[..|s| - 1] == r + Fill(c, n - 1);
      TrimEndOfFill(r, c, n - 1);
    } else {
      assert r + Fill(c, n) == r;
    }
  }

  /** The hex text of a field line: the tag trimmed from the front, the
      closing quotes from the back. */
  function HexText(line: Bytes, tag: Bytes): Bytes
    requires |tag| > 0
  {
    TrimEndMatches(TrimStartMatches(line, tag), DQUOTE)
  }

  /** The three tags the readers trim. */
  predicate FieldTag(tag: Bytes)
  {
    tag == ProjectRecord.CMG || tag == ProjectRecord.DPB || tag == ProjectRecord.GC
  }

  /** A field line as the grammar lays it out, without its line break. */
  function FieldLine(tag: Bytes, enc: Bytes, upper: bool): Bytes
  {
    tag + HexString(enc, upper) + [DQUOTE]
  }

  /** No tag starts a run of hex digits closed by a quote: `GC="` starts
      with a letter that is no hex digit, and the second letters of `CMG="`
      and `DPB="` are none either. */
  lemma TagMissesHex(tag: Bytes, hex: Bytes)
    requires FieldTag(tag) && AllHexDigits(hex)
    ensures !(tag <= hex + [DQUOTE])
  {
    var body := hex + [DQUOTE];
    if |hex| == 0 {
      assert body[0] != tag[0];
    } else if tag == ProjectRecord.GC {
      assert body[0] == hex[0] && IsHexDigit(hex[0]);
      assert !IsHexDigit(tag[0]);
    } else if |hex| == 1 {
      assert body[1] == DQUOTE != tag[1];
    } else {
      assert body[1] == hex[1] && IsHexDigit(hex[1]);
      assert !IsHexDigit(tag[1]);
    }
  }

  /** Trimming a tag and a closing quote from hex text leaves the hex. */
  lemma HexTextOfHex(tag: Bytes, hex: Bytes)
    requires FieldTag(tag) && AllHexDigits(hex)
    ensures HexText(tag + hex + [DQUOTE], tag) == hex
  {
    var body := hex + [DQUOTE];
    TagMissesHex(tag, hex);
    assert tag + hex + [DQUOTE] == Copies(tag, 1) + body;
    TrimStartOfCopies(tag, 1, body);
    assert body == hex + Fill(DQUOTE, 1);
    assert |hex| == 0 || IsHexDigit(hex[|hex| - 1]);
    TrimEndOfFill(hex, DQUOTE, 1);
  }

  /** The hex text of a field line is the hex of the encrypted bytes: none
      of the tags can be mistaken for hex, in either case. */
  lemma FieldLineHex(tag: Bytes, enc: Bytes, upper: bool)
    requires FieldTag(tag)
    ensures HexText(FieldLine(tag, enc, upper), tag) == HexString(enc, upper)
  {
    HexStringDigits(enc, upper);
    HexTextOfHex(tag, HexString(enc, upper));
  }

  // The readers

  /** The requirement on `decodeStr` that the round trips need: it
      decrypts the hex of an encrypted buffer as `Decode` decrypts the
      buffer. */
  predicate DecodesHexOf(decodeStr: DecodeStr, enc: Bytes, upper: bool)
  {
    decodeStr(HexString(enc, upper)) == DataEncryption.Decode(enc)
  }

  /** One front end that meets the requirement for every buffer and both
      cases: read the hex pairs, then decrypt. */
  function HexThenDecode(s: Bytes): Result<Bytes, CipherError>
  {
    match Data.FromStr(s)
    case Err(e) => Err(DataEncryption.InvalidHex(e.text))
    case Ok(data) => DataEncryption.Decode(data)
  }

  lemma HexThenDecodeMeets(enc: Bytes, upper: bool)
    ensures DecodesHexOf(HexThenDecode, enc, upper)
  {
    Data.FromStrIgnoresCase(enc);
  }

  /** `ProjectProtectionState::from_str`. A state read is one whose four
      bytes are exactly the decrypted bytes; a failure to decrypt is
      reported as such. */
  function ProtectionFromStr(decodeStr: DecodeStr, line: Bytes): (r: Result<Fields.ProtectionState, Fields.ProtectionError>)
  {
    Fields.DecryptedProtection(decodeStr(HexText(line, ProjectRecord.CMG)))
  }

  lemma ProtectionFromStrMeaning(decodeStr: DecodeStr, line: Bytes)
    ensures var data := decodeStr(HexText(line, ProjectRecord.CMG));
      var r := ProtectionFromStr(decodeStr, line);
      && (r.Ok? <==> data.Ok? && |data.value| == 4 && data.value[0] <= 7
                     && data.value[1] == 0 && data.value[2] == 0 && data.value[3] == 0)
      && (r.Ok? ==> data.value == Fields.ProtectionBytes(r.value))
      && (data.Err? ==> r == Err(Fields.ProtectionDecrypt(data.error)))
      && (data.Ok? && |data.value| != 4 ==> r == Err(Fields.ProtectionLength(|data.value|)))
  {
  }

  /** `ProjectPassword::from_str`. A password read is one a field can
      carry, and unless it is a hash its bytes are exactly the decrypted
      bytes. */
  function PasswordFromStr(decodeStr: DecodeStr, line: Bytes): (r: Result<Fields.Password, Fields.PasswordError>)
  {
    Fields.DecryptedPassword(decodeStr(HexText(line, ProjectRecord.DPB)))
  }

  lemma PasswordFromStrMeaning(decodeStr: DecodeStr, line: Bytes)
    ensures var data := decodeStr(HexText(line, ProjectRecord.DPB));
      var r := PasswordFromStr(decodeStr, line);
      && (r.Ok? ==> Fields.Encodable(r.value))
      && (r.Ok? && !r.value.Hashed? ==> data.value == Fields.PasswordBytes(r.value))
      && (data.Err? ==> r == Err(Fields.PasswordDecrypt(data.error)))
      && (data.Ok? && |data.value| == 0 ==> r == Err(Fields.NoData))
  {
    var data := decodeStr(HexText(line, ProjectRecord.DPB));
    if data.Ok? && Fields.ClassifyPassword(data.value).Ok? {
      Fields.PasswordBytesRead(data.value);
    }
  }

  /** `ProjectVisibililyState::from_str`. A state read is one whose single
      byte is exactly the decrypted byte. */
  function VisibilityFromStr(decodeStr: DecodeStr, line: Bytes): (r: Result<Fields.Visibility, Fields.VisibilityError>)
  {
    Fields.DecryptedVisibility(decodeStr(HexText(line, ProjectRecord.GC)))
  }

  lemma VisibilityFromStrMeaning(decodeStr: DecodeStr, line: Bytes)
    ensures var data := decodeStr(HexText(line, ProjectRecord.GC));
      var r := VisibilityFromStr(decodeStr, line);
      && (r.Ok? <==> data.Ok? && |data.value| == 1 && (data.value[0] == 0x00 || data.value[0] == 0xFF))
      && (r.Ok? ==> data.value == [Fields.VisibilityByte(r.value)])
      && (data.Err? ==> r == Err(Fields.VisibilityDecrypt(data.error)))
      && (data.Ok? && |data.value| == 1 && data.value[0] != 0x00 && data.value[0] != 0xFF
          ==> r == Err(Fields.InvalidState(data.value[0])))
  {
  }

  // Agreement with the grammar and round trips

  /** The stand-alone reader and the grammar agree on a CMG line: both give
      the decrypted state, or both fail. */
  lemma ProtectionReadersAgree(decodeStr: DecodeStr, enc: Bytes, rest: Bytes)
    requires ProjectRecord.CMG_MIN / 2 <= |enc| <= ProjectRecord.CMG_MAX / 2
    requires DecodesHexOf(decodeStr, enc, true)
    ensures var line := FieldLine(ProjectRecord.CMG, enc, true);
      match ProtectionFromStr(decodeStr, line)
      case Ok(s) => ProjectRecord.ParseProtectionState(ProjectText.EncryptedLine(ProjectRecord.CMG, enc, rest)) == Nom.Parsed(s, rest)
      case Err(_) => ProjectRecord.ParseProtectionState(ProjectText.EncryptedLine(ProjectRecord.CMG, enc, rest)).Failed?
  {
    FieldLineHex(ProjectRecord.CMG, enc, true);
    ProjectText.ProtectionLineRead(enc, rest);
  }

  lemma PasswordReadersAgree(decodeStr: DecodeStr, enc: Bytes, rest: Bytes)
    requires ProjectRecord.DPB_MIN / 2 <= |enc| <= ProjectRecord.DPB_MAX / 2
    requires DecodesHexOf(decodeStr, enc, true)
    ensures var line := FieldLine(ProjectRecord.DPB, enc, true);
      match PasswordFromStr(decodeStr, line)
      case Ok(p) => ProjectRecord.ParsePassword(ProjectText.EncryptedLine(ProjectRecord.DPB, enc, rest)) == Nom.Parsed(p, rest)
      case Err(_) => ProjectRecord.ParsePassword(ProjectText.EncryptedLine(ProjectRecord.DPB, enc, rest)).Failed?
  {
    FieldLineHex(ProjectRecord.DPB, enc, true);
    ProjectText.PasswordLineRead(enc, rest);
  }

  lemma VisibilityReadersAgree(decodeStr: DecodeStr, enc: Bytes, rest: Bytes)
    requires ProjectRecord.GC_MIN / 2 <= |enc| <= ProjectRecord.GC_MAX / 2
    requires DecodesHexOf(decodeStr, enc, true)
    ensures var line := FieldLine(ProjectRecord.GC, enc, true);
      match VisibilityFromStr(decodeStr, line)
      case Ok(v) => ProjectRecord.ParseVisibilityState(ProjectText.EncryptedLine(ProjectRecord.GC, enc, rest)) == Nom.Parsed(v, rest)
      case Err(_) => ProjectRecord.ParseVisibilityState(ProjectText.EncryptedLine(ProjectRecord.GC, enc, rest)).Failed?
  {
    FieldLineHex(ProjectRecord.GC, enc, true);
    ProjectText.VisibilityLineRead(enc, rest);
  }

  /** A protection state encrypted with any seed and key and written as a
      CMG line, in either case of hex, is read back. */
  lemma ProtectionLineRoundTrip(decodeStr: DecodeStr, seed: byte, key: byte, s: Fields.ProtectionState, upper: bool)
    requires DecodesHexOf(decodeStr, DataEncryption.Encode(seed, key, Fields.ProtectionBytes(s)), upper)
    ensures ProtectionFromStr(decodeStr, FieldLine(ProjectRecord.CMG, DataEncryption.Encode(seed, key, Fields.ProtectionBytes(s)), upper)) == Ok(s)
  {
    FieldLineHex(ProjectRecord.CMG, DataEncryption.Encode(seed, key, Fields.ProtectionBytes(s)), upper);
    Fields.ProtectionEncrypted(seed, key, s);
  }

  lemma PasswordLineRoundTrip(decodeStr: DecodeStr, seed: byte, key: byte, p: Fields.Password, upper: bool)
    requires Fields.Encodable(p) && |Fields.PasswordBytes(p)| <= 255
    requires DecodesHexOf(decodeStr, DataEncryption.Encode(seed, key, Fields.PasswordBytes(p)), upper)
    ensures PasswordFromStr(decodeStr, FieldLine(ProjectRecord.DPB, DataEncryption.Encode(seed, key, Fields.PasswordBytes(p)), upper)) == Ok(p)
  {
    FieldLineHex(ProjectRecord.DPB, DataEncryption.Encode(seed, key, Fields.PasswordBytes(p)), upper);
    Fields.PasswordEncrypted(seed, key, p);
  }

  lemma VisibilityLineRoundTrip(decodeStr: DecodeStr, seed: byte, key: byte, v: Fields.Visibility, upper: bool)
    requires DecodesHexOf(decodeStr, DataEncryption.Encode(seed, key, [Fields.VisibilityByte(v)]), upper)
    ensures VisibilityFromStr(decodeStr, FieldLine(ProjectRecord.GC, DataEncryption.Encode(seed, key, [Fields.VisibilityByte(v)]), upper)) == Ok(v)
  {
    FieldLineHex(ProjectRecord.GC, DataEncryption.Encode(seed, key, [Fields.VisibilityByte(v)]), upper);
    Fields.VisibilityEncrypted(seed, key, v);
  }
}
