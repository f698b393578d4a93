/** The three encrypted fields of the PROJECT stream once decrypted:
    ProjectProtectionState (CMG, [MS-OVBA] section 2.3.1.15), ProjectPassword
    (DPB, section 2.3.1.16) and ProjectVisibilityState (GC, section
    2.3.1.17). The grammar and the stand-alone line readers classify the
    decrypted bytes the same way, so both use the definitions here. */
module Fields {
  import opened Bytes
  import DataEncryption
  import PasswordHash

  type CipherError = DataEncryption.CipherError

  /** Which protections are on: bits 0, 1 and 2 of the first byte. */
  datatype ProtectionState = ProtectionState(user: bool, host: bool, vbe: bool)

  /** `error::ProtectionState`. */
  datatype ProtectionError =
    | ProtectionDecrypt(cause: CipherError)
    | ProtectionLength(length: nat)
    | ReservedBits(data: Bytes)

  /** The project password: none, a salted SHA-1 digest, or the text. */
  datatype Password =
    | NoPassword
    | Hashed(salt: Bytes, hash: PasswordHash.Hash)
    | Plain(text: Bytes)

  /** `error::PasswordNone`. */
  datatype NoneError = NotNull(value: byte)

  /** `error::PasswordPlain`. */
  datatype PlainError = Terminator(last: byte)

  /** `error::Password`. */
  datatype PasswordError =
    | PasswordDecrypt(cause: CipherError)
    | NoneInvalid(none: NoneError)
    | HashInvalid(hash: PasswordHash.HashError)
    | PlainInvalid(plain: PlainError)
    | NoData

  datatype Visibility = NotVisible | Visible

  /** `error::Visibility`. */
  datatype VisibilityError =
    | VisibilityDecrypt(cause: CipherError)
    | VisibilityLength(length: nat)
    | InvalidState(state: byte)

  // Protection state

  /** The flag byte of a protection state. */
  function FlagByte(s: ProtectionState): (b: byte)
    ensures b <= 7
  {
    (if s.user then 1 else 0) | (if s.host then 2 else 0) | (if s.vbe then 4 else 0)
  }

  /** The four decrypted bytes that denote a protection state. */
  function ProtectionBytes(s: ProtectionState): (r: Bytes)
  {
    [FlagByte(s), 0, 0, 0]
  }

  /** Four bytes, of which only the low three bits of the first may be set:
      bits 0, 1 and 2 are the user, host and VBE protections. Any other
      length is `DataLength`, any other bit `ReservedBits`. */
  function ClassifyProtection(data: Bytes): (r: Result<ProtectionState, ProtectionError>)
    ensures r.Ok? ==> ProtectionBytes(r.value) == data
    ensures r.Err? ==> r.error == (if |data| != 4 then ProtectionLength(|data|) else ReservedBits(data))
  {
    if |data| != 4 then Err(ProtectionLength(|data|))
    else if data[0] > 7 || data[1] != 0 || data[2] != 0 || data[3] != 0 then Err(ReservedBits(data))
    else Ok(ProtectionState(data[0] & 1 == 1, data[0] & 2 == 2, data[0] & 4 == 4))
  }

  /** Every protection state is read back from its bytes, so the
      classification accepts exactly the images of `ProtectionBytes`. */
  lemma ProtectionRoundTrip(s: ProtectionState)
    ensures ClassifyProtection(ProtectionBytes(s)) == Ok(s)
  {
  }

  /** The VBE protection, which decides whether the project is locked, is
      bit 2 of the first decrypted byte. */
  lemma LockedIsBitTwo(data: Bytes)
    requires ClassifyProtection(data).Ok?
    ensures ClassifyProtection(data).value.vbe <==> data[0] & 4 != 0
  {
  }

  /** The decrypted field, or the decryption error wrapped. */
  function DecryptedProtection(decrypted: Result<Bytes, CipherError>): Result<ProtectionState, ProtectionError>
  {
    match decrypted
    case Err(e) => Err(ProtectionDecrypt(e))
    case Ok(data) => ClassifyProtection(data)
  }

  /** A protection state encrypted under any seed and key is read back. */
  lemma ProtectionEncrypted(seed: byte, key: byte, s: ProtectionState)
    ensures DecryptedProtection(DataEncryption.Decode(DataEncryption.Encode(seed, key, ProtectionBytes(s)))) == Ok(s)
  {
    DataEncryption.RoundTrip(seed, key, ProtectionBytes(s));
    ProtectionRoundTrip(s);
  }

  // Password

  /** `new_none`: the byte must be 0x00. */
  function NewNone(data: Bytes): (r: Result<Password, NoneError>)
    requires |data| > 0
    ensures r.Ok? <==> data[0] == 0
    ensures r.Ok? ==> r.value == NoPassword
    ensures r.Err? ==> r.error == NotNull(data[0])
  {
    if data[0] != 0 then Err(NotNull(data[0])) else Ok(NoPassword)
  }

  /** `new_plain`: the text is null-terminated; the password is what comes
      before the terminator. */
  function NewPlain(data: Bytes): (r: Result<Password, PlainError>)
    requires |data| > 0
    ensures r.Ok? <==> data[|data| - 1] == 0
    ensures r.Ok? ==> r.value.Plain? && r.value.text + [0] == data
    ensures r.Err? ==> r.error == Terminator(data[|data| - 1])
  {
    if data[|data| - 1] != 0 then Err(Terminator(data[|data| - 1]))
    else
      assert data[..|data| - 1] + [0] == data;
      Ok(Plain(data[..|data| - 1]))
  }

  /** The password by decrypted length: none is `NoData`, one byte is the
      no-password marker, 29 bytes a password hash structure, anything
      else a null-terminated plain-text password. */
  function ClassifyPassword(data: Bytes): (r: Result<Password, PasswordError>)
    ensures |data| == 0 ==> r == Err(NoData)
    ensures r.Ok? && r.value.Hashed? ==> |data| == PasswordHash.ENCODED_LENGTH
    ensures r.Ok? && r.value.Hashed? ==> PasswordHash.Decode(data) == Ok((r.value.salt, r.value.hash))
    ensures |data| == PasswordHash.ENCODED_LENGTH && PasswordHash.Decode(data).Ok?
      ==> r == Ok(Hashed(PasswordHash.Decode(data).value.0, PasswordHash.Decode(data).value.1))
  {
    if |data| == 0 then Err(NoData)
    else if |data| == 1 then
      match NewNone(data)
      case Err(e) => Err(NoneInvalid(e))
      case Ok(p) => Ok(p)
    else if |data| == PasswordHash.ENCODED_LENGTH then
      match PasswordHash.Decode(data)
      case Err(e) => Err(HashInvalid(e))
      case Ok((salt, hash)) => Ok(Hashed(salt, hash))
    else
      match NewPlain(data)
      case Err(e) => Err(PlainInvalid(e))
      case Ok(p) => Ok(p)
  }

  /** The passwords a DPB field can carry: a hash needs a 4-byte salt, and
      a plain-text password of 0 or 28 bytes would be read as the
      no-password marker or as a hash structure. */
  predicate Encodable(p: Password)
  {
    match p
    case NoPassword => true
    case Hashed(salt, _) => |salt| == PasswordHash.SALT_LENGTH
    case Plain(text) => |text| != 0 && |text| + 1 != PasswordHash.ENCODED_LENGTH
  }

  /** The decrypted bytes that denote a password. */
  function PasswordBytes(p: Password): (r: Bytes)
    requires Encodable(p)
  {
    match p
    case NoPassword => [0]
    case Hashed(salt, hash) =>
      PasswordHash.EncodeDecode(salt, hash);
      PasswordHash.Encode(salt, hash).value
    case Plain(text) => text + [0]
  }

  /** Every password a DPB field can carry is read back from its bytes. */
  lemma PasswordRoundTrip(p: Password)
    requires Encodable(p)
    ensures ClassifyPassword(PasswordBytes(p)) == Ok(p)
  {
    match p
    case NoPassword =>
    case Hashed(salt, hash) =>
      PasswordHash.EncodeDecode(salt, hash);
    case Plain(text) =>
      var data := text + [0];
      assert data[|data| - 1] == 0 && data[..|data| - 1] == text;
  }

  /** Whatever is read is a password a field can carry, and apart from a
      hash (whose placeholder bytes need not be canonical) its bytes are
      exactly the ones read. */
  lemma PasswordBytesRead(data: Bytes)
    requires ClassifyPassword(data).Ok?
    ensures Encodable(ClassifyPassword(data).value)
    ensures !ClassifyPassword(data).value.Hashed? ==> PasswordBytes(ClassifyPassword(data).value) == data
  {
    if |data| == 1 {
      assert data == [0];
    }
  }

  /** A hash structure in the canonical form `encode` writes is itself
      the bytes of the password read from it. */
  lemma HashedBytesRead(data: Bytes)
    requires ClassifyPassword(data).Ok? && ClassifyPassword(data).value.Hashed?
    requires PasswordHash.Encodable(data[4..8], PasswordHash.SaltFlags(data))
    requires PasswordHash.Encodable(data[8..28], PasswordHash.HashFlags(data))
    ensures PasswordBytes(ClassifyPassword(data).value) == data
  {
    PasswordHash.DecodeEncode(data);
  }

  /** The classification's error cases, in the order they are checked. */
  lemma PasswordErrors(data: Bytes)
    ensures |data| == 1 && data[0] != 0 ==> ClassifyPassword(data) == Err(NoneInvalid(NotNull(data[0])))
    ensures |data| == PasswordHash.ENCODED_LENGTH && PasswordHash.Decode(data).Err?
      ==> ClassifyPassword(data) == Err(HashInvalid(PasswordHash.Decode(data).error))
    ensures |data| > 1 && |data| != PasswordHash.ENCODED_LENGTH && data[|data| - 1] != 0
      ==> ClassifyPassword(data) == Err(PlainInvalid(Terminator(data[|data| - 1])))
  {
  }

  function DecryptedPassword(decrypted: Result<Bytes, CipherError>): Result<Password, PasswordError>
  {
    match decrypted
    case Err(e) => Err(PasswordDecrypt(e))
    case Ok(data) => ClassifyPassword(data)
  }

  /** A password of at most 255 bytes encrypted under any seed and key is
      read back. */
  lemma PasswordEncrypted(seed: byte, key: byte, p: Password)
    requires Encodable(p) && |PasswordBytes(p)| <= 255
    ensures DecryptedPassword(DataEncryption.Decode(DataEncryption.Encode(seed, key, PasswordBytes(p)))) == Ok(p)
  {
    DataEncryption.RoundTrip(seed, key, PasswordBytes(p));
    PasswordRoundTrip(p);
  }

  // Visibility

  function VisibilityByte(v: Visibility): byte
  {
    if v.Visible? then 0xFF else 0x00
  }

  /** One byte: 0x00 is not visible, 0xFF visible; another byte is
      `InvalidState`, another length `DataLength`. */
  function ClassifyVisibility(data: Bytes): (r: Result<Visibility, VisibilityError>)
    ensures r.Ok? ==> data == [VisibilityByte(r.value)]
    ensures r.Err? ==> r.error == (if |data| != 1 then VisibilityLength(|data|) else InvalidState(data[0]))
  {
    if |data| != 1 then Err(VisibilityLength(|data|))
    else if data[0] == 0x00 then Ok(NotVisible)
    else if data[0] == 0xFF then Ok(Visible)
    else Err(InvalidState(data[0]))
  }

  lemma VisibilityRoundTrip(v: Visibility)
    ensures ClassifyVisibility([VisibilityByte(v)]) == Ok(v)
  {
  }

  function DecryptedVisibility(decrypted: Result<Bytes, CipherError>): Result<Visibility, VisibilityError>
  {
    match decrypted
    case Err(e) => Err(VisibilityDecrypt(e))
    case Ok(data) => ClassifyVisibility(data)
  }

  /** A visibility state encrypted under any seed and key is read back. */
  lemma VisibilityEncrypted(seed: byte, key: byte, v: Visibility)
    ensures DecryptedVisibility(DataEncryption.Decode(DataEncryption.Encode(seed, key, [VisibilityByte(v)]))) == Ok(v)
  {
    DataEncryption.RoundTrip(seed, key, [VisibilityByte(v)]);
    VisibilityRoundTrip(v);
  }
}
