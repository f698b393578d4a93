# unlock_excel: the VBA PROJECT stream decoder, in Dafny

`unlock_excel` reads and rewrites the `PROJECT` stream of an Excel VBA
project, the text stream that [MS-OVBA] section 2.3.1 defines. This project
models the decoding engine behind it and proves properties of the model.

- **Reversible data encryption** ([MS-OVBA] section 2.4.3). This is a running-key
  XOR over bytes, with a seed, version and project-key header, 0 to 3 ignored
  bytes, a four-byte length and the payload.
  - `DataEncryption.Decode` and `DataEncryption.Encode` model it.
- **The Password Hash Data Structure** ([MS-OVBA] section 2.4.4). This is 29
  bytes: a reserved byte, three bytes of null masks, a 4-byte salt, a 20-byte
  SHA-1 digest and a terminator.
  - `PasswordHash` models it.
- **Hex codecs.**
  - `Data` models `Data::from_str` and `Display`.
  - `HexDigits` models the pair parser.
  - `Types` and `Radix` model the `from_str_radix` helpers.
- **The lexical parsers of `src/ovba/types`.** These are GUID, `&H` hex integer,
  decimal integer, module identifier, line break, whitespace, quoted
  character, quoted string and path.
  - Each is a function from bytes to `Nom.IResult`: parsed, with a value and
    the rest of the input, or failed at some input.
  - `Nom` models the nom 7 combinators the program uses.
- **The recursive-descent grammar of the stream.**
  - `ProjectRecord` models it.
  - `Fields` holds its classifiers for the CMG (protection state), DPB
    (password) and GC (visibility) fields.
  - `ProjectText` writes each section as the grammar reads it.
  - `ProjectStream` proves that a whole stream written from a project reads
    back as that project.
- **The stand-alone line readers of `src/read.rs`** (`FieldReaders`). They share
  their classifiers with the grammar.
- **The unlocking line rewriter of `src/remove.rs`** (`Unlock`).

Bytes are `bv8`, so `^` and wrapping `+` behave as in the program. Text is a
sequence of bytes.

Three things that the program takes from elsewhere are parameters:
- the SHA-1 function (`PasswordHash.Digest`);
- the hex-text decryptor `data_encryption::decode_str` (`FieldReaders.DecodeStr`);
- the four replacement lines `UNLOCKED_*` (`Unlock.Unlocked`).

## Behaviour kept as written

- **The length field is rebuilt with 4-bit shifts.** The decoder ORs each of
  the four length bytes in at `4 * position` bits. The encoder writes the
  length as four little-endian bytes. So an encoded payload reads back only
  when it is 1 to 255 bytes long:
  - `DataEncryption.RoundTrip` proves the round trip in that range;
  - `DataEncryption.RoundTripFailsFrom256` proves the failure from 256 bytes;
  - `DataEncryption.EmptyWithoutFillerTooShort` proves that an empty payload
    with no ignored bytes is rejected as too short.
- **The salt mask is the low four bits of byte 1.** The upper four bits of
  that byte start the 20-bit hash mask.
- **Null-mask errors carry partly restored bytes.** `SaltNull` and `HashNull`
  carry the array with the earlier clear-bit positions already set to zero.
- **Signs are accepted.** `from_str_radix` accepts a leading `+`, and a `-`
  when the type is signed. The model keeps this.
- **Field errors become plain parse failures.** An error in a decrypted field
  fails the grammar at the start of that field's line.
- **Trailing bytes are ignored.** Bytes after the last section are left unread.
- **An empty item list still needs a line break.**

## Model

| member | source | states |
|---|---|---|
| DataEncryption.Decode | src/ovba/algorithms/data_encryption.rs:22-73 | Under 8 bytes fails `TooShort` with the input as lower-case hex. A version byte `b[0]^b[1]` other than 2 fails `Version`. Otherwise the result is `Ok` exactly when the payload after the ignored and length bytes fits a `u32` and its length equals the nibble-read declared length. The `Ok` value is that payload, which is at most `len - 7` bytes. Every other result is `LengthMismatch` carrying the declared length and the payload length as a `u32`, or `0xFFFF_FFFF` when it does not fit. |
| DataEncryption.IgnoredLength | src/ovba/algorithms/data_encryption.rs:41 | The number of ignored bytes taken from the seed is at most 3. |
| DataEncryption.Encode | src/ovba/algorithms/data_encryption.rs:80-116 | The output is `3 + ignored + 4 + len` bytes. It starts with the seed, then a byte whose XOR with the seed is 2, then one whose XOR with the seed is the key. The rest decrypts to filler, the length bytes and the data. |
| DataEncryption.DecryptEncrypt | src/ovba/algorithms/data_encryption.rs:43-64 | Running the decryption chain over the encryption chain's output, from the same state, gives back the plaintext. |
| DataEncryption.EncryptDecrypt | src/ovba/algorithms/data_encryption.rs:94-113 | The converse: encrypting what decryption produced gives back the ciphertext. |
| DataEncryption.NibbleReadAgrees | src/ovba/algorithms/data_encryption.rs:57-61 | The length read with 4-bit shifts equals the little-endian word exactly when bytes 1 to 3 of the field are zero. |
| DataEncryption.LargeLengthBytes | src/ovba/algorithms/data_encryption.rs:100-105 | A length from 256 up to `u32::MAX` has a nonzero byte among bytes 1 to 3 of its little-endian form. |
| DataEncryption.EncodeLayout | src/ovba/algorithms/data_encryption.rs:80-116 | An encoding's payload is the data, and its declared length is the 4-bit-shift reading of the little-endian length bytes. |
| DataEncryption.RoundTrip | src/ovba/algorithms/data_encryption.rs:162-169 | Decoding an encoding gives back the data, for every seed and key, when the data is 1 to 255 bytes long (or empty with filler present). |
| DataEncryption.EmptyWithoutFillerTooShort | src/ovba/algorithms/data_encryption.rs:24-30 | With no ignored bytes, an empty payload encodes to 7 bytes, which decode rejects as `TooShort`. |
| DataEncryption.RoundTripFailsFrom256 | src/ovba/algorithms/data_encryption.rs:57-70 | Data of 256 bytes or more fails to round-trip with `LengthMismatch`. The actual length is reported against the 4-bit-shift reading, and the two differ. |
| DataEncryption.DecodeTooShortVector | src/ovba/algorithms/data_encryption.rs:124-142 | The two-byte test input fails `TooShort` carrying `"7e2f"`. |
| DataEncryption.DecodeVersionVector | src/ovba/algorithms/data_encryption.rs:144-151 | The test input with version `0x01 ^ 0x23` fails `Version(0x22)`. |
| DataEncryption.DecodeLengthMismatchVector | src/ovba/algorithms/data_encryption.rs:153-160 | The nine-byte test input fails `LengthMismatch(2, 15)`. |
| DataEncryption.PlaintextVector | src/ovba/algorithms/data_encryption.rs:43-64 | The nine-byte test input decrypts to the length bytes `0f 00 00 00` followed by two payload bytes. |
| PasswordHash.Decode | src/ovba/algorithms/password_hash.rs:28-38 | The checks come in order. A length other than 29 fails `Length`. A first byte other than `0xFF` fails `Reserved`. A last byte other than `0x00` fails `Terminator`. Success implies all three hold. |
| PasswordHash.RestoreOkIff | src/ovba/algorithms/password_hash.rs:48-57 | Null restoration succeeds exactly when every byte whose mask bit is clear is `0x01`. |
| PasswordHash.RestoreOkValue | src/ovba/algorithms/password_hash.rs:48-57 | On success, the bytes whose mask bit is clear become zero and the others are kept. |
| PasswordHash.RestoreErr | src/ovba/algorithms/password_hash.rs:49-55 | A failure is at the first clear-bit position not holding `0x01`. Its array has the positions before it restored and the rest untouched. |
| PasswordHash.DecodeOkIff | src/ovba/algorithms/password_hash.rs:40-73 | A well-framed structure decodes exactly when the salt and the hash are both correctly marked by their masks. |
| PasswordHash.DecodeNullErrors | src/ovba/algorithms/password_hash.rs:48-71 | In a well-framed structure, a badly marked salt gives `SaltNull`. A correctly marked salt with a badly marked digest gives `HashNull`. |
| PasswordHash.DecodeOkValue | src/ovba/algorithms/password_hash.rs:40-73 | The decoded salt and digest are bytes 4..8 and 8..28 with the clear-bit positions set to zero. The salt mask is byte 1's low nibble. The hash mask is `byte1>>4 \| byte2<<4 \| byte3<<12`. |
| PasswordHash.DecodeSaltNull | src/ovba/algorithms/password_hash.rs:48-57 | A `SaltNull(salt, i)` error names the first salt position with a clear bit and no `0x01`, and carries the partly restored salt. |
| PasswordHash.DecodeHashNull | src/ovba/algorithms/password_hash.rs:60-71 | A `HashNull(hash, i)` error comes only after the salt is correctly marked. It names the first bad hash position and carries the partly restored hash. |
| PasswordHash.Encode | src/ovba/algorithms/password_hash.rs:89-146 | A salt that is not 4 bytes fails `SaltLength`, and only then. Otherwise the output is 29 bytes from `0xFF` to `0x00`, with each zero of the salt and hash stored as `0x01`, so bytes 4 to 27 are never zero. |
| PasswordHash.EncodeFlagBytes | src/ovba/algorithms/password_hash.rs:97-138 | The three mask bytes carry the salt's nonzero-byte mask in the low nibble of byte 1 and the hash's 20-bit mask across the rest. |
| PasswordHash.EncodeDecode | src/ovba/algorithms/password_hash.rs:372-400 | Any 4-byte salt and 20-byte digest, zeros included, encode and decode back to themselves. |
| PasswordHash.DecodeEncode | src/ovba/algorithms/password_hash.rs:28-146 | The converse. A decodable structure whose kept (set-bit) salt and hash bytes are nonzero re-encodes to itself. |
| PasswordHash.EncodePasswordWithSalt | src/ovba/algorithms/password_hash.rs:165-171 | Hashing then encoding fails only on a salt that is not 4 bytes, with `SaltLength`. |
| PasswordHash.PasswordMatch | src/ovba/algorithms/password_hash.rs:195-201 | A structure that does not decode is reported with its decoding error. Otherwise the result is whether SHA-1 of the candidate followed by the restored salt equals the restored digest. |
| PasswordHash.EncodedPasswordMatches | src/ovba/algorithms/password_hash.rs:412-421 | A password encoded with any 4-byte salt decodes. A candidate matches it exactly when its salted digest equals the password's, so the password itself always matches. |
| PasswordHash.SaltNullVector | src/ovba/algorithms/password_hash.rs:265-284 | The test structure with mask byte `0xFD` fails `SaltNull` at position 1, carrying the salt unchanged. |
| Data.FromStr | src/ovba/algorithms.rs:16-42 | Fails `InvalidHex`, carrying the whole text, exactly when some byte is not a hex digit. Otherwise it yields `len / 2` bytes, each the value of its pair, so an odd last digit is dropped. |
| Data.Display | src/ovba/algorithms.rs:44-51 | Two upper-case hex digits per byte, with no separator. |
| Data.DisplayThenFromStr | src/ovba/algorithms.rs:16-51 | Reading the text `Display` writes gives back the bytes. |
| Data.FromStrIgnoresCase | src/ovba/algorithms.rs:26-37 | Lower-case and upper-case hex of the same bytes read to those same bytes. |
| Bytes.HexString | src/ovba/algorithms/data_encryption.rs:26-28 | Hex of `d` is `2 * len(d)` digits, and each pair reads back as its byte. |
| Radix.FromStrRadix | src/ovba/types.rs:20 | A success is within the target type's range. |
| Radix.ReadsDigits | src/ovba/types.rs:20 | A value within range, written in any width that holds it, is read back. |
| Radix.ReadsPlus | src/ovba/types.rs:20 | A leading `+` is accepted. |
| Radix.ReadsMinus | src/ovba/types.rs:20 | A leading `-` is accepted for a signed type. |
| Radix.RejectsOutOfRange | src/ovba/types.rs:20-25 | Digits of a value outside the type are rejected, not wrapped. |
| Radix.UnsignedRejectsMinus | src/ovba/types.rs:35 | A `-` is rejected for an unsigned type. |
| Radix.NonAsciiRejected | src/ovba/types.rs:20 | A byte above `0x7F` anywhere makes the text unreadable. |
| Radix.ValueOfDigits | src/ovba/types.rs:20 | The value of a number's digits is the number. |
| Radix.DigitsOfValue | src/ovba/types.rs:20 | Any digit text in either case is the upper-case writing of its value at its own width, so the value fixes the digits up to case. |
| Radix.Accepted | src/ovba/types.rs:20 | Every text `from_str_radix` accepts, lower-case hex included, is a sign the type allows followed by the digits of the value's magnitude. A minus appears only before a non-positive value of a signed type, and every negative value has one. |
| Utf8.AsciiValid | src/ovba/types.rs:14 | ASCII text passes the UTF-8 check. |
| Utf8.Rejected | src/ovba/types.rs:14-19 | A stray continuation byte, an overlong form and an encoded surrogate fail the UTF-8 check. |
| Types.FromHexBytes | src/ovba/types.rs:13-41 | A success is within the type's range. Every failure carries exactly the slice it was given. |
| Types.I32FromHexBytes | src/ovba/types.rs:13-26 | A success is an `i32`. A failure carries the slice. |
| Types.U128FromHexBytes | src/ovba/types.rs:28-41 | A success is a `u128`. A failure carries the slice. |
| Types.I32ReadsHex | src/ovba/types.rs:20 | Eight hex digits of a value up to `0x7FFFFFFF` read as that value. |
| Types.I32RejectsHighBit | src/ovba/types.rs:20-25 | Eight hex digits of a value from `0x80000000` are rejected with the slice, not wrapped to a negative number. |
| Types.I32AcceptsSign | src/ovba/types.rs:20 | A `+` or `-` before seven digits is read as a signed value. |
| Types.U128ReadsHex | src/ovba/types.rs:35 | Hex digits of a value in range read as that value. |
| Types.U128RejectsMinus | src/ovba/types.rs:35-40 | A leading `-` fails with the slice. |
| Types.NonAsciiRejected | src/ovba/types.rs:14-25 | A non-ASCII byte fails with the slice. |
| HexDigits.ParseHexPair | src/ovba/types/hexdigits.rs:9-33 | A pair is read exactly when the first two bytes are hex digits. Its value is `(hi << 4) \| lo`, two bytes are consumed, and a failure is at the input. |
| HexDigits.ParseIsExpected | src/ovba/types/hexdigits.rs:5-7 | The parser takes as many leading pairs as there are, up to `max / 2`. It fails at the first non-pair when there are fewer than `min / 2`. |
| HexDigits.ParseHexString | src/ovba/types/hexdigits.rs:43-53 | Hex of `d`, in either case, followed by a non-pair or with `d` at the maximum, reads back as `d` with the rest left. |
| HexDigits.ShortHexFails | src/ovba/types/hexdigits.rs:69-75 | Hex text shorter than `min / 2` pairs fails at its odd last digit, or at its end when there is none. |
| Guid.ParseLaidOut | src/ovba/types/guid.rs:10-44 | With the braces and hyphens in place, the first group that fails its hex check is the error. Otherwise the value is `g1<<96 \| g2<<80 \| g3<<64 \| g4<<48 \| g5` and the bytes after `}` are left. |
| Guid.GroupsCombine | src/ovba/types/guid.rs:20-39 | Every `u128` splits into five groups that fit 32, 16, 16, 16 and 48 bits and combine back into it. |
| Guid.ParseWritten | src/ovba/types/guid.rs:54-78 | Every `u128` written as a braced GUID reads back as itself, with what follows left. |
| Guid.MissingOpenBrace | src/ovba/types/guid.rs:80-90 | Input not starting with `{` fails at the input. |
| Guid.ShortFirstGroup | src/ovba/types/guid.rs:131-139 | A first group one digit short fails the hex check at eight bytes that take the hyphen in. |
| Guid.LongFirstGroup | src/ovba/types/guid.rs:161-168 | A first group one digit long fails the hyphen's tag at the extra digit. |
| Guid.ParseLength | src/ovba/types/guid.rs:10-44 | A GUID consumes exactly 38 bytes. |
| Guid.ParseNeedsDelimiters | src/ovba/types/guid.rs:80-195 | A GUID parses only with `{` at byte 0, hyphens at bytes 9, 14, 19 and 24, and `}` at byte 37. So a missing closing brace, a missing hyphen, or any group too short or too long is rejected. |
| HexInt32.ParseWritten | src/ovba/types/hex_int_32.rs:10-15 | `&H` and eight hex digits of a value up to `0x7FFFFFFF` read as that value, with the rest left. |
| HexInt32.HighBitRejected | src/ovba/types/hex_int_32.rs:13 | Eight digits of a value from `0x80000000` fail at the digits. |
| HexInt32.ParseShort | src/ovba/types/hex_int_32.rs:42-68 | Without `&H`, parsing fails at the input. With fewer than eight bytes after it, parsing fails after the prefix. |
| HexInt32.ParseLength | src/ovba/types/hex_int_32.rs:10-15 | A success consumes exactly 10 bytes. |
| Int32.ParseWritten | src/ovba/types/int_32.rs:11-43 | Every `i32`, written in decimal and followed by a non-digit, reads back as itself. |
| Int32.RejectsOutOfRange | src/ovba/types/int_32.rs:44-57 | Decimal text of a value outside `i32` fails at the start of the number. |
| Int32.RejectsNonDigit | src/ovba/types/int_32.rs:59-65 | A non-digit start fails at the input. A `-` with no digit after it fails after the sign. |
| Int32.ParseConsumes | src/ovba/types/int_32.rs:11-17 | A success consumes at least one byte. |
| ModuleIdentifier.ParseSpec | src/ovba/types/module_identifier.rs:11-22 | Parsing succeeds exactly on an alphabetic first byte. The result is the consumed prefix, a valid identifier of at most 31 bytes, stopping at the first byte that cannot continue it. A failure is at the input. |
| ModuleIdentifier.ParseWritten | src/ovba/types/module_identifier.rs:68-92 | An identifier of at most 31 bytes, followed by a byte that cannot continue it, reads back as itself. |
| NewLine.ParseSpec | src/ovba/types/new_line.rs:5-7 | A line break is read exactly on `\r\n` or `\n\r`. It yields `0x0A` and consumes two bytes. A failure is at the input. |
| NewLine.ParseWritten | src/ovba/types/new_line.rs:17-29 | Both break forms read as `0x0A`, with the rest left. |
| NewLine.BareLineFeedRejected | src/ovba/types/new_line.rs:31-44 | A `\n` not followed by `\r` is rejected. |
| Whitespace.ParseSpec | src/ovba/types/whitespace.rs:5-7 | Whitespace is read exactly on a space or tab. It yields that byte and consumes one byte. A failure is at the input. |
| QuotedCharacter.ParseSpec | src/ovba/types/quoted_character.rs:6-17 | A character is read exactly on `0x21`, a byte from `0x23`, a space, a tab, or a doubled quote. A single byte yields itself. `""` yields `"` and consumes two. A failure is at the input, so CR, LF, NUL and a lone `"` are rejected. |
| QuotedCharacter.ParseEscaped | src/ovba/types/quoted_character.rs:27-71 | Every text byte, escaped, reads back as itself. |
| QuotedCharacters.ParseWritten | src/ovba/types/quoted_characters.rs:4-42 | A string of `min` to `max` text bytes, quoted with `""` escapes, reads back as itself, with what follows the closing quote left. |
| QuotedCharacters.TooShort | src/ovba/types/quoted_characters.rs:44-50 | A string with fewer than `min` characters fails at its closing quote. |
| QuotedCharacters.TooLong | src/ovba/types/quoted_characters.rs:52-58 | A string with more than `max` characters fails the closing-quote tag at the first character past `max`. |
| Path.ParseWritten | src/ovba/types/path.rs:7-39 | A path of at most 259 text bytes, quoted, reads back as itself. |
| Path.TooLong | src/ovba/types/path.rs:85-99 | A path longer than 259 characters fails at the 260th, with the excess left in the error. |
| Nom.Tag | src/ovba/records/project.rs:218 | A tag is read exactly when the input starts with it, and the rest follows it. |
| Nom.TakeWhileMN | src/ovba/types/module_identifier.rs:14-15 | Succeeds exactly when at least `m` leading bytes satisfy the predicate. It takes the longest such run up to `n`. |
| Nom.Opt | src/ovba/records/project.rs:172-182 | An optional section never fails. It is absent, with the input untouched, when the inner parser fails. |
| Nom.Many0Chain | src/ovba/records/project.rs:394-403 | Records written back to back, followed by a non-record, are read as exactly that list. |
| Nom.SeparatedWritten | src/ovba/records/project.rs:265 | Items joined by a separator, followed by the separator and a non-item, are read as exactly those items, with the trailing separator left. |
| Nom.RepeatWritten | src/ovba/types/quoted_characters.rs:9 | Repetition reads back the written values, stopping at `max` or at the first non-value. |
| Fields.FlagByte | src/ovba/records/project.rs:323-325 | The flag byte of a protection state is at most 7. |
| Fields.ClassifyProtection | src/ovba/records/project.rs:314-330 | A state read has four bytes that are exactly the decrypted bytes. A length other than 4 fails `DataLength`. Otherwise a failure is `ReservedBits` with the bytes. |
| Fields.ProtectionRoundTrip | src/ovba/records/project.rs:318-330 | Every protection state's bytes classify back to it. |
| Fields.LockedIsBitTwo | src/ovba/records/project.rs:323-325 | A state is VBE-locked exactly when bit 2 of its first byte is set. |
| Fields.ProtectionEncrypted | src/ovba/records/project.rs:306-333 | A state encrypted with any seed and key decrypts and classifies back to itself. |
| Fields.NewNone | src/read.rs:157-162 | A one-byte password is `None` exactly when the byte is 0. Otherwise it fails `NotNull` with the byte. |
| Fields.NewPlain | src/read.rs:164-174 | A plain password is read exactly when the last byte is 0. Its text is every byte before it. Otherwise it fails `Terminator` with the last byte. |
| Fields.ClassifyPassword | src/ovba/records/project.rs:343-367 | No bytes fail `NoData`. A hash comes only from 29 bytes and is their password-hash decoding. Any 29 bytes that decode as a hash structure classify as that hash. |
| Fields.PasswordRoundTrip | src/ovba/records/project.rs:343-367 | Every password a field can carry classifies back from its bytes. |
| Fields.PasswordBytesRead | src/ovba/records/project.rs:343-367 | Every password read is one a field can carry. Unless it is a hash, its bytes are exactly the decrypted bytes. |
| Fields.HashedBytesRead | src/ovba/records/project.rs:352-355 | A hash read from 29 bytes whose kept salt and hash bytes are nonzero re-encodes to exactly those bytes. |
| Fields.PasswordErrors | src/ovba/records/project.rs:346-362 | A nonzero single byte fails `NotNull`. A 29-byte hash error is passed through. Any other length without a trailing 0 fails `Terminator`. |
| Fields.PasswordEncrypted | src/ovba/records/project.rs:335-370 | A carried password of at most 255 bytes, encrypted with any seed and key, reads back. |
| Fields.ClassifyVisibility | src/ovba/records/project.rs:380-390 | A visibility read is exactly the single decrypted byte (`0x00` not visible, `0xFF` visible). Otherwise it fails `DataLength` or `InvalidState`. |
| Fields.VisibilityRoundTrip | src/ovba/records/project.rs:384-389 | Each visibility's byte classifies back to it. |
| Fields.VisibilityEncrypted | src/ovba/records/project.rs:372-392 | A visibility encrypted with any seed and key reads back. |
| ProjectRecord.FromBytes | src/ovba/records/project.rs:126-128 | The stream is accepted exactly when the grammar parses it. The project is the parsed one, and trailing bytes are ignored. A failure carries the input where the grammar stopped and the whole buffer. |
| ProjectText.HexTextRead | src/ovba/types/hex_int_32.rs:10-15 | A non-negative `i32`, written as `&H` and eight digits, reads back. |
| ProjectText.GuidTextRead | src/ovba/types/guid.rs:10-44 | A `u128` written as a GUID reads back. |
| ProjectText.IdRead | src/ovba/records/project.rs:217-219 | An `ID="{...}"` line reads back its GUID. |
| ProjectText.ItemRead | src/ovba/records/project.rs:221-261 | Each kind of item (document with its version, standard, class and designer modules, and packages) reads back through the alternatives in order. |
| ProjectText.ItemRejected | src/ovba/records/project.rs:252-261 | Input whose first byte starts no item tag is not an item. |
| ProjectText.ItemsRead | src/ovba/records/project.rs:263-268 | Any list of items, each followed by a line break, reads back. An empty list is a lone line break. |
| ProjectText.HelpFileRead | src/ovba/records/project.rs:270-272 | A `HelpFile=` line reads back its path. |
| ProjectText.ExeNameRead | src/ovba/records/project.rs:274-276 | An `ExeName32=` line reads back its path. |
| ProjectText.NameLineRead | src/ovba/records/project.rs:278-284 | A `Name=` line of 1 to 128 characters reads back. |
| ProjectText.HelpIdRead | src/ovba/records/project.rs:286-292 | A `HelpContextID=` line reads back any `i32`. |
| ProjectText.DescriptionRead | src/ovba/records/project.rs:294-300 | A `Description=` line of up to 2000 characters reads back. |
| ProjectText.EncryptedRead | src/ovba/records/project.rs:306-312 | An encrypted field within its hex bounds reads back its bytes. |
| ProjectText.ProtectionLineRead | src/ovba/records/project.rs:306-333 | A CMG line of 22 to 28 digits reads as the state its bytes decrypt to, and otherwise fails at the line's start. |
| ProjectText.PasswordLineRead | src/ovba/records/project.rs:335-370 | A DPB line of 16 to 2000 digits reads as the password its bytes decrypt to, and otherwise fails at the line's start. |
| ProjectText.VisibilityLineRead | src/ovba/records/project.rs:372-392 | A GC line of 16 to 22 digits reads as the visibility its bytes decrypt to, and otherwise fails at the line's start. |
| ProjectText.LibRead | src/ovba/records/project.rs:423-427 | A library name of bytes above `0x20` other than `;` reads back up to the next other byte. |
| ProjectText.RefRead | src/ovba/records/project.rs:405-420 | A host extender reference line reads back its index, GUID, library and flags. |
| ProjectText.HostExtendersRead | src/ovba/records/project.rs:394-403 | The `[Host Extender Info]` section reads back its references, stopping at the first non-reference. |
| ProjectText.DimRead | src/ovba/records/project.rs:465-467 | A window dimension and its `, ` read back. |
| ProjectText.StateRead | src/ovba/records/project.rs:469-476 | `C`, `Z` and `I` read as closed, zoomed and minimized. |
| ProjectText.WindowRead | src/ovba/records/project.rs:452-463 | A window's four dimensions and state read back. |
| ProjectText.DesignerRead | src/ovba/records/project.rs:441 | The optional designer window after `, ` reads back, or is absent before the line break. |
| ProjectText.RecordRead | src/ovba/records/project.rs:436-450 | A workspace record line reads back its module, code window and optional designer window. |
| ProjectText.WorkspaceRead | src/ovba/records/project.rs:429-434 | The `[Workspace]` section reads back its records. |
| ProjectStream.ProjectLaidOut | src/ovba/records/project.rs:167-214 | When the sections parse in the grammar's order, the project is assembled from them and the last section's rest is left. |
| ProjectStream.StreamRead | src/ovba/records/project.rs:167-214 | A stream written from a well-formed project parses back as that project. This holds with every optional section present or absent and with any inert trailing bytes. |
| ProjectStream.StreamRoundTrip | src/ovba/records/project.rs:120-131 | Such a stream is accepted and yields the project. |
| ProjectStream.StreamLocked | src/ovba/records/project.rs:133-135 | The accepted project is locked exactly when bit 2 of the CMG plaintext's first byte is set. |
| ProjectStream.ProjectFailsAtCmg | src/ovba/records/project.rs:167-214 | When the sections up to CMG parse but CMG does not, the whole parse fails where CMG failed. |
| ProjectStream.StreamRejectsCmg | src/ovba/records/project.rs:306-333 | A stream whose CMG bytes do not decrypt to a protection state is rejected, with the error at the CMG line. |
| ProjectStream.EncodedWireFor | src/ovba/algorithms/data_encryption.rs:80-116 | Encrypting the protection state, a carried password of at most 255 bytes and the visibility, with any seeds and keys, gives fields the grammar reads back as those values. |
| FieldReaders.TrimStartStep | src/read.rs:89 | Trimming starts by dropping one leading copy of the tag. |
| FieldReaders.TrimStartRemovesCopies | src/read.rs:89 | The start-trimmed text does not start with the tag, and the input is some number of copies of the tag followed by it. |
| FieldReaders.TrimStartOfCopies | src/read.rs:138 | Any number of copies of the tag before text not starting with it are all removed. |
| FieldReaders.TrimEndMatches | src/read.rs:233 | The end-trimmed text is a prefix of the input that does not end in a quote, and everything removed is quotes. |
| FieldReaders.TrimEndOfFill | src/read.rs:89 | Any number of quotes after text not ending in one are all removed. |
| FieldReaders.FieldLineHex | src/read.rs:89 | The hex text of a written CMG, DPB or GC line is exactly the hex of its bytes. |
| FieldReaders.HexThenDecodeMeets | src/read.rs:90 | Reading hex pairs and then decrypting decodes the hex of any buffer, in either case, as that buffer. |
| FieldReaders.ProtectionFromStrMeaning | src/read.rs:85-108 | A state is read exactly when the text decrypts to four bytes with byte 0 at most 7 and bytes 1 to 3 zero, and those bytes are the state's. A decryption error is passed on, and a wrong length fails `DataLength`. |
| FieldReaders.PasswordFromStrMeaning | src/read.rs:134-174 | A password read is one a field can carry. Unless it is a hash, its bytes are the decrypted bytes. A decryption error is passed on, and no bytes fail `NoData`. |
| FieldReaders.VisibilityFromStrMeaning | src/read.rs:229-245 | A visibility is read exactly when the text decrypts to a single `0x00` or `0xFF`, which is its byte. A decryption error is passed on, and any other single byte fails `InvalidState`. |
| FieldReaders.ProtectionReadersAgree | src/read.rs:85-108 | On a written CMG line, the line reader and the grammar give the same state or both fail. |
| FieldReaders.PasswordReadersAgree | src/read.rs:134-150 | On a written DPB line, the line reader and the grammar give the same password or both fail. |
| FieldReaders.VisibilityReadersAgree | src/read.rs:229-245 | On a written GC line, the line reader and the grammar give the same visibility or both fail. |
| FieldReaders.ProtectionLineRoundTrip | src/read.rs:85-108 | A state encrypted with any seed and key, written as a CMG line in either case of hex, is read back. |
| FieldReaders.PasswordLineRoundTrip | src/read.rs:134-174 | A carried password of at most 255 bytes, encrypted and written as a DPB line, is read back. |
| FieldReaders.VisibilityLineRoundTrip | src/read.rs:229-245 | A visibility encrypted and written as a GC line is read back. |
| Unlock.LineLength | src/remove.rs:12 | The first line runs up to and including the first `\n`, or to the end when there is none. |
| Unlock.FirstLine | src/remove.rs:12 | A line ending in `\n`, or the last one, is read whole from the front of any input. |
| Unlock.RewriteLineCases | src/remove.rs:13-27 | A line beginning `ID="{`, `CMG="` or `DPB="` is replaced by the matching unlocked line. So is one beginning `GC="` with a fifth byte. Every other line, short lines included, is copied unchanged with its terminator. |
| Unlock.RewriteAppend | src/remove.rs:12-31 | Rewriting distributes over a split at a line boundary. |
| Unlock.RewriteKeeps | src/remove.rs:26 | A stream with no ID, CMG, DPB or GC line is copied unchanged. |
| Unlock.RewriteLineStable | src/remove.rs:13-27 | When the unlocked lines are themselves lines of their own kind, rewriting a line keeps it a line and is idempotent. |
| Unlock.RewriteIdempotent | src/remove.rs:6-32 | With such unlocked lines, unlocking an unlocked stream changes nothing. |
| Unlock.MapLinesStep | src/remove.rs:12-28 | Rewriting from a line's start is that line's result followed by the rewrite of the rest. |
| Unlock.ReadUntil | src/remove.rs:12 | Reading from a position stops after the first `\n` or at the end, and never before consuming a byte. |
| Unlock.RewriteLines | src/remove.rs:9-31 | The loop that reads line by line and appends each line's result produces the line-wise rewrite of the whole input. |
| Unlock.UnlockedProject | src/remove.rs:6-32 | `unlocked_project` produces the line-wise rewrite of the stream, in order. |

## Left out

- File and container I/O are not modelled: `Project::from_stream`'s `read_to_end`, `xl_97`, `xl`, `zip_to_raw_vba` and `print_info` (src/read.rs:14-71). The stream reaching `unlocked_project` through `read_until` is modelled as a byte sequence.
- The command line in src/main.rs is not modelled. It is argument parsing and file-extension dispatch only.
- SHA-1 is a parameter (`Digest`), not an implementation, so `generate_hash` is the parameter applied to the password followed by the salt.
- `crack_password` (src/read.rs:176-190) is not modelled. It scans a wordlist file with SHA-1.
- `encode_password` (src/ovba/algorithms/password_hash.rs:175-179) is not modelled, because it draws a random salt. `encode_password_with_salt` is modelled for every salt.
- `password_match_hash` has no row of its own. It is the predicate `PasswordMatchHash`. `PasswordMatch` states the boolean it yields on any decodable structure: the candidate's salted digest equals the restored digest. `EncodedPasswordMatches` states it on an encoding.
- The body of `data_encryption::decode_str` is not part of this model. It is the parameter `decodeStr`; the round trips need only `DecodesHexOf`, and `HexThenDecode` shows a decryptor that meets it.
- The values of `UNLOCKED_ID`, `UNLOCKED_CMG`, `UNLOCKED_DPB` and `UNLOCKED_GC` are not part of this model. They are the parameter `u`.
- UTF-8 results as `String`: the UTF-8 validity checks that can fail are modelled (`Utf8.Valid` in the library-name parser, project.rs:425, and in the hex-integer reader, types.rs:14). Not modelled: parse results stay bytes instead of `String`; the `from_utf8(...).unwrap()` in the quoted-string parser, whose panic on non-UTF-8 quoted text the model does not reproduce; and the `from_utf8_lossy` replacement of invalid bytes in plain passwords. The conversions in the identifier and decimal parsers see only ASCII, so they cannot fail.
- `ProjectRecord.FromBytes` does not model which nom `ErrorKind` is reported. A failure carries only the input where it happened.
- The `Display` texts of the errors, the protection state, the password and the visibility are not modelled. `is_hash` is the datatype test `Hashed?`.
- The writers (`Encode`, `Stream`, `FieldLine`, the `*Text` and `*Line` functions of `ProjectText`) are defined so the round trips have something to read. Of the encrypted-field writers, the program uses only `data_encryption::encode` and `password_hash::encode`. It also writes hex text through `Data`'s `Display` (`Data.Display`) and rewrites lines in remove.rs (`Unlock.RewriteLine`).
- The integration tests under tests/ are not modelled. They read binary fixture files.
- ProjectStream.StreamRead: stated for streams written with upper-case hex and `\r\n` line breaks, and with trailing bytes that cannot start another section. Streams with `\n\r` breaks or lower-case hex are parsed by the same functions but have no whole-stream round-trip lemma.
- Unlock.RewriteIdempotent: holds only for unlocked lines that are themselves single lines of their own kind (`SelfUnlocking`), because the constants are parameters.
