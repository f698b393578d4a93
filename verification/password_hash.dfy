/** The 29-byte password hash structure of [MS-OVBA] section 2.3.1.16
    (PasswordHash): a reserved 0xFF, three bytes of null flags, a 4-byte salt,
    a 20-byte SHA-1 digest and a null terminator. Salt and digest bytes that
    are zero are stored as 0x01 with their flag bit cleared.

    The flag bytes are combined with shifts and ORs of fields that never
    overlap, so the model writes them as the equal arithmetic: `x >> 1` is
    `x / 2`, `x & 1 == 0` is `x % 2 == 0`, and an OR of disjoint fields is
    their sum. */
module PasswordHash {
  import opened Bytes

  const ENCODED_LENGTH: nat := 29
  const SALT_LENGTH: nat := 4
  const HASH_LENGTH: nat := 20

  type Hash = h: Bytes | |h| == HASH_LENGTH witness seq(20, i => 0)

  /** `error::PasswordHash`. */
  datatype HashError =
    | Length(length: nat)
    | Reserved(reserved: byte)
    | Terminator(terminator: byte)
    | SaltNull(salt: Bytes, index: nat)
    | HashNull(hash: Bytes, index: nat)

  /** `error::PasswordHashEncode`. */
  datatype EncodeError = SaltLength(length: nat)

  /** The low `n` bits of `m`, least significant first: the sequence of
      `m & 1` tests a loop sees when it shifts `m` right after each one. */
  function Bits(m: nat, n: nat): (r: seq<bool>)
    ensures |r| == n
  {
    if n == 0 then [] else [m % 2 == 1] + Bits(m / 2, n - 1)
  }

  /** Every byte whose flag is clear holds the 0x01 placeholder. */
  predicate Marked(raw: Bytes, flags: seq<bool>)
    requires |raw| == |flags|
  {
    forall i :: 0 <= i < |raw| ==> !flags[i] ==> raw[i] == 0x01
  }

  /** The bytes with every flag-cleared position replaced by zero. */
  function Nulled(raw: Bytes, flags: seq<bool>): (r: Bytes)
    requires |raw| == |flags|
    ensures |r| == |raw|
    ensures forall i :: 0 <= i < |raw| ==> r[i] == if flags[i] then raw[i] else 0
  {
    seq(|raw|, i requires 0 <= i < |raw| => if flags[i] then raw[i] else 0)
  }

  /** The null-restoring loop: walking the bytes in order, it tests the low
      bit of the mask, and where that bit is clear requires the 0x01
      placeholder and writes 0; then it shifts the mask right. An error
      carries the array as it stands (earlier placeholders already nulled)
      and the failing position. */
  function Restore(bytes: Bytes, mask: nat): (r: Result<Bytes, (Bytes, nat)>)
    ensures r.Ok? ==> |r.value| == |bytes|
    ensures r.Err? ==> r.error.1 < |bytes| && |r.error.0| == |bytes|
  {
    if |bytes| == 0 then Ok(bytes)
    else if mask % 2 == 0 && bytes[0] != 0x01 then Err((bytes, 0))
    else
      var head: byte := if mask % 2 == 0 then 0 else bytes[0];
      match Restore(bytes[1..], mask / 2)
      case Ok(tail) => Ok([head] + tail)
      case Err(e) => Err(([head] + e.0, e.1 + 1))
  }

  lemma BitsCons(m: nat, n: nat)
    requires n > 0
    ensures Bits(m, n) == [m % 2 == 1] + Bits(m / 2, n - 1)
  {
  }

  /** The restoring loop succeeds exactly when every flag-cleared byte holds
      the placeholder. */
  lemma {:induction false} RestoreOkIff(bytes: Bytes, mask: nat)
    ensures Restore(bytes, mask).Ok? <==> Marked(bytes, Bits(mask, |bytes|))
  {
    if |bytes| > 0 {
      BitsCons(mask, |bytes|);
      MarkedCons(bytes, Bits(mask, |bytes|));
      RestoreOkIff(bytes[1..], mask / 2);
    }
  }

  /** On success the loop returns the bytes with the flag-cleared positions
      nulled and every other byte unchanged. */
  lemma {:induction false} RestoreOkValue(bytes: Bytes, mask: nat)
    requires Restore(bytes, mask).Ok?
    ensures Restore(bytes, mask).value == Nulled(bytes, Bits(mask, |bytes|))
  {
    if |bytes| > 0 {
      var flags := Bits(mask, |bytes|);
      BitsCons(mask, |bytes|);
      var tail := Restore(bytes[1..], mask / 2);
      assert tail.Ok?;
      RestoreOkValue(bytes[1..], mask / 2);
      NulledCons(bytes, flags);
      assert Restore(bytes, mask).value == [if flags[0] then bytes[0] else 0] + tail.value;
    }
  }

  /** On failure the loop stops at the first flag-cleared byte that is not
      the placeholder, and the array it reports has the placeholders before
      that position already nulled and the rest untouched. */
  lemma {:induction false} RestoreErr(bytes: Bytes, mask: nat)
    requires Restore(bytes, mask).Err?
    ensures var flags := Bits(mask, |bytes|);
      var k := Restore(bytes, mask).error.1;
      && !flags[k] && bytes[k] != 0x01
      && Marked(bytes[..k], flags[..k])
      && Restore(bytes, mask).error.0 == Nulled(bytes[..k], flags[..k]) + bytes[k..]
  {
    var flags := Bits(mask, |bytes|);
    BitsCons(mask, |bytes|);
    if mask % 2 == 0 && bytes[0] != 0x01 {
      assert bytes[..0] + bytes[0..] == bytes;
    } else {
      RestoreErr(bytes[1..], mask / 2);
      var k := Restore(bytes[1..], mask / 2).error.1;
      RestoreErrStep(bytes, flags, k);
    }
  }

  lemma RestoreErrStep(bytes: Bytes, flags: seq<bool>, k: nat)
    requires |bytes| == |flags| && k + 1 < |bytes|
    requires flags[0] || bytes[0] == 0x01
    requires Marked(bytes[1..][..k], flags[1..][..k])
    ensures Marked(bytes[..k + 1], flags[..k + 1])
    ensures [if flags[0] then bytes[0] else 0] + (Nulled(bytes[1..][..k], flags[1..][..k]) + bytes[1..][k..])
         == Nulled(bytes[..k + 1], flags[..k + 1]) + bytes[k + 1..]
  {
    assert bytes[..k + 1][1..] == bytes[1..][..k];
    assert flags[..k + 1][1..] == flags[1..][..k];
    MarkedCons(bytes[..k + 1], flags[..k + 1]);
    NulledCons(bytes[..k + 1], flags[..k + 1]);
    assert bytes[k + 1..] == bytes[1..][k..];
  }

  lemma MarkedCons(raw: Bytes, flags: seq<bool>)
    requires |raw| == |flags| > 0
    ensures Marked(raw, flags) <==> (flags[0] || raw[0] == 0x01) && Marked(raw[1..], flags[1..])
  {
    if (flags[0] || raw[0] == 0x01) && Marked(raw[1..], flags[1..]) {
      forall i | 0 <= i < |raw| && !flags[i]
        ensures raw[i] == 0x01
      {
        if i > 0 {
          assert raw[i] == raw[1..][i - 1] && flags[i] == flags[1..][i - 1];
        }
      }
    }
  }

  lemma NulledCons(raw: Bytes, flags: seq<bool>)
    requires |raw| == |flags| > 0
    ensures Nulled(raw, flags) == [if flags[0] then raw[0] else 0] + Nulled(raw[1..], flags[1..])
  {
  }

  /** 2 to the power n. */
  function Pow2(n: nat): (r: nat)
    ensures r >= 1
  {
    if n == 0 then 1 else 2 * Pow2(n - 1)
  }

  /** The nonzero-ness of each byte: the flag the encoder sets for it. */
  function NonZero(v: Bytes): (r: seq<bool>)
    ensures |r| == |v|
    ensures forall i :: 0 <= i < |v| ==> r[i] == (v[i] != 0)
  {
    seq(|v|, i requires 0 <= i < |v| => v[i] != 0)
  }

  /** The flag word the encoder's loop builds: walking the bytes from the last
      to the first, it shifts the word left and sets the low bit for a
      nonzero byte, so bit i ends up flagging byte i. */
  function MaskOf(v: Bytes): (m: nat)
    ensures m < Pow2(|v|)
  {
    if |v| == 0 then 0 else (if v[0] != 0 then 1 else 0) + 2 * MaskOf(v[1..])
  }

  /** The stored form of salt or digest bytes: each zero byte becomes the
      0x01 placeholder. */
  function Placeholders(v: Bytes): (r: Bytes)
    ensures |r| == |v|
    ensures forall i :: 0 <= i < |v| ==> r[i] == if v[i] == 0 then 0x01 else v[i]
  {
    seq(|v|, i requires 0 <= i < |v| => if v[i] == 0 then 0x01 else v[i])
  }

  /** The flag word of the salt: the first flag byte, read a bit at a time. */
  function SaltMask(data: Bytes): nat
    requires |data| == ENCODED_LENGTH
  {
    data[1] as int
  }

  /** The flag word of the digest: `data[1] >> 4 | data[2] << 4 | data[3] << 12`,
      three fields that do not overlap. */
  function HashMask(data: Bytes): (m: nat)
    requires |data| == ENCODED_LENGTH
    ensures m < Pow2(HASH_LENGTH)
  {
    Pow2Values();
    data[1] as int / 16 + data[2] as int * 16 + data[3] as int * 4096
  }

  function SaltFlags(data: Bytes): (r: seq<bool>)
    requires |data| == ENCODED_LENGTH
    ensures |r| == SALT_LENGTH
  {
    Bits(SaltMask(data), SALT_LENGTH)
  }

  function HashFlags(data: Bytes): (r: seq<bool>)
    requires |data| == ENCODED_LENGTH
    ensures |r| == HASH_LENGTH
  {
    Bits(HashMask(data), HASH_LENGTH)
  }

  lemma Pow2Values()
    ensures Pow2(4) == 16 && Pow2(8) == 256 && Pow2(12) == 4096 && Pow2(20) == 0x10_0000
    ensures Pow2(24) == 0x100_0000
  {
    assert Pow2(4) == 16;
    assert Pow2(8) == 256;
    assert Pow2(12) == 4096;
    assert Pow2(16) == 0x1_0000;
    assert Pow2(20) == 0x10_0000;
  }

  /** `decode`: checks the length (29), the reserved first byte (0xFF) and the
      terminator (0x00), then restores the nulls of the salt and then of the
      digest. */
  function Decode(data: Bytes): (r: Result<(Bytes, Hash), HashError>)
    ensures |data| != ENCODED_LENGTH ==> r == Err(Length(|data|))
    ensures |data| == ENCODED_LENGTH && data[0] != 0xFF ==> r == Err(Reserved(data[0]))
    ensures |data| == ENCODED_LENGTH && data[0] == 0xFF && data[28] != 0x00 ==> r == Err(Terminator(data[28]))
    ensures r.Ok? ==> |data| == ENCODED_LENGTH && data[0] == 0xFF && data[28] == 0x00
  {
    if |data| != ENCODED_LENGTH then Err(Length(|data|))
    else if data[0] != 0xFF then Err(Reserved(data[0]))
    else if data[28] != 0x00 then Err(Terminator(data[28]))
    else
      match Restore(data[4..8], SaltMask(data))
      case Err(e) => Err(SaltNull(e.0, e.1))
      case Ok(salt) =>
        match Restore(data[8..28], HashMask(data))
        case Err(e) => Err(HashNull(e.0, e.1))
        case Ok(hash) => Ok((salt, hash))
  }

  /** A well-framed structure decodes exactly when every flag-cleared salt and
      digest byte holds the placeholder. */
  lemma DecodeOkIff(data: Bytes)
    requires |data| == ENCODED_LENGTH && data[0] == 0xFF && data[28] == 0x00
    ensures Decode(data).Ok? <==>
      Marked(data[4..8], SaltFlags(data)) && Marked(data[8..28], HashFlags(data))
  {
    RestoreOkIff(data[4..8], SaltMask(data));
    RestoreOkIff(data[8..28], HashMask(data));
  }

  /** The decoded salt and digest are the stored bytes with the flagged
      placeholders nulled. */
  lemma DecodeOkValue(data: Bytes)
    requires Decode(data).Ok?
    ensures Decode(data).value.0 == Nulled(data[4..8], SaltFlags(data))
    ensures Decode(data).value.1 == Nulled(data[8..28], HashFlags(data))
  {
    RestoreOkValue(data[4..8], SaltMask(data));
    RestoreOkValue(data[8..28], HashMask(data));
  }

  /** Which error a well-framed structure with bad placeholders gets: a
      badly marked salt is a salt error, and a good salt with a badly marked
      digest is a digest error. */
  lemma DecodeNullErrors(data: Bytes)
    requires |data| == ENCODED_LENGTH && data[0] == 0xFF && data[28] == 0x00
    ensures !Marked(data[4..8], SaltFlags(data)) ==> Decode(data).Err? && Decode(data).error.SaltNull?
    ensures Marked(data[4..8], SaltFlags(data)) && !Marked(data[8..28], HashFlags(data))
      ==> Decode(data).Err? && Decode(data).error.HashNull?
  {
    RestoreOkIff(data[4..8], SaltMask(data));
    RestoreOkIff(data[8..28], HashMask(data));
  }

  /** A salt error names the first flag-cleared salt byte that is not the
      placeholder, with the salt as it stood at that moment. */
  lemma DecodeSaltNull(data: Bytes)
    requires Decode(data).Err? && Decode(data).error.SaltNull?
    ensures |data| == ENCODED_LENGTH
    ensures var salt, flags, k := data[4..8], SaltFlags(data), Decode(data).error.index;
      && k < SALT_LENGTH && !flags[k] && salt[k] != 0x01
      && Marked(salt[..k], flags[..k])
      && Decode(data).error.salt == Nulled(salt[..k], flags[..k]) + salt[k..]
  {
    var r := Restore(data[4..8], SaltMask(data));
    assert r.Err? && Decode(data) == Err(SaltNull(r.error.0, r.error.1));
    RestoreErr(data[4..8], SaltMask(data));
  }

  /** A digest error comes after a good salt and names the first
      flag-cleared digest byte that is not the placeholder. */
  lemma DecodeHashNull(data: Bytes)
    requires Decode(data).Err? && Decode(data).error.HashNull?
    ensures |data| == ENCODED_LENGTH
    ensures Marked(data[4..8], SaltFlags(data))
    ensures var hash, flags, k := data[8..28], HashFlags(data), Decode(data).error.index;
      && k < HASH_LENGTH && !flags[k] && hash[k] != 0x01
      && Marked(hash[..k], flags[..k])
      && Decode(data).error.hash == Nulled(hash[..k], flags[..k]) + hash[k..]
  {
    RestoreOkIff(data[4..8], SaltMask(data));
    var r := Restore(data[8..28], HashMask(data));
    assert Restore(data[4..8], SaltMask(data)).Ok?;
    assert r.Err? && Decode(data) == Err(HashNull(r.error.0, r.error.1));
    RestoreErr(data[8..28], HashMask(data));
  }

  /** `encode`: rejects a salt that is not 4 bytes; otherwise writes 0xFF,
      the flag bytes (digest flags 0-3 above the 4 salt flags, then digest
      flags 4-11, then 12-19), the salt and digest with zeros replaced by the
      placeholder, and the terminator. */
  function Encode(salt: Bytes, hash: Hash): (r: Result<Bytes, EncodeError>)
    ensures r.Err? <==> |salt| != SALT_LENGTH
    ensures r.Err? ==> r.error == SaltLength(|salt|)
    ensures r.Ok? ==> |r.value| == ENCODED_LENGTH && r.value[0] == 0xFF && r.value[28] == 0x00
    ensures r.Ok? ==> r.value[4..8] == Placeholders(salt) && r.value[8..28] == Placeholders(hash)
  {
    if |salt| != SALT_LENGTH then Err(SaltLength(|salt|))
    else
      Pow2Values();
      var grbitKey := MaskOf(salt);
      var grbitHashNull := MaskOf(hash);
      var b1 := ByteOf((grbitHashNull % 16) * 16 + grbitKey);
      var b2 := ByteOf((grbitHashNull / 16) % 256);
      var b3 := ByteOf((grbitHashNull / 4096) % 256);
      var out := [0xFF, b1, b2, b3] + Placeholders(salt) + Placeholders(hash) + [0x00];
      assert out[4..8] == Placeholders(salt);
      assert out[8..28] == Placeholders(hash);
      Ok(out)
  }

  /** Reading the flags of a word built by the encoder's loop gives back the
      nonzero-ness of each byte, whatever lies above the low |v| bits. */
  lemma {:induction false} MaskBits(v: Bytes, high: nat)
    ensures Bits(MaskOf(v) + Pow2(|v|) * high, |v|) == NonZero(v)
  {
    if |v| > 0 {
      var m := MaskOf(v) + Pow2(|v|) * high;
      var b := if v[0] != 0 then 1 else 0;
      HalfStep(m, b, MaskOf(v[1..]), Pow2(|v| - 1), high);
      MaskBits(v[1..], high);
      BitsCons(m, |v|);
      assert NonZero(v) == [v[0] != 0] + NonZero(v[1..]);
    }
  }

  lemma HalfStep(m: nat, b: nat, x: nat, p: nat, h: nat)
    requires b < 2 && m == b + 2 * x + (2 * p) * h
    ensures m % 2 == b && m / 2 == x + p * h
  {
    assert (2 * p) * h == 2 * (p * h);
  }

  lemma DoubleStep(m: nat, x: nat, p: nat, h: nat)
    requires m / 2 == x + p * h
    ensures m == m % 2 + 2 * x + (2 * p) * h
  {
    assert (2 * p) * h == 2 * (p * h);
  }

  /** `m` shifted right by `n` bits. */
  function Shr(m: nat, n: nat): nat
  {
    if n == 0 then m else Shr(m / 2, n - 1)
  }

  /** Conversely, bytes whose nonzero-ness matches the low bits of a word
      rebuild exactly those bits. */
  lemma {:induction false} BitsMask(v: Bytes, m: nat)
    requires NonZero(v) == Bits(m, |v|)
    ensures m == MaskOf(v) + Pow2(|v|) * Shr(m, |v|)
  {
    if |v| > 0 {
      BitsCons(m, |v|);
      assert NonZero(v[1..]) == NonZero(v)[1..];
      BitsMask(v[1..], m / 2);
      DoubleStep(m, MaskOf(v[1..]), Pow2(|v| - 1), Shr(m / 2, |v| - 1));
    }
  }

  /** The flag byte arithmetic of `encode` and `decode` agree: the digest
      word split over three bytes is put back together, and the salt flags
      are the low nibble of the first byte. */
  lemma FlagBytes(ghn: nat, gk: nat)
    requires ghn < 0x10_0000 && gk < 16
    ensures ((ghn % 16) * 16 + gk) / 16 + ((ghn / 16) % 256) * 16 + ((ghn / 4096) % 256) * 4096 == ghn
    ensures ((ghn % 16) * 16 + gk) % 16 == gk
    ensures ((ghn % 16) * 16 + gk) / 16 == ghn % 16
  {
    var a := ghn % 16;
    var q := ghn / 16;
    var b := q % 256;
    var c := q / 256;
    assert ghn == a + 16 * q;
    assert q == b + 256 * c;
    assert ghn / 4096 == c;
    assert c < 256;
    assert (a * 16 + gk) / 16 == a;
  }

  /** Placeholders are marked under the encoder's own flags, and nulling them
      gives the bytes back. */
  lemma PlaceholdersNulled(v: Bytes)
    ensures Marked(Placeholders(v), NonZero(v))
    ensures Nulled(Placeholders(v), NonZero(v)) == v
  {
  }

  /** The flag bytes `encode` writes, as numbers. */
  lemma EncodeFlagBytes(salt: Bytes, hash: Hash)
    requires |salt| == SALT_LENGTH
    ensures var data := Encode(salt, hash).value;
      var gk := MaskOf(salt);
      var ghn := MaskOf(hash);
      && data[1] as int == (ghn % 16) * 16 + gk
      && data[2] as int == (ghn / 16) % 256
      && data[3] as int == (ghn / 4096) % 256
  {
  }

  /** Any structure laid out as `encode` lays it out decodes to the salt and
      digest it was built from. */
  lemma DecodeLaidOut(data: Bytes, salt: Bytes, hash: Hash)
    requires |salt| == SALT_LENGTH
    requires |data| == ENCODED_LENGTH && data[0] == 0xFF && data[28] == 0x00
    requires data[4..8] == Placeholders(salt) && data[8..28] == Placeholders(hash)
    requires SaltMask(data) == MaskOf(salt) + Pow2(|salt|) * (MaskOf(hash) % 16)
    requires HashMask(data) == MaskOf(hash) + Pow2(|hash|) * 0
    ensures Decode(data) == Ok((salt, hash))
  {
    MaskBits(salt, MaskOf(hash) % 16);
    MaskBits(hash, 0);
    assert SaltFlags(data) == NonZero(salt);
    assert HashFlags(data) == NonZero(hash);
    PlaceholdersNulled(salt);
    PlaceholdersNulled(hash);
    DecodeMarked(data);
  }

  /** `DecodeOkIff` and `DecodeOkValue` together, for a structure whose
      flag-cleared bytes are known to hold the placeholder. */
  lemma DecodeMarked(data: Bytes)
    requires |data| == ENCODED_LENGTH && data[0] == 0xFF && data[28] == 0x00
    requires Marked(data[4..8], SaltFlags(data)) && Marked(data[8..28], HashFlags(data))
    ensures Decode(data) == Ok((Nulled(data[4..8], SaltFlags(data)), Nulled(data[8..28], HashFlags(data))))
  {
    DecodeOkIff(data);
    DecodeOkValue(data);
  }

  /** The flag bytes, read as the salt and digest words `decode` assembles,
      are the bytes `encode` computes from those words. */
  lemma FlagWords(b1: nat, b2: nat, b3: nat, gk: nat, ghn: nat, hs: nat, hh: nat)
    requires b1 < 256 && b2 < 256 && b3 < 256 && gk < 16 && ghn < 0x10_0000
    requires b1 == gk + 16 * hs
    requires b1 / 16 + b2 * 16 + b3 * 4096 == ghn + 0x10_0000 * hh
    ensures b1 == (ghn % 16) * 16 + gk
    ensures b2 == (ghn / 16) % 256
    ensures b3 == (ghn / 4096) % 256
  {
    assert hh == 0;
    assert b1 % 16 == gk && b1 / 16 == hs;
    assert ghn % 16 == hs;
    assert ghn / 16 == b2 + b3 * 256;
    assert ghn / 4096 == b3;
  }

  /** The round trip of the module's tests: any 4-byte salt and 20-byte
      digest, zeros included, survive `encode` then `decode`. */
  lemma EncodeDecode(salt: Bytes, hash: Hash)
    requires |salt| == SALT_LENGTH
    ensures Encode(salt, hash).Ok?
    ensures Decode(Encode(salt, hash).value) == Ok((salt, hash))
  {
    Pow2Values();
    var data := Encode(salt, hash).value;
    EncodeFlagBytes(salt, hash);
    FlagBytes(MaskOf(hash), MaskOf(salt));
    DecodeLaidOut(data, salt, hash);
  }

  /** `encode` writes exactly the structure whose flag bytes and stored bytes
      match the salt and digest. */
  lemma EncodeLaidOut(data: Bytes, salt: Bytes, hash: Hash)
    requires |salt| == SALT_LENGTH
    requires |data| == ENCODED_LENGTH && data[0] == 0xFF && data[28] == 0x00
    requires data[4..8] == Placeholders(salt) && data[8..28] == Placeholders(hash)
    requires data[1] as int == (MaskOf(hash) % 16) * 16 + MaskOf(salt)
    requires data[2] as int == (MaskOf(hash) / 16) % 256
    requires data[3] as int == (MaskOf(hash) / 4096) % 256
    ensures Encode(salt, hash) == Ok(data)
  {
    EncodeFlagBytes(salt, hash);
    var out := Encode(salt, hash).value;
    SameByte(out[1], data[1]);
    SameByte(out[2], data[2]);
    SameByte(out[3], data[3]);
    forall i | 0 <= i < ENCODED_LENGTH
      ensures out[i] == data[i]
    {
      if 4 <= i < 8 {
        assert out[i] == out[4..8][i - 4] && data[i] == data[4..8][i - 4];
      } else if 8 <= i < 28 {
        assert out[i] == out[8..28][i - 8] && data[i] == data[8..28][i - 8];
      }
    }
    assert out == data;
  }

  /** Flagged bytes are the ones the encoder stores as they are: nonzero. */
  predicate Encodable(raw: Bytes, flags: seq<bool>)
    requires |raw| == |flags|
  {
    forall i :: 0 <= i < |raw| ==> flags[i] ==> raw[i] != 0
  }

  /** Nulling marked, encodable bytes gives bytes whose own flags and
      placeholders are the ones nulled. */
  lemma NulledPlaceholders(raw: Bytes, flags: seq<bool>)
    requires |raw| == |flags| && Marked(raw, flags) && Encodable(raw, flags)
    ensures NonZero(Nulled(raw, flags)) == flags
    ensures Placeholders(Nulled(raw, flags)) == raw
  {
  }

  /** A structure whose stored bytes and flag bits describe the salt and
      digest is what `encode` writes for them. */
  lemma FlagsLaidOut(data: Bytes, salt: Bytes, hash: Hash)
    requires |salt| == SALT_LENGTH
    requires |data| == ENCODED_LENGTH && data[0] == 0xFF && data[28] == 0x00
    requires data[4..8] == Placeholders(salt) && data[8..28] == Placeholders(hash)
    requires NonZero(salt) == Bits(SaltMask(data), SALT_LENGTH)
    requires NonZero(hash) == Bits(HashMask(data), HASH_LENGTH)
    ensures Encode(salt, hash) == Ok(data)
  {
    Pow2Values();
    BitsMask(salt, SaltMask(data));
    BitsMask(hash, HashMask(data));
    assert Pow2(|salt|) == 16 && Pow2(|hash|) == 0x10_0000;
    FlagWords(data[1] as int, data[2] as int, data[3] as int, MaskOf(salt), MaskOf(hash),
              Shr(SaltMask(data), 4), Shr(HashMask(data), 20));
    EncodeLaidOut(data, salt, hash);
  }

  /** A decoded structure whose flagged salt and digest bytes are all
      nonzero (the only form the encoder writes) is re-encoded byte for
      byte. */
  lemma DecodeEncode(data: Bytes)
    requires Decode(data).Ok?
    requires Encodable(data[4..8], SaltFlags(data)) && Encodable(data[8..28], HashFlags(data))
    ensures Encode(Decode(data).value.0, Decode(data).value.1) == Ok(data)
  {
    DecodeOkIff(data);
    DecodeOkValue(data);
    NulledPlaceholders(data[4..8], SaltFlags(data));
    NulledPlaceholders(data[8..28], HashFlags(data));
    FlagsLaidOut(data, Decode(data).value.0, Decode(data).value.1);
  }

  /** SHA-1 is not modelled: it is a parameter, any total function from
      bytes to a 20-byte digest. A password is its UTF-8 bytes. */
  type Digest = Bytes -> Hash

  /** `generate_hash`: the digest of the password bytes followed by the salt. */
  function GenerateHash(sha1: Digest, password: Bytes, salt: Bytes): Hash
  {
    sha1(password + salt)
  }

  /** `encode_password_with_salt`: hash, then encode. */
  function EncodePasswordWithSalt(sha1: Digest, password: Bytes, salt: Bytes): (r: Result<Bytes, EncodeError>)
    ensures r.Err? <==> |salt| != SALT_LENGTH
    ensures r.Err? ==> r.error == SaltLength(|salt|)
  {
    Encode(salt, GenerateHash(sha1, password, salt))
  }

  /** `password_match_hash`: the candidate password, salted, has the stored
      digest. */
  predicate PasswordMatchHash(sha1: Digest, test: Bytes, salt: Bytes, hash: Hash)
  {
    GenerateHash(sha1, test, salt) == hash
  }

  /** `password_match`: decode, then compare; a structure that does not
      decode is reported with the decoding error. */
  function PasswordMatch(sha1: Digest, test: Bytes, encoded: Bytes): (r: Result<bool, HashError>)
    ensures r.Err? <==> Decode(encoded).Err?
    ensures r.Err? ==> r.error == Decode(encoded).error
    ensures r.Ok? ==> r.value == (sha1(test + Nulled(encoded[4..8], SaltFlags(encoded)))
                                  == Nulled(encoded[8..28], HashFlags(encoded)))
  {
    match Decode(encoded)
    case Err(e) => Err(e)
    case Ok(pair) =>
      DecodeOkValue(encoded);
      Ok(PasswordMatchHash(sha1, test, pair.0, pair.1))
  }

  /** A password encoded with any 4-byte salt matches its own encoding, and
      a candidate matches it exactly when its salted digest is the one the
      password produced. */
  lemma EncodedPasswordMatches(sha1: Digest, password: Bytes, test: Bytes, salt: Bytes)
    requires |salt| == SALT_LENGTH
    ensures EncodePasswordWithSalt(sha1, password, salt).Ok?
    ensures PasswordMatch(sha1, test, EncodePasswordWithSalt(sha1, password, salt).value)
         == Ok(sha1(test + salt) == sha1(password + salt))
  {
    EncodeDecode(salt, GenerateHash(sha1, password, salt));
  }

  /** The salt and digest of the module's tests. */
  const TEST_SALT: Bytes := [0x12, 0x34, 0x56, 0x78]
  const TEST_HASH: Bytes := [0x11, 0x22, 0x33, 0x44, 0x55, 0x66, 0x77, 0x88, 0x99, 0xaa,
                             0xbb, 0xcc, 0xdd, 0xee, 0xff, 0x11, 0x22, 0x33, 0x44, 0x55]

  /** The test structure with the given flag bytes. */
  function TestStructure(g1: byte, g2: byte, g3: byte): (data: Bytes)
    ensures |data| == ENCODED_LENGTH
  {
    [0xFF, g1, g2, g3] + TEST_SALT + TEST_HASH + [0x00]
  }

  /** Salt flag 1 cleared over the salt byte 0x34: the decoder reports that
      position and the salt untouched. */
  lemma SaltNullVector()
    ensures Decode(TestStructure(0xFD, 0xFF, 0xFF)) == Err(SaltNull(TEST_SALT, 1))
  {
    var data := TestStructure(0xFD, 0xFF, 0xFF);
    assert data[4..8] == TEST_SALT;
    assert SaltMask(data) == 0xFD;
    assert TEST_SALT[1..] == [0x34, 0x56, 0x78];
    assert Restore([0x34, 0x56, 0x78], 0x7E) == Err(([0x34, 0x56, 0x78], 0));
    assert Restore(TEST_SALT, 0xFD) == Err(([0x12] + [0x34, 0x56, 0x78], 1));
    assert [0x12] + [0x34, 0x56, 0x78] == TEST_SALT;
  }
}
