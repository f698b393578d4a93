/** The reversible running-key XOR cipher of [MS-OVBA] section 2.4.3 that
    protects the CMG, DPB and GC fields of the PROJECT stream.

    An encrypted buffer is `seed, version ^ seed, key ^ seed` followed by the
    encryption of: 0-3 ignored filler bytes, a 4-byte length field, the payload.
    Each byte is XORed with `enc_prev2 + plain_prev1` (wrapping `u8` addition),
    the state starting at (plain_prev1, enc_prev1, enc_prev2) =
    (key, key ^ seed, version ^ seed). */
module DataEncryption {
  import opened Bytes

  /** `error::DataEncryption`. `InvalidHex` is produced by the hex front end
      of the line-level readers, never by `Decode` itself. */
  datatype CipherError =
    | InvalidHex(text: Bytes)
    | TooShort(hex: Bytes)
    | Version(version: byte)
    | LengthMismatch(actual: bv32, declared: bv32)

  const VERSION: byte := 2

  /** Largest `u32`, reported when the payload length does not fit in one. */
  const U32_MAX: nat := 0xFFFF_FFFF

  /** Number of filler bytes before the length field: bits 1-2 of the seed. */
  function IgnoredLength(seed: byte): (n: nat)
    ensures n <= 3
  {
    ((seed & 6) >> 1) as int
  }

  /** One cipher step: the byte XORed with `enc_prev2 + plain_prev1`
      (wrapping). The same step encrypts and decrypts. */
  function Mix(b: byte, plainPrev1: byte, encPrev2: byte): byte
  {
    b ^ (encPrev2 + plainPrev1)
  }

  lemma MixTwice(b: byte, plainPrev1: byte, encPrev2: byte)
    ensures Mix(Mix(b, plainPrev1, encPrev2), plainPrev1, encPrev2) == b
  {
  }

  /** Decrypts a run of bytes from the given cipher state. */
  function Decrypt(enc: Bytes, plainPrev1: byte, encPrev1: byte, encPrev2: byte): (r: Bytes)
    ensures |r| == |enc|
  {
    if |enc| == 0 then []
    else
      var plain := Mix(enc[0], plainPrev1, encPrev2);
      [plain] + Decrypt(enc[1..], plain, enc[0], encPrev1)
  }

  /** Encrypts a run of bytes from the given cipher state. */
  function Encrypt(plain: Bytes, plainPrev1: byte, encPrev1: byte, encPrev2: byte): (r: Bytes)
    ensures |r| == |plain|
  {
    if |plain| == 0 then []
    else
      var enc := Mix(plain[0], plainPrev1, encPrev2);
      [enc] + Encrypt(plain[1..], plain[0], enc, encPrev1)
  }

  lemma DecryptStep(c: byte, tail: Bytes, p1: byte, e1: byte, e2: byte)
    ensures Decrypt([c] + tail, p1, e1, e2)
         == [Mix(c, p1, e2)] + Decrypt(tail, Mix(c, p1, e2), c, e1)
  {
    assert ([c] + tail)[1..] == tail;
  }

  lemma EncryptStep(b: byte, tail: Bytes, p1: byte, e1: byte, e2: byte)
    ensures Encrypt([b] + tail, p1, e1, e2)
         == [Mix(b, p1, e2)] + Encrypt(tail, b, Mix(b, p1, e2), e1)
  {
    assert ([b] + tail)[1..] == tail;
  }

  /** Decryption undoes encryption from any common starting state. */
  lemma {:induction false} DecryptEncrypt(plain: Bytes, p1: byte, e1: byte, e2: byte)
    ensures Decrypt(Encrypt(plain, p1, e1, e2), p1, e1, e2) == plain
    decreases |plain|
  {
    if |plain| > 0 {
      var b := plain[0];
      var c := Mix(b, p1, e2);
      assert plain == [b] + plain[1..];
      EncryptStep(b, plain[1..], p1, e1, e2);
      MixTwice(b, p1, e2);
      DecryptStep(c, Encrypt(plain[1..], b, c, e1), p1, e1, e2);
      DecryptEncrypt(plain[1..], b, c, e1);
    }
  }

  /** Encryption undoes decryption from any common starting state. */
  lemma {:induction false} EncryptDecrypt(enc: Bytes, p1: byte, e1: byte, e2: byte)
    ensures Encrypt(Decrypt(enc, p1, e1, e2), p1, e1, e2) == enc
    decreases |enc|
  {
    if |enc| > 0 {
      var c := enc[0];
      var b := Mix(c, p1, e2);
      assert enc == [c] + enc[1..];
      DecryptStep(c, enc[1..], p1, e1, e2);
      MixTwice(c, p1, e2);
      EncryptStep(b, Decrypt(enc[1..], b, c, e1), p1, e1, e2);
      EncryptDecrypt(enc[1..], b, c, e1);
    }
  }

  /** Length-field byte `k` (0-3) as a `u32`, or 0 when the decrypted stream
      ends before it. */
  function LengthByte(plain: Bytes, ignored: nat, k: nat): bv32
  {
    if ignored + k < |plain| then plain[ignored + k] as bv32 else 0
  }

  /** The declared payload length, accumulated as the source does it:
      `length |= byte << (4 * k)` for the k-th length byte, so each byte is
      shifted by a nibble, not by a whole byte. */
  function DeclaredLength(plain: Bytes, ignored: nat): bv32
  {
    LengthByte(plain, ignored, 0)
    | (LengthByte(plain, ignored, 1) << 4)
    | (LengthByte(plain, ignored, 2) << 8)
    | (LengthByte(plain, ignored, 3) << 12)
  }

  /** `(n as u32).to_le_bytes()`: the low 32 bits of n, least significant
      byte first. */
  function LeBytes(n: nat): (r: Bytes)
    ensures |r| == 4
  {
    [(n % 0x100) as byte, ((n / 0x100) % 0x100) as byte,
     ((n / 0x1_0000) % 0x100) as byte, ((n / 0x100_0000) % 0x100) as byte]
  }

  /** Four little-endian bytes as a `u32`. */
  function LeWord(b: Bytes): bv32
    requires |b| == 4
  {
    (b[0] as bv32) | ((b[1] as bv32) << 8) | ((b[2] as bv32) << 16) | ((b[3] as bv32) << 24)
  }

  /** Four length bytes as the decoder combines them: shifted by 4 bits per
      byte instead of 8. */
  function NibbleRead(b: Bytes): bv32
    requires |b| == 4
  {
    (b[0] as bv32) | ((b[1] as bv32) << 4) | ((b[2] as bv32) << 8) | ((b[3] as bv32) << 12)
  }

  /** The payload length truncated to `u32` (`data.len() as u32`). */
  function LengthAsU32(n: nat): bv32
  {
    LeWord(LeBytes(n))
  }

  /** The bytes after the filler and the length field (none when the stream
      ends inside them). */
  function Payload(plain: Bytes, ignored: nat): (r: Bytes)
    ensures |r| == if ignored + 4 <= |plain| then |plain| - ignored - 4 else 0
    ensures ignored + 4 <= |plain| ==> plain == plain[..ignored + 4] + r
  {
    if ignored + 4 <= |plain| then plain[ignored + 4..] else []
  }

  /** The decrypted stream after the three header bytes. */
  function Plaintext(enc: Bytes): (r: Bytes)
    requires |enc| >= 3
    ensures |r| == |enc| - 3
  {
    Decrypt(enc[3..], enc[0] ^ enc[2], enc[2], enc[1])
  }

  /** `decode`: rejects inputs under 8 bytes (carrying them as lower-case hex),
      a version other than 2, and a payload whose length differs from the
      declared one. Filler and length bytes never reach the output. */
  function Decode(enc: Bytes): (r: Result<Bytes, CipherError>)
    ensures |enc| < 8 ==> r == Err(TooShort(HexString(enc, false)))
    ensures |enc| >= 8 && enc[0] ^ enc[1] != VERSION ==> r == Err(Version(enc[0] ^ enc[1]))
    ensures r.Ok? ==> |enc| >= 8 && enc[0] ^ enc[1] == VERSION
    ensures r.Ok? ==> |r.value| <= |enc| - 7
    ensures |enc| >= 8 && r.Ok? ==> r.value == Payload(Plaintext(enc), IgnoredLength(enc[0]))
    ensures |enc| >= 8 && r.Ok? ==> LengthAsU32(|r.value|) == DeclaredLength(Plaintext(enc), IgnoredLength(enc[0]))
    ensures r.Err? && r.error.LengthMismatch? && |enc| <= U32_MAX ==> r.error.actual != r.error.declared
    ensures |enc| >= 8 && enc[0] ^ enc[1] == VERSION ==>
      var data := Payload(Plaintext(enc), IgnoredLength(enc[0]));
      var declared := DeclaredLength(Plaintext(enc), IgnoredLength(enc[0]));
      (r.Ok? <==> |data| <= U32_MAX && LengthAsU32(|data|) == declared)
      && (r.Err? ==> r.error.LengthMismatch? && r.error.declared == declared
                     && r.error.actual == (if |data| > U32_MAX then 0xFFFF_FFFF else LengthAsU32(|data|)))
  {
    if |enc| < 8 then Err(TooShort(HexString(enc, false)))
    else
      var seed := enc[0];
      var versionEnc := enc[1];
      var keyEnc := enc[2];
      var version := seed ^ versionEnc;
      if version != VERSION then Err(Version(version))
      else
        var ignored := IgnoredLength(seed);
        var plain := Plaintext(enc);
        var length := DeclaredLength(plain, ignored);
        var data := Payload(plain, ignored);
        if |data| > U32_MAX then Err(LengthMismatch(0xFFFF_FFFF, length))
        else
          var dataLen := LengthAsU32(|data|);
          if dataLen != length then Err(LengthMismatch(dataLen, length))
          else Ok(data)
  }

  /** The deterministic filler written in place of the ignored bytes:
      `(i * 0x0f) ^ 0xa9` for position i. */
  function Filler(n: nat): (r: Bytes)
    requires n <= 3
    ensures |r| == n
  {
    seq(n, i requires 0 <= i < n => ((i as byte) * 0x0F) ^ 0xA9)
  }

  /** The plaintext stream that `Encode` encrypts: filler, length, payload. */
  function EncodedPlain(seed: byte, data: Bytes): (r: Bytes)
    ensures |r| == IgnoredLength(seed) + 4 + |data|
  {
    Filler(IgnoredLength(seed)) + LeBytes(|data|) + data
  }

  /** `encode`: header `[seed, seed ^ 2, seed ^ key]`, then the encrypted
      filler, little-endian `u32` length and payload. */
  function Encode(seed: byte, key: byte, data: Bytes): (r: Bytes)
    ensures |r| == 3 + IgnoredLength(seed) + 4 + |data|
    ensures r[0] == seed && r[0] ^ r[1] == VERSION && r[0] ^ r[2] == key
    ensures Decrypt(r[3..], key, r[2], r[1]) == EncodedPlain(seed, data)
  {
    var versionEnc := seed ^ VERSION;
    var keyEnc := seed ^ key;
    var body := Encrypt(EncodedPlain(seed, data), key, keyEnc, versionEnc);
    DecryptEncrypt(EncodedPlain(seed, data), key, keyEnc, versionEnc);
    assert ([seed, versionEnc, keyEnc] + body)[3..] == body;
    [seed, versionEnc, keyEnc] + body
  }

  /** The nibble-shifted reading agrees with the little-endian value exactly
      when the three upper bytes are zero. */
  lemma NibbleReadAgrees(b: Bytes)
    requires |b| == 4
    ensures NibbleRead(b) == LeWord(b) <==> b[1] == 0 && b[2] == 0 && b[3] == 0
  {
  }

  lemma SmallLengthBytes(n: nat)
    requires n <= 255
    ensures LeBytes(n)[1] == 0 && LeBytes(n)[2] == 0 && LeBytes(n)[3] == 0
  {
  }

  /** A length below 256 is its own low byte. */
  lemma SmallLengthValue(n: nat)
    requires n <= 255
    ensures LengthAsU32(n) == (n as byte) as bv32
  {
    SmallLengthBytes(n);
    assert LeBytes(n)[0] == n as byte;
  }

  lemma LargeLengthBytes(n: nat)
    requires 256 <= n <= U32_MAX
    ensures !(LeBytes(n)[1] == 0 && LeBytes(n)[2] == 0 && LeBytes(n)[3] == 0)
  {
  }

  /** The decrypted stream of an encoding has the length field at the filler's
      end and the payload after it. */
  lemma EncodeLayout(seed: byte, key: byte, d: Bytes)
    ensures var e := Encode(seed, key, d);
      var plain := Plaintext(e);
      Payload(plain, IgnoredLength(seed)) == d
      && DeclaredLength(plain, IgnoredLength(seed)) == NibbleRead(LeBytes(|d|))
  {
    var e := Encode(seed, key, d);
    var ignored := IgnoredLength(seed);
    var plain := EncodedPlain(seed, d);
    assert Plaintext(e) == plain;
    assert plain[ignored + 4..] == d;
    var le := LeBytes(|d|);
    assert forall k :: 0 <= k < 4 ==> plain[ignored + k] == le[k];
  }

  /** The round trip of the module's own test: `decode(encode(seed, key, d))`
      gives `d` back for every seed and key whenever the payload has 1 to 255
      bytes, or is empty and the seed asks for filler (otherwise the encoding
      has only 7 bytes). */
  lemma RoundTrip(seed: byte, key: byte, d: Bytes)
    requires |d| <= 255
    requires |d| > 0 || IgnoredLength(seed) > 0
    ensures Decode(Encode(seed, key, d)) == Ok(d)
  {
    EncodeLayout(seed, key, d);
    SmallLengthBytes(|d|);
    NibbleReadAgrees(LeBytes(|d|));
  }

  /** An empty payload with no filler encodes to 7 bytes, which `decode`
      rejects as too short. */
  lemma EmptyWithoutFillerTooShort(seed: byte, key: byte)
    requires IgnoredLength(seed) == 0
    ensures Decode(Encode(seed, key, [])).Err?
    ensures Decode(Encode(seed, key, [])).error.TooShort?
  {
  }

  /** Payloads from 256 bytes up fail the round trip with a length mismatch,
      because `encode` writes the length with 8-bit shifts and `decode` reads
      it with 4-bit ones. */
  lemma RoundTripFailsFrom256(seed: byte, key: byte, d: Bytes)
    requires 256 <= |d| <= U32_MAX
    ensures Decode(Encode(seed, key, d)).Err?
    ensures Decode(Encode(seed, key, d)).error.LengthMismatch?
    ensures Decode(Encode(seed, key, d)).error.actual == LengthAsU32(|d|)
    ensures Decode(Encode(seed, key, d)).error.declared == NibbleRead(LeBytes(|d|))
    ensures Decode(Encode(seed, key, d)).error.declared != LengthAsU32(|d|)
  {
    EncodeLayout(seed, key, d);
    LargeLengthBytes(|d|);
    NibbleReadAgrees(LeBytes(|d|));
  }

  /** Test vector: two bytes are too short, and the error spells them in
      lower-case hex. */
  lemma DecodeTooShortVector()
    ensures Decode([0x7e, 0x2f]) == Err(TooShort([0x37, 0x65, 0x32, 0x66]))  // "7e2f"
  {
    var enc: Bytes := [0x7e, 0x2f];
    LowerHexVector();
    assert Decode(enc) == Err(TooShort(HexString(enc, false)));
  }

  lemma LowerHexVector()
    ensures HexString([0x7e, 0x2f], false) == [0x37, 0x65, 0x32, 0x66]
  {
    var d: Bytes := [0x7e, 0x2f];
    assert d[1..] == [0x2f] && d[1..][1..] == [];
    assert HexString(d, false) == HexPair(0x7e, false) + HexPair(0x2f, false);
    assert HexPair(0x7e, false) == [HexDigit(7, false), HexDigit(0xe, false)];
    assert HexPair(0x2f, false) == [HexDigit(2, false), HexDigit(0xf, false)];
  }

  /** Test vector: a version byte pair that does not XOR to 2. */
  lemma DecodeVersionVector()
    ensures Decode([0x01, 0x23, 0x45, 0x67, 0x89, 0xab, 0xcd, 0xef]) == Err(Version(0x22))
  {
  }

  /** Test vector: a two-byte payload against a declared length of 15. */
  lemma DecodeLengthMismatchVector()
    ensures Decode([0x11, 0x13, 0xeb, 0x02, 0xfa, 0x02, 0xfa, 0x6d, 0x27]) == Err(LengthMismatch(2, 15))
  {
    var enc: Bytes := [0x11, 0x13, 0xeb, 0x02, 0xfa, 0x02, 0xfa, 0x6d, 0x27];
    PlaintextVector();
    var plain: Bytes := [0x0f, 0x00, 0x00, 0x00, 0x6f, 0x4e];
    assert Plaintext(enc) == plain;
    assert IgnoredLength(enc[0]) == 0;
    assert DeclaredLength(plain, 0) == 15;
    assert |Payload(plain, 0)| == 2;
    SmallLengthValue(2);
  }

  lemma PlaintextVector()
    ensures Plaintext([0x11, 0x13, 0xeb, 0x02, 0xfa, 0x02, 0xfa, 0x6d, 0x27])
         == [0x0f, 0x00, 0x00, 0x00, 0x6f, 0x4e]
  {
    var c: Bytes := [0x02, 0xfa, 0x02, 0xfa, 0x6d, 0x27];
    assert Decrypt(c[5..], 0x6f, 0x6d, 0xfa) == [0x4e];
    assert Decrypt(c[4..], 0x00, 0xfa, 0x02) == [0x6f, 0x4e];
    assert Decrypt(c[3..], 0x00, 0x02, 0xfa) == [0x00, 0x6f, 0x4e];
    assert Decrypt(c[2..], 0x00, 0xfa, 0x02) == [0x00, 0x00, 0x6f, 0x4e];
    assert Decrypt(c[1..], 0x0f, 0x02, 0xeb) == [0x00, 0x00, 0x00, 0x6f, 0x4e];
    assert Decrypt(c, 0xfa, 0xeb, 0x13) == [0x0f, 0x00, 0x00, 0x00, 0x6f, 0x4e];
  }
}
