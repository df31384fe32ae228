/**
 * Ciphertext framing and the symmetric-encryption wrappers of the browser
 * and web-worker clients.  An encrypted payload travels as one byte
 * string: one byte holding the IV length, the IV, then the ciphertext.
 *
 * AES-GCM itself is a foreign call: it is the `Cipher` parameter, a pair of
 * functions of (key, iv, data).  The random IV is an input of the length
 * the parameters ask for.
 */
module Crypto {
  import opened Types

  /** An AES-GCM result: the initialisation vector and the ciphertext. */
  datatype EncryptedBytes = EncryptedBytes(iv: Bytes, bytes: Bytes)

  /** The lengths the clients draw at random; the PBKDF2 and AES parameters belong to the foreign cipher. */
  datatype CryptoParams = CryptoParams(saltLength: nat, ivLength: nat)

  /** The web worker's CRYPTO_PARAMS and the browser's default parameters. */
  const CRYPTO_PARAMS := CryptoParams(16, 12)

  /** The foreign cipher, keyed by `K`: `encrypt(key, iv, data)` and `decrypt(key, iv, data)`. */
  datatype Cipher<!K> = Cipher(encrypt: (K, Bytes, Bytes) -> Bytes, decrypt: (K, Bytes, Bytes) -> Bytes)

  /** A cipher whose decryption undoes its encryption under the same key and IV. */
  ghost predicate Inverts<K(!new)>(c: Cipher<K>)
  {
    forall key, iv, data :: c.decrypt(key, iv, c.encrypt(key, iv, data)) == data
  }

  // ---------------------------------------------------------------------
  // Framing

  /** The framed byte string: the IV length stored in one byte (mod 256, as a byte array stores it), the IV, the ciphertext. */
  function Frame(enc: EncryptedBytes): (r: Bytes)
    ensures |r| == 1 + |enc.iv| + |enc.bytes|
  {
    [(|enc.iv| % 256) as byte] + enc.iv + enc.bytes
  }

  /** A position clamped to a length, as `slice` clamps its arguments. */
  function Clamp(i: nat, len: nat): (r: nat)
    ensures r <= len && (i <= len ==> r == i)
  {
    if i <= len then i else len
  }

  /** `Uint8Array.prototype.slice(start, end)` for non-negative arguments: out-of-range ends are clamped, never an error. */
  function Slice(s: Bytes, start: nat, end: nat): (r: Bytes)
    ensures start <= end <= |s| ==> r == s[start..end]
    ensures start <= |s| < end ==> r == s[start..]
    ensures |s| < start || end < start ==> r == []
    ensures |r| <= |s|
  {
    var a := Clamp(start, |s|);
    var b := Clamp(end, |s|);
    if a <= b then s[a..b] else []
  }

  /**
   * decodeEncryptedBytes: the IV length from byte 0, the IV from the next
   * that many bytes, the ciphertext from the rest.  An empty input has no
   * byte 0: the IV length is then not a number, both slices are empty.
   */
  function DecodeEncryptedBytes(encoded: Bytes): (r: EncryptedBytes)
    ensures |encoded| == 0 ==> r == EncryptedBytes([], [])
    ensures |encoded| > 0 ==> r.iv + r.bytes == encoded[1..]
    ensures |encoded| > 0 ==> |r.iv| == Clamp(encoded[0] as nat, |encoded| - 1)
  {
    if |encoded| == 0 then EncryptedBytes([], [])
    else
      var ivLength := encoded[0] as nat;
      EncryptedBytes(Slice(encoded, 1, 1 + ivLength), Slice(encoded, 1 + ivLength, |encoded|))
  }

  /**
   * encodeEncryptedBytes: a fresh array of `1 + iv.length + bytes.length`
   * bytes, filled with the IV length at 0, the IV from 1 and the
   * ciphertext after it.
   */
  method EncodeEncryptedBytes(enc: EncryptedBytes) returns (encoded: array<byte>)
    ensures fresh(encoded)
    ensures encoded[..] == Frame(enc)
  {
    var ivLength := |enc.iv|;
    encoded := new byte[1 + ivLength + |enc.bytes|](_ => 0);
    encoded[0] := (ivLength % 256) as byte;
    for k := 0 to ivLength
      invariant encoded[0] == (ivLength % 256) as byte
      invariant encoded[1..1 + k] == enc.iv[..k]
    {
      encoded[1 + k] := enc.iv[k];
    }
    for k := 0 to |enc.bytes|
      invariant encoded[0] == (ivLength % 256) as byte
      invariant encoded[1..1 + ivLength] == enc.iv
      invariant encoded[1 + ivLength..1 + ivLength + k] == enc.bytes[..k]
    {
      encoded[1 + ivLength + k] := enc.bytes[k];
    }
    assert enc.bytes[..|enc.bytes|] == enc.bytes;
    assert encoded[..][1 + ivLength..] == encoded[1 + ivLength..1 + ivLength + |enc.bytes|];
    assert encoded[..][1..1 + ivLength] == encoded[1..1 + ivLength];
    FrameParts(enc, encoded[..]);
  }

  /** A byte string with the frame's three parts in place is the frame. */
  lemma FrameParts(enc: EncryptedBytes, s: Bytes)
    requires |s| == 1 + |enc.iv| + |enc.bytes|
    requires s[0] == (|enc.iv| % 256) as byte
    requires s[1..1 + |enc.iv|] == enc.iv && s[1 + |enc.iv|..] == enc.bytes
    ensures s == Frame(enc)
  {
    assert s == [s[0]] + s[1..1 + |enc.iv|] + s[1 + |enc.iv|..];
  }

  /** Decoding undoes encoding exactly when the IV length fits in the length byte. */
  lemma {:induction false} DecodeFrame(enc: EncryptedBytes)
    ensures DecodeEncryptedBytes(Frame(enc)) == enc <==> |enc.iv| <= 255
  {
    var f := Frame(enc);
    var n := |enc.iv| % 256;
    assert f[0] as nat == n;
    assert f[1..] == enc.iv + enc.bytes;
    if |enc.iv| <= 255 {
      assert f[1..1 + |enc.iv|] == enc.iv;
      assert f[1 + |enc.iv|..] == enc.bytes;
    } else {
      assert |DecodeEncryptedBytes(f).iv| == n < |enc.iv|;
    }
  }

  /** For any non-empty input, what decoding splits off is the input after its first byte, in order. */
  lemma {:induction false} DecodeSplits(encoded: Bytes)
    ensures |encoded| > 0 ==>
              var d := DecodeEncryptedBytes(encoded);
              d.iv == encoded[1..1 + |d.iv|] && d.bytes == encoded[1 + |d.iv|..]
  {
    if |encoded| > 0 {
      var d := DecodeEncryptedBytes(encoded);
      assert d.iv + d.bytes == encoded[1..];
      assert (d.iv + d.bytes)[..|d.iv|] == d.iv;
    }
  }

  // ---------------------------------------------------------------------
  // The web worker's encryptBytes / decryptBytes (framed)

  /**
   * encryptBytes: encrypts under a fresh IV of `params.ivLength` bytes and
   * frames IV and ciphertext.
   */
  method EncryptBytes<K>(params: CryptoParams, cipher: Cipher<K>, key: K, iv: Bytes, bytes: Bytes)
    returns (encoded: array<byte>)
    requires |iv| == params.ivLength
    ensures fresh(encoded)
    ensures encoded[..] == Frame(EncryptedBytes(iv, cipher.encrypt(key, iv, bytes)))
  {
    var encrypted := cipher.encrypt(key, iv, bytes);
    encoded := EncodeEncryptedBytes(EncryptedBytes(iv, encrypted));
  }

  /**
   * decryptBytes: decrypts the ciphertext under the IV that decoding splits
   * off: the `k` bytes after the length byte, `k` being that byte clamped to
   * what follows it, and the rest.
   */
  function DecryptBytes<K>(cipher: Cipher<K>, key: K, encrypted: Bytes): (r: Bytes)
    ensures |encrypted| == 0 ==> r == cipher.decrypt(key, [], [])
    ensures |encrypted| > 0 ==>
              var k := Clamp(encrypted[0] as nat, |encrypted| - 1);
              r == cipher.decrypt(key, encrypted[1..1 + k], encrypted[1 + k..])
  {
    var decoded := DecodeEncryptedBytes(encrypted);
    DecodeSplits(encrypted);
    cipher.decrypt(key, decoded.iv, decoded.bytes)
  }

  /** An encrypted output starts with the IV length and the IV: with CRYPTO_PARAMS, byte 12 and twelve IV bytes. */
  lemma {:induction false} EncryptedLayout<K>(params: CryptoParams, cipher: Cipher<K>, key: K, iv: Bytes, bytes: Bytes)
    requires |iv| == params.ivLength <= 255
    ensures var f := Frame(EncryptedBytes(iv, cipher.encrypt(key, iv, bytes)));
            f[0] as nat == params.ivLength && f[1..1 + params.ivLength] == iv &&
            f[1 + params.ivLength..] == cipher.encrypt(key, iv, bytes)
  {
    var f := Frame(EncryptedBytes(iv, cipher.encrypt(key, iv, bytes)));
    assert f[1..] == iv + cipher.encrypt(key, iv, bytes);
    assert f[1..1 + |iv|] == (iv + cipher.encrypt(key, iv, bytes))[..|iv|];
  }

  /** What `encryptBytes` frames, `decryptBytes` decrypts back, whenever the cipher inverts and the IV fits the length byte. */
  lemma {:induction false} DecryptEncrypted<K(!new)>(params: CryptoParams, cipher: Cipher<K>, key: K, iv: Bytes, bytes: Bytes)
    requires Inverts(cipher) && |iv| == params.ivLength <= 255
    ensures DecryptBytes(cipher, key, Frame(EncryptedBytes(iv, cipher.encrypt(key, iv, bytes)))) == bytes
  {
    DecodeFrame(EncryptedBytes(iv, cipher.encrypt(key, iv, bytes)));
  }

  // ---------------------------------------------------------------------
  // The browser's encryptBytes / decryptBytes (unframed)

  /** The browser's encryptBytes: the IV and the ciphertext, left unframed. */
  function BrowserEncryptBytes<K>(params: CryptoParams, cipher: Cipher<K>, key: K, iv: Bytes, bytes: Bytes): (r: EncryptedBytes)
    requires |iv| == params.ivLength
    ensures r.iv == iv && |r.iv| == params.ivLength
  {
    EncryptedBytes(iv, cipher.encrypt(key, iv, bytes))
  }

  /** The browser's decryptBytes: decrypts the ciphertext under the IV it travels with. */
  function BrowserDecryptBytes<K>(cipher: Cipher<K>, key: K, encrypted: EncryptedBytes): Bytes
  {
    cipher.decrypt(key, encrypted.iv, encrypted.bytes)
  }

  lemma BrowserDecryptEncrypted<K(!new)>(params: CryptoParams, cipher: Cipher<K>, key: K, iv: Bytes, bytes: Bytes)
    requires Inverts(cipher) && |iv| == params.ivLength
    ensures BrowserDecryptBytes(cipher, key, BrowserEncryptBytes(params, cipher, key, iv, bytes)) == bytes
  {
  }
}
