/**
 * The library code the archiver calls but does not implement: compress/flate
 * (DEFLATE, RFC 1951), crypto/aes with crypto/cipher's GCM mode (NIST SP
 * 800-38D, sections 7.1 and 7.2) and golang.org/x/crypto/scrypt (RFC 7914).
 *
 * Each library is a record of function values, so the model is written for
 * ANY implementation of it. What the archiver relies on about a library is a
 * predicate on the record (Lossless, Correct, Sized), and the lemmas that
 * need that property require it. `Reference` shows the predicates can all be
 * met at once.
 */
module Libraries {
  import opened Bytes
  import opened Errors

  /**
   * compress/flate. `deflate(data, level)` is the stream a flate.Writer at
   * that level leaves in its destination after Write(data) and Close();
   * `inflate` drains a flate.NewReader over a stream, None when it is not a
   * well-formed DEFLATE stream.
   */
  datatype Flate = Flate(deflate: (seq<byte>, int) -> seq<byte>, inflate: seq<byte> -> Option<seq<byte>>)

  /** Decompression is the left inverse of compression at every level 0..9. */
  ghost predicate Lossless(f: Flate)
  {
    forall data: seq<byte>, level: int {:trigger f.deflate(data, level)} ::
      0 <= level <= 9 ==> f.inflate(f.deflate(data, level)) == Some(data)
  }

  const NonceSize: nat := 12   // gcmStandardNonceSize, 96 bits
  const TagSize: nat := 16     // gcmTagSize

  /** The key lengths aes.NewCipher accepts: AES-128, AES-192 and AES-256. */
  predicate AesKeySize(n: int)
  {
    n == 16 || n == 24 || n == 32
  }

  /**
   * AES-GCM with a 96-bit nonce and no additional data. `seal(key, nonce,
   * plaintext)` is the ciphertext followed by the tag (SP 800-38D, 7.1);
   * `open(key, nonce, sealed)` verifies the tag and decrypts (7.2), None when
   * authentication fails.
   */
  datatype Gcm = Gcm(
    seal: (seq<byte>, seq<byte>, seq<byte>) -> seq<byte>,
    open: (seq<byte>, seq<byte>, seq<byte>) -> Option<seq<byte>>)

  /** Sealing adds exactly one tag, and opening undoes sealing under the same key and nonce. */
  ghost predicate Correct(g: Gcm)
  {
    forall key: seq<byte>, nonce: seq<byte>, plaintext: seq<byte> {:trigger g.seal(key, nonce, plaintext)} ::
      AesKeySize(|key|) && |nonce| == NonceSize ==>
        |g.seal(key, nonce, plaintext)| == |plaintext| + TagSize &&
        g.open(key, nonce, g.seal(key, nonce, plaintext)) == Some(plaintext)
  }

  /**
   * The tag check admits only what sealing produced: the idealised
   * integrity of ciphertexts that the authentication tag stands for.
   */
  ghost predicate Authentic(g: Gcm)
  {
    forall key: seq<byte>, nonce: seq<byte>, sealed: seq<byte> {:trigger g.open(key, nonce, sealed)} ::
      g.open(key, nonce, sealed).Some? ==> sealed == g.seal(key, nonce, g.open(key, nonce, sealed).value)
  }

  /** scrypt.Key(password, salt, N, r, p, keyLen) */
  datatype Scrypt = Scrypt(key: (seq<byte>, seq<byte>, int, int, int, int) -> seq<byte>)

  predicate PowerOfTwo(n: int)
    decreases n
  {
    n == 1 || (n > 1 && n % 2 == 0 && PowerOfTwo(n / 2))
  }

  /**
   * The cost parameters scrypt accepts (RFC 7914, section 2): N a power of
   * two greater than 1, r and p positive with r * p < 2^30.
   */
  predicate ScryptParameters(n: int, r: int, p: int)
  {
    n > 1 && PowerOfTwo(n) && r > 0 && p > 0 && r * p < 0x4000_0000
  }

  /** With acceptable parameters the derived key has exactly the requested length. */
  ghost predicate Sized(s: Scrypt)
  {
    forall password: seq<byte>, salt: seq<byte>, n: int, r: int, p: int, keyLen: int
      {:trigger s.key(password, salt, n, r, p, keyLen)} ::
      ScryptParameters(n, r, p) && keyLen >= 0 ==> |s.key(password, salt, n, r, p, keyLen)| == keyLen
  }

  /** The three libraries the archiver is linked against. */
  datatype Libs = Libs(flate: Flate, gcm: Gcm, scrypt: Scrypt)

  ghost predicate Sound(libs: Libs)
  {
    Lossless(libs.flate) && Correct(libs.gcm) && Authentic(libs.gcm) && Sized(libs.scrypt)
  }

  /**
   * A stand-in implementation that meets every predicate above (an identity
   * "compression", a zero tag and an all-zero key), so that Sound is not
   * vacuous.
   */
  function Reference(): (libs: Libs)
    ensures Sound(libs)
  {
    var zeros: seq<byte> := seq(TagSize, _ => 0);
    Libs(
      Flate((data, level) => data, stream => Some(stream)),
      Gcm((key, nonce, plaintext) => plaintext + zeros,
          (key, nonce, sealed) =>
            if |sealed| >= TagSize && sealed[|sealed| - TagSize..] == zeros
            then Some(sealed[..|sealed| - TagSize]) else None),
      Scrypt((password, salt, n, r, p, keyLen) => seq(if keyLen < 0 then 0 else keyLen, _ => 0)))
  }
}
