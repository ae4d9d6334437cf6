/**
 * archiver/encrypt.go: key derivation with scrypt and AES-GCM sealing with
 * the nonce prepended to the output.
 *
 * The random source rand.Reader is modelled as a finite stream of bytes
 * (a Streams.Reader over `entropy`); reading a nonce when fewer than
 * NonceSize bytes remain is the failure of io.ReadFull(rand.Reader, nonce).
 */
module Encryption {
  import opened Bytes
  import opened Errors
  import opened Libraries
  import opened Streams

  // scrypt cost parameters and key length of GenerateKey (RFC 7914, section 6 names them N, r, p, dkLen)
  const ScryptN: int := 32768
  const ScryptR: int := 8
  const ScryptP: int := 1
  const KeyLen: nat := 32

  /** The fixed cost parameters are ones scrypt accepts, so GenerateKey's error branch is never taken. */
  lemma FixedParametersAccepted()
    ensures ScryptParameters(ScryptN, ScryptR, ScryptP)
  {
  }

  /** GenerateKey: scrypt.Key(password, salt, 32768, 8, 1, 32). */
  function GenerateKey(s: Scrypt, password: seq<byte>, salt: seq<byte>): (r: Result<seq<byte>>)
    ensures r.Success?
    ensures Sized(s) ==> |r.value| == KeyLen
  {
    FixedParametersAccepted();
    if !ScryptParameters(ScryptN, ScryptR, ScryptP) then Failure(KdfParameters)
    else Success(s.key(password, salt, ScryptN, ScryptR, ScryptP, KeyLen))
  }

  /**
   * What Encrypt returns: the cipher constructor's key-size check first, then
   * a nonce of NonceSize bytes drawn from the random stream at `pos`, then
   * nonce ‖ Seal(key, nonce, data). On success `next` is where the random
   * stream continues.
   */
  function Encrypted(g: Gcm, data: seq<byte>, key: seq<byte>, entropy: seq<byte>, pos: nat): (r: Result<Read<seq<byte>>>)
    requires pos <= |entropy|
    ensures r.Success? <==> AesKeySize(|key|) && pos + NonceSize <= |entropy|
    ensures !AesKeySize(|key|) ==> r == Failure(InvalidKeySize(|key|))
    ensures r.Success? ==> r.value.next == pos + NonceSize
    ensures r.Success? ==> |r.value.value| >= NonceSize && r.value.value[..NonceSize] == entropy[pos..pos + NonceSize]
    ensures r.Success? && Correct(g) ==> |r.value.value| == NonceSize + |data| + TagSize
  {
    if !AesKeySize(|key|) then Failure(InvalidKeySize(|key|))
    else
      var nonce :- ReadFullAt(entropy, pos, NonceSize);
      Success(Read(nonce.value + g.seal(key, nonce.value, data), nonce.next))
  }

  /**
   * A failing random source yields an error and no ciphertext, and the
   * error is the one io.ReadFull reports.
   */
  lemma RandomFailure(g: Gcm, data: seq<byte>, key: seq<byte>, entropy: seq<byte>, pos: nat)
    requires pos <= |entropy| && AesKeySize(|key|) && |entropy| - pos < NonceSize
    ensures Encrypted(g, data, key, entropy, pos) == Failure(if pos == |entropy| then Eof else UnexpectedEof)
  {
  }

  /** Encrypt: cipher set-up, nonce buffer filled from the random source, then Seal appended to it. */
  method Encrypt(g: Gcm, data: seq<byte>, key: seq<byte>, rng: Reader) returns (r: Result<seq<byte>>)
    requires rng.Valid()
    modifies rng
    ensures rng.Valid()
    ensures match Encrypted(g, data, key, rng.data, old(rng.pos))
            case Success(ct) => r == Success(ct.value) && rng.pos == ct.next
            case Failure(e) => r == Failure(e)
  {
    if !AesKeySize(|key|) {
      return Failure(InvalidKeySize(|key|));
    }
    var nonce := rng.ReadFull(NonceSize);
    if nonce.Failure? {
      return Failure(nonce.error);
    }
    r := Success(nonce.value + g.seal(key, nonce.value, data));
  }
}
