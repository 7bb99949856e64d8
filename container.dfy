/**
 * The encrypted container, `salt(16) || iv(16) || ciphertext`, and `decrypt_data`:
 * split the container, derive the key from the password and the salt, CBC-decrypt
 * the ciphertext and strip its PKCS#7 padding.
 */
module Container {
  import opened Wrappers
  import opened BlockCipher
  import opened KeyDerivation

  const SALT_LENGTH: nat := 16
  const IV_LENGTH: nat := 16
  const HEADER_LENGTH: nat := 32

  /** The two foreign primitives the decryptor relies on (hashlib and pycryptodome). */
  datatype Primitives = Primitives(kdf: Pbkdf2HmacSha256, aesDecrypt: AesBlockFunction)

  datatype Parts = Parts(salt: Bytes, iv: Bytes, ciphertext: Bytes)

  function Min(a: nat, b: nat): nat { if a < b then a else b }

  /**
   * `encrypted_data[:16]`, `[16:32]` and `[32:]`.  Python slices never fail: on
   * short input they are clamped to the length, so the parts may be short.
   */
  function Split(data: Bytes): (p: Parts)
    ensures p.salt + p.iv + p.ciphertext == data
    ensures |data| >= HEADER_LENGTH ==>
      && p.salt == data[..SALT_LENGTH]
      && p.iv == data[SALT_LENGTH..HEADER_LENGTH]
      && p.ciphertext == data[HEADER_LENGTH..]
    ensures |data| < HEADER_LENGTH ==> |p.iv| < IV_LENGTH && p.ciphertext == []
  {
    var n := |data|;
    var p := Parts(data[..Min(SALT_LENGTH, n)], data[Min(SALT_LENGTH, n)..Min(HEADER_LENGTH, n)], data[Min(HEADER_LENGTH, n)..]);
    assert p.salt + p.iv + p.ciphertext == data by {
      assert data == data[..Min(SALT_LENGTH, n)] + data[Min(SALT_LENGTH, n)..];
      assert data[Min(SALT_LENGTH, n)..] == p.iv + p.ciphertext;
    }
    p
  }

  /** `decrypt_data(encrypted_data, password)`; any exception it raises is a Failure. */
  function DecryptData(prims: Primitives, data: Bytes, password: string): Result<Bytes, CipherError> {
    var parts := Split(data);
    var key := DeriveKey(prims.kdf, password, parts.salt);
    match CbcDecrypt(prims.aesDecrypt, key, parts.iv, parts.ciphertext)
    case Failure(e) => Failure(e)
    case Success(padded) => Unpad(padded)
  }

  /**
   * A successful `decrypt_data` saw a whole container (header and at least one
   * block, block-aligned), and its result is the CBC decryption of the
   * ciphertext under the derived key with exactly its PKCS#7 padding removed.
   */
  lemma DecryptDataSucceeds(prims: Primitives, data: Bytes, password: string)
    requires DecryptData(prims, data, password).Success?
    ensures var plain := DecryptData(prims, data, password).value;
      && |data| >= HEADER_LENGTH + BLOCK_SIZE && (|data| - HEADER_LENGTH) % BLOCK_SIZE == 0
      && |data| - HEADER_LENGTH - BLOCK_SIZE <= |plain| < |data| - HEADER_LENGTH
      && CbcDecrypt(prims.aesDecrypt, DeriveKey(prims.kdf, password, data[..SALT_LENGTH]),
                    data[SALT_LENGTH..HEADER_LENGTH], data[HEADER_LENGTH..]) == Success(Pad(plain))
  {
    var parts := Split(data);
    var padded := CbcDecrypt(prims.aesDecrypt, DeriveKey(prims.kdf, password, parts.salt), parts.iv, parts.ciphertext).value;
    PadUnpad(padded, Unpad(padded).value);
  }

  /**
   * A container is rejected before any padding is examined when it is shorter
   * than the 32-byte header or its ciphertext is not block-aligned.
   */
  lemma DecryptDataRejectsMalformed(prims: Primitives, data: Bytes, password: string)
    requires YieldsRequestedLength(prims.kdf)
    requires |data| < HEADER_LENGTH || (|data| - HEADER_LENGTH) % BLOCK_SIZE != 0
    ensures DecryptData(prims, data, password) == Failure(if |data| < HEADER_LENGTH then InvalidIvLength else NotBlockAligned)
  {
  }

  /**
   * The reference encryptor: a fresh container for `plaintext` under `password`,
   * built the way the original encrypting tool lays it out.
   */
  function Seal(kdf: Pbkdf2HmacSha256, aesEncrypt: AesBlockFunction, password: string,
                salt: Block, iv: Block, plaintext: Bytes): (data: Bytes)
    ensures |data| >= HEADER_LENGTH + BLOCK_SIZE && (|data| - HEADER_LENGTH) % BLOCK_SIZE == 0
    ensures data[..SALT_LENGTH] == salt && data[SALT_LENGTH..HEADER_LENGTH] == iv
  {
    salt + iv + EncryptBlocks(aesEncrypt, DeriveKey(kdf, password, salt), iv, Pad(plaintext))
  }

  /**
   * Round trip: decrypting a sealed container with the password it was sealed
   * with gives back the plaintext, whenever the AES decryption function inverts
   * the encryption function used to seal it.
   */
  lemma DecryptSealed(prims: Primitives, aesEncrypt: AesBlockFunction, password: string,
                      salt: Block, iv: Block, plaintext: Bytes)
    requires YieldsRequestedLength(prims.kdf)
    requires forall key: Bytes, b: Block :: prims.aesDecrypt(key, aesEncrypt(key, b)) == b
    ensures DecryptData(prims, Seal(prims.kdf, aesEncrypt, password, salt, iv, plaintext), password) == Success(plaintext)
  {
    var key := DeriveKey(prims.kdf, password, salt);
    var padded := Pad(plaintext);
    var ct := EncryptBlocks(aesEncrypt, key, iv, padded);
    var data := salt + iv + ct;
    assert data[HEADER_LENGTH..] == ct;
    assert Split(data) == Parts(salt, iv, ct);
    DecryptEncryptBlocks(prims.aesDecrypt, aesEncrypt, key, iv, padded);
    assert CbcDecrypt(prims.aesDecrypt, key, iv, ct) == Success(padded);
    UnpadPad(plaintext);
  }
}
