/**
 * AES in CBC mode followed by PKCS#7 padding removal, as the decryptor uses them
 * through pycryptodome: `AES.new(key, AES.MODE_CBC, iv)`, `cipher.decrypt(ct)` and
 * `unpad(pt, AES.block_size)`.
 *
 * The AES block function itself (FIPS 197) is not modelled: it is a parameter of
 * type AesBlockFunction.  Cipher-block chaining is written out over it as in
 * section 6.2 of NIST SP 800-38A, and padding as in section 6.3 of RFC 5652.
 */
module BlockCipher {
  import opened Wrappers

  type Byte = bv8
  type Bytes = seq<Byte>

  /** AES.block_size */
  const BLOCK_SIZE: nat := 16

  /** One AES block. */
  type Block = b: Bytes | |b| == BLOCK_SIZE witness [0, 0, 0, 0, 0, 0, 0, 0, 0, 0, 0, 0, 0, 0, 0, 0]

  /** The AES block function in one direction, keyed: (key, block) -> block. */
  type AesBlockFunction = (Bytes, Block) -> Block

  /** The exceptions pycryptodome raises on the decryption path. */
  datatype CipherError =
    | InvalidKeyLength    // AES.new: key is not 16, 24 or 32 bytes
    | InvalidIvLength     // MODE_CBC: IV is not 16 bytes
    | NotBlockAligned     // decrypt: data not padded to a 16-byte boundary
    | ZeroLengthInput     // unpad: zero-length input
    | InputNotPadded      // unpad: length not a multiple of the block size
    | PaddingOutOfRange   // unpad: last byte is 0 or larger than the block size
    | PaddingMismatch     // unpad: the last n bytes are not all n

  function Xor(a: Block, b: Block): (r: Block)
    ensures forall i :: 0 <= i < BLOCK_SIZE ==> r[i] == a[i] ^ b[i]
  {
    seq(BLOCK_SIZE, i requires 0 <= i < BLOCK_SIZE => a[i] ^ b[i])
  }

  lemma XorCancels(a: Block, b: Block)
    ensures Xor(Xor(a, b), b) == a
  {
    var r := Xor(Xor(a, b), b);
    forall i | 0 <= i < BLOCK_SIZE
      ensures r[i] == a[i]
    {
      assert r[i] == (a[i] ^ b[i]) ^ b[i];
    }
  }

  /** The j-th 16-byte block of s. */
  function BlockAt(s: Bytes, j: nat): Block
    requires BLOCK_SIZE * (j + 1) <= |s|
  {
    s[BLOCK_SIZE * j..BLOCK_SIZE * (j + 1)]
  }

  /**
   * CBC decryption of block-aligned data: P_j = D(K, C_j) xor C_(j-1), with C_0
   * the IV (`prev` is the ciphertext block chained into the first block of ct).
   */
  function DecryptBlocks(decrypt: AesBlockFunction, key: Bytes, prev: Block, ct: Bytes): (pt: Bytes)
    requires |ct| % BLOCK_SIZE == 0
    ensures |pt| == |ct|
    decreases |ct|
  {
    if |ct| == 0 then []
    else
      var c: Block := ct[..BLOCK_SIZE];
      Xor(decrypt(key, c), prev) + DecryptBlocks(decrypt, key, c, ct[BLOCK_SIZE..])
  }

  /** CBC encryption, the reference used to build containers: C_j = E(K, P_j xor C_(j-1)). */
  function EncryptBlocks(encrypt: AesBlockFunction, key: Bytes, prev: Block, pt: Bytes): (ct: Bytes)
    requires |pt| % BLOCK_SIZE == 0
    ensures |ct| == |pt|
    decreases |pt|
  {
    if |pt| == 0 then []
    else
      var c := encrypt(key, Xor(pt[..BLOCK_SIZE], prev));
      c + EncryptBlocks(encrypt, key, c, pt[BLOCK_SIZE..])
  }

  /** The chaining equation of section 6.2 of NIST SP 800-38A, block by block. */
  lemma {:induction false} DecryptBlocksChaining(decrypt: AesBlockFunction, key: Bytes, iv: Block, ct: Bytes, j: nat)
    requires |ct| % BLOCK_SIZE == 0
    requires BLOCK_SIZE * (j + 1) <= |ct|
    ensures BLOCK_SIZE * (j + 1) <= |DecryptBlocks(decrypt, key, iv, ct)|
    ensures BlockAt(DecryptBlocks(decrypt, key, iv, ct), j)
         == Xor(decrypt(key, BlockAt(ct, j)), if j == 0 then iv else BlockAt(ct, j - 1))
    decreases j
  {
    var c: Block := ct[..BLOCK_SIZE];
    var rest := ct[BLOCK_SIZE..];
    var head := Xor(decrypt(key, c), iv);
    var tail := DecryptBlocks(decrypt, key, c, rest);
    assert DecryptBlocks(decrypt, key, iv, ct) == head + tail;
    if j == 0 {
      assert BlockAt(head + tail, 0) == head;
    } else {
      DecryptBlocksChaining(decrypt, key, c, rest, j - 1);
      assert BlockAt(rest, j - 1) == BlockAt(ct, j);
      if j - 1 > 0 {
        assert BlockAt(rest, j - 2) == BlockAt(ct, j - 1);
      } else {
        assert c == BlockAt(ct, j - 1);
      }
      assert BlockAt(head + tail, j) == BlockAt(tail, j - 1);
    }
  }

  /** Decryption with a block function that inverts the encryption one undoes CBC encryption. */
  lemma {:induction false} DecryptEncryptBlocks(decrypt: AesBlockFunction, encrypt: AesBlockFunction, key: Bytes, prev: Block, pt: Bytes)
    requires forall b: Block :: decrypt(key, encrypt(key, b)) == b
    requires |pt| % BLOCK_SIZE == 0
    ensures DecryptBlocks(decrypt, key, prev, EncryptBlocks(encrypt, key, prev, pt)) == pt
    decreases |pt|
  {
    if |pt| > 0 {
      var p: Block := pt[..BLOCK_SIZE];
      var c := encrypt(key, Xor(p, prev));
      var ct := EncryptBlocks(encrypt, key, prev, pt);
      assert ct == c + EncryptBlocks(encrypt, key, c, pt[BLOCK_SIZE..]);
      assert ct[..BLOCK_SIZE] == c;
      assert ct[BLOCK_SIZE..] == EncryptBlocks(encrypt, key, c, pt[BLOCK_SIZE..]);
      XorCancels(p, prev);
      DecryptEncryptBlocks(decrypt, encrypt, key, c, pt[BLOCK_SIZE..]);
      assert pt == p + pt[BLOCK_SIZE..];
    }
  }

  /**
   * `AES.new(key, AES.MODE_CBC, iv).decrypt(ct)`: the key length is checked when the
   * cipher is created, then the IV length, then the data must be block-aligned.
   */
  function CbcDecrypt(decrypt: AesBlockFunction, key: Bytes, iv: Bytes, ct: Bytes): (r: Result<Bytes, CipherError>)
    ensures r.Success? <==> (|key| == 16 || |key| == 24 || |key| == 32) && |iv| == BLOCK_SIZE && |ct| % BLOCK_SIZE == 0
    ensures r.Success? ==> |r.value| == |ct|
    ensures r.Failure? && |key| != 16 && |key| != 24 && |key| != 32 ==> r.error == InvalidKeyLength
  {
    if |key| != 16 && |key| != 24 && |key| != 32 then Failure(InvalidKeyLength)
    else if |iv| != BLOCK_SIZE then Failure(InvalidIvLength)
    else if |ct| % BLOCK_SIZE != 0 then Failure(NotBlockAligned)
    else Success(DecryptBlocks(decrypt, key, iv, ct))
  }

  /** The last byte of padded data, read as the padding length. */
  function PadLength(d: Bytes): nat
    requires |d| > 0
  {
    d[|d| - 1] as nat
  }

  /** Well-formed PKCS#7 padding (section 6.3 of RFC 5652) for a 16-byte block. */
  predicate ValidPadding(d: Bytes) {
    && |d| > 0
    && |d| % BLOCK_SIZE == 0
    && 1 <= PadLength(d) <= BLOCK_SIZE
    && forall i :: |d| - PadLength(d) <= i < |d| ==> d[i] as nat == PadLength(d)
  }

  /** `unpad(data, 16)` with the default 'pkcs7' style, in pycryptodome's order of checks. */
  function Unpad(d: Bytes): (r: Result<Bytes, CipherError>)
    ensures r.Success? <==> ValidPadding(d)
    ensures r.Success? ==> |r.value| < |d| <= |r.value| + BLOCK_SIZE && r.value == d[..|r.value|]
    ensures r.Success? ==> forall i :: |r.value| <= i < |d| ==> d[i] as nat == |d| - |r.value|
  {
    if |d| == 0 then Failure(ZeroLengthInput)
    else if |d| % BLOCK_SIZE != 0 then Failure(InputNotPadded)
    else
      var n := PadLength(d);
      if n < 1 || n > (if BLOCK_SIZE < |d| then BLOCK_SIZE else |d|) then Failure(PaddingOutOfRange)
      else if d[|d| - n..] != seq(n, _ => n as Byte) then
        assert !ValidPadding(d) by {
          var k :| 0 <= k < n && d[|d| - n..][k] != n as Byte;
          assert d[|d| - n + k] as nat != n;
        }
        Failure(PaddingMismatch)
      else
        assert forall i :: |d| - n <= i < |d| ==> d[i] == d[|d| - n..][i - (|d| - n)];
        Success(d[..|d| - n])
  }

  /** PKCS#7 padding for a 16-byte block: 1 to 16 bytes, each holding the count. */
  function Pad(m: Bytes): (d: Bytes)
    ensures |d| % BLOCK_SIZE == 0 && |m| < |d| <= |m| + BLOCK_SIZE && d[..|m|] == m
  {
    var n := BLOCK_SIZE - |m| % BLOCK_SIZE;
    m + seq(n, _ => n as Byte)
  }

  lemma UnpadPad(m: Bytes)
    ensures Unpad(Pad(m)) == Success(m)
  {
    var n := BLOCK_SIZE - |m| % BLOCK_SIZE;
    var d := Pad(m);
    assert PadLength(d) == n;
    assert forall i :: |d| - n <= i < |d| ==> d[i] as nat == n;
    assert ValidPadding(d);
  }

  lemma PadUnpad(d: Bytes, m: Bytes)
    requires Unpad(d) == Success(m)
    ensures Pad(m) == d
  {
    var n := |d| - |m|;
    assert n == PadLength(d);
    assert BLOCK_SIZE - |m| % BLOCK_SIZE == n;
    assert d == m + d[|m|..];
    assert d[|m|..] == seq(n, _ => n as Byte);
  }
}
