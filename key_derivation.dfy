/**
 * `derive_key(password, salt)`: PBKDF2 with HMAC-SHA256 (section 5.2 of RFC 8018)
 * over the UTF-8 bytes of the password, 100000 iterations, a 32-byte key.
 *
 * PBKDF2 itself (hashlib.pbkdf2_hmac) is not modelled: it is a parameter of type
 * Pbkdf2HmacSha256.  The UTF-8 encoding of `password.encode()` is written out.
 */
module KeyDerivation {
  import opened Wrappers
  import opened BlockCipher

  /** PBKDF2-HMAC-SHA256 as (password bytes, salt, iteration count, dkLen) -> derived key. */
  type Pbkdf2HmacSha256 = (Bytes, Bytes, nat, nat) -> Bytes

  const ITERATIONS: nat := 100000
  const KEY_LENGTH: nat := 32

  /**
   * Section 5.2 of RFC 8018: the derived key is exactly dkLen octets long.  Only
   * KEY_LENGTH is ever requested, so that is the only length assumed.
   */
  ghost predicate YieldsRequestedLength(kdf: Pbkdf2HmacSha256) {
    forall password, salt, c :: |kdf(password, salt, c, KEY_LENGTH)| == KEY_LENGTH
  }

  /** The byte with value x < 16. */
  function Nibble(x: nat): (b: Byte)
    requires x < 0x10
    ensures b as int == x
  {
    x as Byte
  }

  /** The byte with value x, assembled from its two hexadecimal digits. */
  function ByteOf(x: nat): (b: Byte)
    requires x < 0x100
    ensures b as int == x
  {
    (Nibble(x / 0x10) << 4) | Nibble(x % 0x10)
  }

  /** How many bytes UTF-8 spends on the code point n (section 3 of RFC 3629). */
  function Utf8Length(n: nat): nat {
    if n < 0x80 then 1 else if n < 0x800 then 2 else if n < 0x10000 then 3 else 4
  }

  /** A lead byte announcing a sequence of len bytes: 0xxxxxxx, 110xxxxx, 1110xxxx or 11110xxx. */
  predicate IsLead(b: Byte, len: nat) {
    if len == 1 then b as int < 0x80
    else if len == 2 then 0xC0 <= b as int < 0xE0
    else if len == 3 then 0xE0 <= b as int < 0xF0
    else len == 4 && 0xF0 <= b as int < 0xF8
  }

  /** A continuation byte: 10xxxxxx. */
  predicate IsContinuation(b: Byte) {
    0x80 <= b as int < 0xC0
  }

  /** 2 to the number of payload bits in the lead byte of a sequence of len bytes. */
  function LeadPayloadRange(len: nat): nat {
    if len == 1 then 0x80 else if len == 2 then 0x20 else if len == 3 then 0x10 else 0x08
  }

  /** The lead byte of a sequence of len bytes carrying the high payload bits. */
  function LeadByte(len: nat, bits: nat): (b: Byte)
    requires 2 <= len <= 4 && bits < LeadPayloadRange(len)
    ensures IsLead(b, len) && b as int % LeadPayloadRange(len) == bits
  {
    ByteOf((if len == 2 then 0xC0 else if len == 3 then 0xE0 else 0xF0) + bits)
  }

  /** The continuation byte carrying six payload bits. */
  function ContinuationByte(bits: nat): (b: Byte)
    requires bits < 0x40
    ensures IsContinuation(b) && b as int % 0x40 == bits
  {
    ByteOf(0x80 + bits)
  }

  /** The two bytes 110xxxxx 10xxxxxx carrying the code point n. */
  function TwoByteSequence(n: nat): (r: Bytes)
    requires 0x80 <= n < 0x800
    ensures |r| == Utf8Length(n) && IsLead(r[0], |r|)
    ensures forall i :: 1 <= i < |r| ==> IsContinuation(r[i])
  {
    [LeadByte(2, n / 0x40), ContinuationByte(n % 0x40)]
  }

  /** The three bytes 1110xxxx 10xxxxxx 10xxxxxx carrying the code point n. */
  function ThreeByteSequence(n: nat): (r: Bytes)
    requires 0x800 <= n < 0x10000
    ensures |r| == Utf8Length(n) && IsLead(r[0], |r|)
    ensures forall i :: 1 <= i < |r| ==> IsContinuation(r[i])
  {
    [LeadByte(3, n / 0x1000), ContinuationByte((n / 0x40) % 0x40), ContinuationByte(n % 0x40)]
  }

  /** The four bytes 11110xxx 10xxxxxx 10xxxxxx 10xxxxxx carrying the code point n. */
  function FourByteSequence(n: nat): (r: Bytes)
    requires 0x10000 <= n < 0x110000
    ensures |r| == Utf8Length(n) && IsLead(r[0], |r|)
    ensures forall i :: 1 <= i < |r| ==> IsContinuation(r[i])
  {
    [LeadByte(4, n / 0x40000), ContinuationByte((n / 0x1000) % 0x40),
     ContinuationByte((n / 0x40) % 0x40), ContinuationByte(n % 0x40)]
  }

  /**
   * The UTF-8 encoding of one Unicode scalar value (Python's `str.encode()`, default
   * codec): the code point's bits, most significant first, split over a lead byte and
   * six-bit continuation bytes.
   */
  function EncodeChar(c: char): (r: Bytes)
    ensures |r| == Utf8Length(c as int)
    ensures IsLead(r[0], |r|)
    ensures forall i :: 1 <= i < |r| ==> IsContinuation(r[i])
    ensures c as int < 0x80 ==> r[0] as int == c as int
  {
    var n := c as int;
    if n < 0x80 then [ByteOf(n)]
    else if n < 0x800 then TwoByteSequence(n)
    else if n < 0x10000 then ThreeByteSequence(n)
    else FourByteSequence(n)
  }

  function Utf8Encode(s: string): (r: Bytes)
    ensures |s| <= |r| <= 4 * |s|
  {
    if s == [] then [] else EncodeChar(s[0]) + Utf8Encode(s[1..])
  }

  /**
   * The sequence length a byte announces when it starts a sequence, read off its
   * high bits; 0 for a continuation byte or a byte UTF-8 never uses.
   */
  function SequenceLength(lead: Byte): nat {
    var v := lead as int;
    if v < 0x80 then 1
    else if v < 0xC0 then 0
    else if v < 0xE0 then 2
    else if v < 0xF0 then 3
    else if v < 0xF8 then 4
    else 0
  }

  /** Appends the six payload bits of each continuation byte to acc. */
  function Accumulate(acc: int, continuation: Bytes): int
    decreases |continuation|
  {
    if continuation == [] then acc
    else Accumulate(acc * 0x40 + continuation[0] as int % 0x40, continuation[1..])
  }

  /** A reference UTF-8 decoder for one complete sequence: the code point, or None. */
  function DecodeChar(b: Bytes): Option<int> {
    if |b| == 0 || SequenceLength(b[0]) != |b| then None
    else if exists i :: 1 <= i < |b| && !IsContinuation(b[i]) then None
    else
      Some(Accumulate(b[0] as int % LeadPayloadRange(|b|), b[1..]))
  }

  /** The code points of a string. */
  function CodePoints(s: string): (cps: seq<int>)
    ensures |cps| == |s| && forall i :: 0 <= i < |s| ==> cps[i] == s[i] as int
  {
    seq(|s|, i requires 0 <= i < |s| => s[i] as int)
  }

  /** A reference UTF-8 decoder for a whole byte string. */
  function Utf8Decode(b: Bytes): Option<seq<int>>
    decreases |b|
  {
    if b == [] then Some([])
    else
      var len := SequenceLength(b[0]);
      if len == 0 || |b| < len then None
      else match (DecodeChar(b[..len]), Utf8Decode(b[len..]))
        case (Some(cp), Some(rest)) => Some([cp] + rest)
        case _ => None
  }

  /** A lead byte announces the length it was built for. */
  lemma LeadLength(b: Byte, len: nat)
    requires IsLead(b, len)
    ensures SequenceLength(b) == len
  {
  }

  /** A well-formed sequence decodes to its payload bits. */
  lemma DecodeWellFormed(b: Bytes)
    requires |b| > 0 && IsLead(b[0], |b|)
    requires forall i :: 1 <= i < |b| ==> IsContinuation(b[i])
    ensures DecodeChar(b) == Some(Accumulate(b[0] as int % LeadPayloadRange(|b|), b[1..]))
  {
    LeadLength(b[0], |b|);
  }

  /** Accumulate over one continuation byte. */
  lemma AccumulateOne(acc: int, b: Bytes)
    requires |b| == 1
    ensures Accumulate(acc, b) == acc * 0x40 + b[0] as int % 0x40
  {
    assert b[1..] == [];
  }

  /** Accumulate over two continuation bytes. */
  lemma AccumulateTwo(acc: int, b: Bytes)
    requires |b| == 2
    ensures Accumulate(acc, b) == (acc * 0x40 + b[0] as int % 0x40) * 0x40 + b[1] as int % 0x40
  {
    AccumulateOne(acc * 0x40 + b[0] as int % 0x40, b[1..]);
  }

  /** Accumulate over three continuation bytes. */
  lemma AccumulateThree(acc: int, b: Bytes)
    requires |b| == 3
    ensures Accumulate(acc, b) == ((acc * 0x40 + b[0] as int % 0x40) * 0x40 + b[1] as int % 0x40) * 0x40 + b[2] as int % 0x40
  {
    AccumulateTwo(acc * 0x40 + b[0] as int % 0x40, b[1..]);
  }

  /**
   * The six-bit digits of a code point below 0x110000: the quotient by 0x40^k is the
   * quotient by 0x40^(k+1) followed by one more digit.
   */
  lemma SixBitDigits(n: nat)
    requires n < 0x110000
    ensures n / 0x40000 < 0x08
    ensures (n / 0x40000) * 0x40 + (n / 0x1000) % 0x40 == n / 0x1000
    ensures (n / 0x1000) * 0x40 + (n / 0x40) % 0x40 == n / 0x40
    ensures (n / 0x40) * 0x40 + n % 0x40 == n
  {
    var q, r := n / 0x40000, n % 0x40000;
    assert n / 0x1000 == q * 0x40 + r / 0x1000;
    var q', r' := n / 0x1000, n % 0x1000;
    assert n / 0x40 == q' * 0x40 + r' / 0x40;
  }

  /** A two-byte sequence built from n decodes to n. */
  lemma DecodeTwo(n: nat, r: Bytes)
    requires 0x80 <= n < 0x800 && |r| == 2 && IsLead(r[0], 2) && IsContinuation(r[1])
    requires r[0] as int % 0x20 == n / 0x40 && r[1] as int % 0x40 == n % 0x40
    ensures DecodeChar(r) == Some(n)
  {
    DecodeWellFormed(r);
    AccumulateOne(r[0] as int % 0x20, r[1..]);
  }

  /** A three-byte sequence built from n decodes to n. */
  lemma DecodeThree(n: nat, r: Bytes)
    requires 0x800 <= n < 0x10000 && |r| == 3 && IsLead(r[0], 3) && IsContinuation(r[1]) && IsContinuation(r[2])
    requires r[0] as int % 0x10 == n / 0x1000
    requires r[1] as int % 0x40 == (n / 0x40) % 0x40 && r[2] as int % 0x40 == n % 0x40
    ensures DecodeChar(r) == Some(n)
  {
    DecodeWellFormed(r);
    AccumulateTwo(r[0] as int % 0x10, r[1..]);
    SixBitDigits(n);
  }

  /** A four-byte sequence built from n decodes to n. */
  lemma DecodeFour(n: nat, r: Bytes)
    requires 0x10000 <= n < 0x110000 && |r| == 4 && IsLead(r[0], 4)
    requires IsContinuation(r[1]) && IsContinuation(r[2]) && IsContinuation(r[3])
    requires r[0] as int % 0x08 == n / 0x40000 && r[1] as int % 0x40 == (n / 0x1000) % 0x40
    requires r[2] as int % 0x40 == (n / 0x40) % 0x40 && r[3] as int % 0x40 == n % 0x40
    ensures DecodeChar(r) == Some(n)
  {
    DecodeWellFormed(r);
    AccumulateThree(r[0] as int % 0x08, r[1..]);
    SixBitDigits(n);
  }

  /** A character of two bytes decodes back to its code point. */
  lemma DecodeEncodeTwo(c: char)
    requires 0x80 <= c as int < 0x800
    ensures DecodeChar(EncodeChar(c)) == Some(c as int)
  {
    var n := c as int;
    var r := TwoByteSequence(n);
    assert EncodeChar(c) == r;
    DecodeTwo(n, r);
  }

  /** A character of three bytes decodes back to its code point. */
  lemma DecodeEncodeThree(c: char)
    requires 0x800 <= c as int < 0x10000
    ensures DecodeChar(EncodeChar(c)) == Some(c as int)
  {
    var n := c as int;
    var r := ThreeByteSequence(n);
    assert EncodeChar(c) == r;
    DecodeThree(n, r);
  }

  /** A character of four bytes decodes back to its code point. */
  lemma DecodeEncodeFour(c: char)
    requires 0x10000 <= c as int
    ensures DecodeChar(EncodeChar(c)) == Some(c as int)
  {
    var n := c as int;
    var r := FourByteSequence(n);
    assert EncodeChar(c) == r;
    DecodeFour(n, r);
  }

  /** Each character's bytes decode back to its code point. */
  lemma DecodeEncodeChar(c: char)
    ensures DecodeChar(EncodeChar(c)) == Some(c as int)
  {
    var n := c as int;
    if n < 0x80 {
      assert SequenceLength(EncodeChar(c)[0]) == 1;
    } else if n < 0x800 {
      DecodeEncodeTwo(c);
    } else if n < 0x10000 {
      DecodeEncodeThree(c);
    } else {
      DecodeEncodeFour(c);
    }
  }

  /** Decoding the encoding of a password gives back its code points. */
  lemma {:induction false} Utf8DecodeEncode(s: string)
    ensures Utf8Decode(Utf8Encode(s)) == Some(CodePoints(s))
  {
    if s != [] {
      var head := EncodeChar(s[0]);
      var b := Utf8Encode(s);
      assert b == head + Utf8Encode(s[1..]);
      assert b[0] == head[0];
      DecodeEncodeChar(s[0]);
      assert SequenceLength(b[0]) == |head|;
      assert b[..|head|] == head;
      assert b[|head|..] == Utf8Encode(s[1..]);
      Utf8DecodeEncode(s[1..]);
      assert CodePoints(s) == [s[0] as int] + CodePoints(s[1..]);
    }
  }

  /** Distinct passwords are fed to PBKDF2 as distinct byte strings. */
  lemma Utf8EncodeInjective(s: string, t: string)
    requires Utf8Encode(s) == Utf8Encode(t)
    ensures s == t
  {
    Utf8DecodeEncode(s);
    Utf8DecodeEncode(t);
    assert CodePoints(s) == CodePoints(t);
    forall i | 0 <= i < |s| ensures s[i] == t[i] {
      assert CodePoints(s)[i] == CodePoints(t)[i];
    }
  }

  predicate IsAscii(s: string) {
    forall i :: 0 <= i < |s| ==> s[i] as int < 0x80
  }

  /** An ASCII password (such as the default "123456") is fed to PBKDF2 byte for byte. */
  lemma {:induction false} Utf8EncodeAscii(s: string)
    requires IsAscii(s)
    ensures |Utf8Encode(s)| == |s|
    ensures forall i :: 0 <= i < |s| ==> Utf8Encode(s)[i] as int == s[i] as int
  {
    if s != [] {
      assert IsAscii(s[1..]) by {
        forall i | 0 <= i < |s[1..]| ensures s[1..][i] as int < 0x80 {
          assert s[1..][i] == s[i + 1];
        }
      }
      Utf8EncodeAscii(s[1..]);
      var r := Utf8Encode(s);
      assert r == EncodeChar(s[0]) + Utf8Encode(s[1..]);
      forall i | 0 <= i < |s| ensures r[i] as int == s[i] as int {
        if i > 0 {
          assert r[i] == Utf8Encode(s[1..])[i - 1];
          assert s[1..][i - 1] == s[i];
        }
      }
    }
  }

  /** Only ASCII strings encode to as many bytes as they have characters. */
  lemma {:induction false} Utf8EncodeLengthAscii(s: string)
    requires |Utf8Encode(s)| == |s|
    ensures IsAscii(s)
  {
    if s != [] {
      assert |EncodeChar(s[0])| == 1;
      Utf8EncodeLengthAscii(s[1..]);
      forall i | 0 <= i < |s| ensures s[i] as int < 0x80 {
        if i > 0 { assert s[1..][i - 1] == s[i]; }
      }
    }
  }

  /** `derive_key(password, salt)` with its default of 100000 iterations. */
  function DeriveKey(kdf: Pbkdf2HmacSha256, password: string, salt: Bytes): (key: Bytes)
    ensures YieldsRequestedLength(kdf) ==> |key| == KEY_LENGTH
  {
    kdf(Utf8Encode(password), salt, ITERATIONS, KEY_LENGTH)
  }
}
