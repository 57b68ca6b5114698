/// AES-128-CBC decryption with padding disabled, as `EVP_aes_128_cbc` with
/// `EVP_CIPHER_CTX_set_padding(ctx, 0)` performs it (NIST SP 800-38A, section 6.2),
/// and the PKCS#7 padding of RFC 5652, section 6.3, against which the source's own
/// padding rule is compared. The AES block function itself is a parameter.
module Cbc {
  import opened Bytes

  /** The AES-128 forward or inverse cipher applied to one block under a key. */
  type BlockCipher = (Block, Block) -> Block

  /** Bitwise exclusive or of the low `width` bits of `a` and `b`. */
  function XorBits(a: nat, b: nat, width: nat): nat
  {
    if width == 0 then 0
    else (if a % 2 == b % 2 then 0 else 1) + 2 * XorBits(a / 2, b / 2, width - 1)
  }

  function Pow2(n: nat): (p: nat)
    ensures p >= 1
  {
    if n == 0 then 1 else 2 * Pow2(n - 1)
  }

  lemma {:induction false} XorBitsBound(a: nat, b: nat, width: nat)
    ensures XorBits(a, b, width) < Pow2(width)
  {
    if width > 0 {
      XorBitsBound(a / 2, b / 2, width - 1);
    }
  }

  lemma {:induction false} XorBitsCancels(a: nat, b: nat, width: nat)
    requires a < Pow2(width)
    ensures XorBits(XorBits(a, b, width), b, width) == a
  {
    if width > 0 {
      var bit := if a % 2 == b % 2 then 0 else 1;
      var rest := XorBits(a / 2, b / 2, width - 1);
      LowBitAndRest(bit, rest);
      HalfBelowPow2(a, width);
      XorBitsCancels(a / 2, b / 2, width - 1);
    }
  }

  lemma LowBitAndRest(bit: nat, rest: nat)
    requires bit < 2
    ensures (bit + 2 * rest) % 2 == bit && (bit + 2 * rest) / 2 == rest
  {
  }

  lemma HalfBelowPow2(a: nat, width: nat)
    requires 0 < width && a < Pow2(width)
    ensures a / 2 < Pow2(width - 1)
  {
  }

  /** The `^` of two bytes. */
  function XorByte(a: byte, b: byte): byte
  {
    XorBitsBound(a as nat, b as nat, 8);
    XorBits(a as nat, b as nat, 8) as byte
  }

  function XorBlock(a: Block, b: Block): (r: Block)
    ensures forall i :: 0 <= i < 16 ==> r[i] == XorByte(a[i], b[i])
  {
    seq(16, i requires 0 <= i < 16 => XorByte(a[i], b[i]))
  }

  lemma XorByteCancels(a: byte, b: byte)
    ensures XorByte(XorByte(a, b), b) == a
  {
    assert Pow2(8) == 256;
    XorBitsCancels(a as nat, b as nat, 8);
  }

  lemma XorBlockCancels(a: Block, b: Block)
    ensures XorBlock(XorBlock(a, b), b) == a
  {
    forall i | 0 <= i < 16
      ensures XorBlock(XorBlock(a, b), b)[i] == a[i]
    {
      XorByteCancels(a[i], b[i]);
    }
  }

  /** CBC decryption of whole blocks: `P_j = D(K, C_j) xor C_{j-1}` with `C_0 = IV`. */
  function CbcChain(decrypt: BlockCipher, key: Block, prev: Block, ct: seq<byte>): (pt: seq<byte>)
    requires |ct| % 16 == 0
    ensures |pt| == |ct|
    decreases |ct|
  {
    if ct == [] then []
    else
      var c: Block := ct[..16];
      XorBlock(decrypt(key, c), prev) + CbcChain(decrypt, key, c, ct[16..])
  }

  /** `EVP_DecryptUpdate` followed by `EVP_DecryptFinal_ex` with padding disabled: the
      final call fails when a partial block is left over; otherwise the plaintext has
      exactly the length of the ciphertext. */
  function CbcDecrypt(decrypt: BlockCipher, key: Block, iv: Block, ct: seq<byte>): (r: Option<seq<byte>>)
    ensures r.Some? <==> |ct| % 16 == 0
    ensures r.Some? ==> |r.value| == |ct|
  {
    if |ct| % 16 != 0 then None else Some(CbcChain(decrypt, key, iv, ct))
  }

  /** CBC encryption of whole blocks: `C_j = E(K, P_j xor C_{j-1})`; the inverse of
      `CbcChain`, used to state the round trip. */
  function CbcEncryptChain(encrypt: BlockCipher, key: Block, prev: Block, pt: seq<byte>): (ct: seq<byte>)
    requires |pt| % 16 == 0
    ensures |ct| == |pt|
    decreases |pt|
  {
    if pt == [] then []
    else
      var c := encrypt(key, XorBlock(pt[..16], prev));
      c + CbcEncryptChain(encrypt, key, c, pt[16..])
  }

  /** When `decrypt` inverts `encrypt` block by block, CBC decryption inverts CBC
      encryption under the same key and IV. */
  lemma {:induction false} CbcRoundTrip(encrypt: BlockCipher, decrypt: BlockCipher,
                                        key: Block, prev: Block, pt: seq<byte>)
    requires forall k: Block, b: Block :: decrypt(k, encrypt(k, b)) == b
    requires |pt| % 16 == 0
    ensures CbcChain(decrypt, key, prev, CbcEncryptChain(encrypt, key, prev, pt)) == pt
    decreases |pt|
  {
    if pt != [] {
      var p: Block := pt[..16];
      var c := encrypt(key, XorBlock(p, prev));
      var ct := CbcEncryptChain(encrypt, key, prev, pt);
      assert ct[..16] == c && ct[16..] == CbcEncryptChain(encrypt, key, c, pt[16..]);
      XorBlockCancels(p, prev);
      CbcRoundTrip(encrypt, decrypt, key, c, pt[16..]);
      assert pt == p + pt[16..];
    }
  }

  // PKCS#7 (RFC 5652, section 6.3).

  /** The number of padding bytes PKCS#7 appends to a message of length `len`: 1..16. */
  function Pkcs7PadCount(len: nat): (n: nat)
    ensures 1 <= n <= 16 && (len + n) % 16 == 0
  {
    16 - len % 16
  }

  /** PKCS#7 padding: `n` copies of the byte `n`. */
  function Pkcs7Pad(p: seq<byte>): (s: seq<byte>)
    ensures |s| == |p| + Pkcs7PadCount(|p|) && |s| % 16 == 0
    ensures s[..|p|] == p
    ensures forall i :: |p| <= i < |s| ==> s[i] as int == Pkcs7PadCount(|p|)
  {
    var n := Pkcs7PadCount(|p|);
    p + seq(n, _ => n as byte)
  }

  /** PKCS#7 unpadding: the last byte gives the count `n` in 1..16, and each of the last
      `n` bytes must equal `n`. */
  function Pkcs7Unpad(s: seq<byte>): (r: Option<seq<byte>>)
    ensures r.Some? ==> |r.value| < |s| && r.value == s[..|r.value|]
  {
    if s == [] then None
    else
      var n := s[|s| - 1] as int;
      if 1 <= n <= 16 && n <= |s| && forall i :: |s| - n <= i < |s| ==> s[i] as int == n
      then Some(s[..|s| - n])
      else None
  }

  lemma Pkcs7RoundTrip(p: seq<byte>)
    ensures Pkcs7Unpad(Pkcs7Pad(p)) == Some(p)
  {
    var s := Pkcs7Pad(p);
    assert s[|s| - 1] as int == Pkcs7PadCount(|p|);
  }
}
