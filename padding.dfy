/// The trailing-padding check of `decryptKey_linux_mac`. The number of padding bytes
/// is taken from the buffer length (`output_length % 16`, or 16 when that is zero),
/// not from the last byte as PKCS#7 does; the lemmas below compare the two rules.
module Padding {
  import opened Bytes
  import opened Cbc

  /** `padding ? padding : 16` with `padding = output_length % 16`. */
  function PadCount(length: nat): (n: nat)
    ensures 1 <= n <= 16 && (length - n) % 16 == 0
  {
    if length % 16 != 0 then length % 16 else 16
  }

  /** The check passes: the buffer is long enough (see the findings) and each of its
      last `PadCount` bytes equals `PadCount`. */
  predicate TailOk(s: seq<byte>): (ok: bool)
    ensures ok ==> 0 <= RealSize(|s|) < |s| && s[|s| - 1] as int == PadCount(|s|)
    ensures |s| == 0 ==> !ok
  {
    var n := PadCount(|s|);
    n <= |s| && forall i :: |s| - n <= i < |s| ==> s[i] as int == n
  }

  /** `realsize = output_length - (padding ? padding : 16)`: what is left of the buffer
      once the padding is stripped. */
  function RealSize(length: nat): (r: int)
    ensures r % 16 == 0 && length - 16 <= r < length
  {
    length - PadCount(length)
  }

  /** The padding loop over the `output` array. It stops at the first trailing byte that
      differs from the pad count. It refuses an empty buffer, the only one shorter than
      its pad count, for which the source would read `output[realsize + i]` at a
      negative index. */
  method CheckPadding(output: array<byte>) returns (ok: bool, realsize: int)
    ensures ok <==> TailOk(output[..])
    ensures realsize == RealSize(output.Length)
    ensures ok ==> 0 <= realsize < output.Length
  {
    var padding := output.Length % 16;
    var n := if padding != 0 then padding else 16;
    realsize := output.Length - n;
    if realsize < 0 {
      return false, realsize;
    }
    var i := 0;
    while i < n
      invariant 0 <= i <= n
      invariant forall k :: realsize <= k < realsize + i ==> output[k] as int == n
    {
      if output[realsize + i] as int != n {
        return false, realsize;
      }
      i := i + 1;
    }
    return true, realsize;
  }

  /** The rule never accepts what PKCS#7 would refuse, and where it accepts, both strip
      the same number of bytes. */
  lemma TailOkAgreesWithPkcs7(s: seq<byte>)
    requires TailOk(s)
    ensures Pkcs7Unpad(s) == Some(s[..RealSize(|s|)])
  {
    assert s[|s| - 1] as int == PadCount(|s|);
  }

  /** Changing any one of the checked trailing bytes to another value makes the check fail. */
  lemma SingleMutationRejected(s: seq<byte>, j: nat, v: byte)
    requires TailOk(s)
    requires RealSize(|s|) <= j < |s| && v != s[j]
    ensures !TailOk(s[j := v])
  {
    assert s[j := v][j] != s[j];
  }

  /** On a PKCS#7-padded buffer the rule accepts exactly when the message filled whole
      blocks, that is when PKCS#7 added a full block of `0x10`; it then strips exactly
      that block. Every shorter PKCS#7 padding (`0x01` .. `0x0f`) is refused. */
  lemma TailOkOnPkcs7Padded(p: seq<byte>)
    ensures TailOk(Pkcs7Pad(p)) <==> |p| % 16 == 0
    ensures |p| % 16 == 0 ==> RealSize(|Pkcs7Pad(p)|) == |p|
  {
    var s := Pkcs7Pad(p);
    assert PadCount(|s|) == 16;
    if |p| % 16 != 0 {
      assert s[|s| - 1] as int == Pkcs7PadCount(|p|) != 16;
    }
  }

  /** The 33-byte message of the OpenSSL transcript: PKCS#7 pads it with fifteen `0x0f`
      bytes to 48 bytes, which PKCS#7 unpads again but the rule refuses. */
  lemma ThirtyThreeByteMessageRefused(p: seq<byte>)
    requires |p| == 33
    ensures |Pkcs7Pad(p)| == 48 && Pkcs7Pad(p)[33..] == seq(15, _ => 0x0f as byte)
    ensures Pkcs7Unpad(Pkcs7Pad(p)) == Some(p)
    ensures !TailOk(Pkcs7Pad(p))
  {
    Pkcs7RoundTrip(p);
    TailOkOnPkcs7Padded(p);
  }

  /** The 32-byte message of the same transcript: a full block of `0x10` follows it,
      the rule accepts, and `realsize` is 32. */
  lemma ThirtyTwoByteMessageAccepted(p: seq<byte>)
    requires |p| == 32
    ensures |Pkcs7Pad(p)| == 48 && Pkcs7Pad(p)[32..] == seq(16, _ => 0x10 as byte)
    ensures TailOk(Pkcs7Pad(p)) && RealSize(48) == 32
    ensures Pkcs7Pad(p)[..RealSize(48)] == p
  {
    TailOkOnPkcs7Padded(p);
  }

  // The check as written, without the length guard.

  /** `realsize` as the source computes it is negative only for an empty buffer; the
      written loop then starts reading at `output[-16]`, before the start of the
      zero-byte array. That is the plaintext of a blob holding just the 3-byte header. */
  lemma AsWrittenEmptyBufferUnderruns(length: nat)
    ensures RealSize(length) < 0 <==> length == 0
    ensures RealSize(0) == -16
  {
  }
}
