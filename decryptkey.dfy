/// `decryptKey_linux_mac`: derive the AES key from the secret, hex-decode the stored
/// blob, warn on an unexpected version header, decrypt, check the trailing padding,
/// render the plaintext and pass it through the `[a-z0-9]` charset gate. An empty
/// string is the failure result, as in the source.
module DecryptKey {
  import opened Bytes
  import opened Hex
  import opened Printable
  import opened Cbc
  import opened Padding
  import ConfigKey

  /** The build target: `__APPLE__ && __MACH__`, or anything else ("linux"). */
  datatype Platform = Linux | Apple

  /** PBKDF2 iteration count: 1003 on macOS, 1 elsewhere. */
  function Iterations(platform: Platform): nat
  {
    if platform.Apple? then 1003 else 1
  }

  /** The expected version header: `"v10"` on macOS, `"v11"` elsewhere. */
  function VersionHeader(platform: Platform): (h: seq<byte>)
    ensures |h| == 3
  {
    if platform.Apple? then AsciiBytes("v10") else AsciiBytes("v11")
  }

  /** The 9-byte PBKDF2 salt `"saltysalt"`. */
  const Salt: seq<byte> := AsciiBytes("saltysalt")

  /** The derived key length in bytes (128 bits). */
  const KeyLength: nat := 16

  /** The CBC initialisation vector: 16 ASCII spaces. */
  const Iv: Block := [0x20, 0x20, 0x20, 0x20, 0x20, 0x20, 0x20, 0x20, 0x20, 0x20, 0x20, 0x20, 0x20, 0x20, 0x20, 0x20]

  /** `PKCS5_PBKDF2_HMAC_SHA1(password, salt, iterations, keylen)`; `None` when it does
      not return 1. A foreign primitive, passed in. */
  type Kdf = (string, seq<byte>, nat, nat) -> Option<Block>

  /** The key derived from `secret` with the fixed salt, iteration count and length. */
  function DerivedKey(platform: Platform, secret: string, kdf: Kdf): Option<Block>
  {
    kdf(secret, Salt, Iterations(platform), KeyLength)
  }

  /** The characters of `"abcdefghijklmnopqrstuvwxyz0123456789"`. */
  predicate IsKeyChar(c: char)
  {
    ('a' <= c <= 'z') || ('0' <= c <= '9')
  }

  /** `s.find_first_not_of("abc...xyz0123456789") == std::string::npos`. */
  predicate KeyCharsOnly(s: string)
  {
    forall i :: 0 <= i < |s| ==> IsKeyChar(s[i])
  }

  /** The padding check, rendering and charset gate applied to the decrypted buffer. */
  function CheckPlaintext(output: seq<byte>): (key: string)
    ensures !TailOk(output) ==> key == ""
    ensures key != "" ==> TailOk(output) && 0 < RealSize(|output|) && KeyCharsOnly(key)
    ensures key != "" && 2 <= RealSize(|output|) ==>
              key == BytesToString(output[..RealSize(|output|)])
  {
    if !TailOk(output) then ""
    else
      var x := output[..RealSize(|output|)];
      if !KeyCharsOnly(Render(x)) then ""
      else if |x| < 2 then Render(x)
      else GatePassedByLongRendering(x); Render(x)
  }

  /** What `decryptKey_linux_mac` returns when its decoded buffer holds `data`. The
      first three bytes (the version header) are never used. */
  function DecryptData(platform: Platform, secret: string, data: seq<byte>,
                       kdf: Kdf, aes: BlockCipher): (key: string)
    ensures DerivedKey(platform, secret, kdf).None? || |data| < 3 ==> key == ""
    ensures key != "" ==> 35 <= |data| && (|data| - 3) % 16 == 0 && KeyCharsOnly(key)
  {
    if DerivedKey(platform, secret, kdf).None? || |data| < 3 then ""
    else if CbcDecrypt(aes, DerivedKey(platform, secret, kdf).value, Iv, data[3..]).None? then ""
    else
      var output := CbcDecrypt(aes, DerivedKey(platform, secret, kdf).value, Iv, data[3..]).value;
      KeyNeedsTwoBlocks(output, CheckPlaintext(output));
      CheckPlaintext(output)
  }

  /** A key comes only out of a plaintext of at least two blocks: one of padding and
      one holding the key. */
  lemma KeyNeedsTwoBlocks(output: seq<byte>, key: string)
    requires |output| % 16 == 0 && key == CheckPlaintext(output)
    ensures key != "" ==> 32 <= |output|
  {
    if key != "" {
      assert 0 < RealSize(|output|) < |output|;
    }
  }

  /** `decryptKey_linux_mac(secret, encryptedkeystr)`. The buffer is sized from the
      unsanitised length and the decoder's result is ignored: when decoding fails the
      buffer keeps whatever it held, which the ghost `data` stands for. A blob too short
      for the header (or for one block of padding) fails instead of reading out of
      bounds. `headerWarning` is the printed header warning. */
  method DecryptKeyLinuxMac(platform: Platform, secret: string, encryptedKeyStr: string,
                            kdf: Kdf, aes: BlockCipher)
    returns (decryptedKey: string, headerWarning: bool, ghost data: seq<byte>)
    ensures |data| == |encryptedKeyStr| / 2
    ensures DecodeSucceeds(encryptedKeyStr, |encryptedKeyStr| / 2) ==>
              data == DecodePairs(Sanitize(encryptedKeyStr))
    ensures decryptedKey == DecryptData(platform, secret, data, kdf, aes)
    ensures headerWarning <==>
              DerivedKey(platform, secret, kdf).Some? && 3 <= |data| &&
              data[..3] != VersionHeader(platform)
  {
    var dataLength := |encryptedKeyStr| / 2;
    var derived := kdf(secret, Salt, Iterations(platform), KeyLength);
    if derived.None? {
      data := if DecodeSucceeds(encryptedKeyStr, dataLength)
              then DecodePairs(Sanitize(encryptedKeyStr))
              else seq(dataLength, _ => 0);
      return "", false, data;
    }
    var buffer := new byte[dataLength];
    var decoded := HexStringToBytes(encryptedKeyStr, buffer);  // result unused, as in the source
    data := buffer[..];
    if dataLength < 3 {
      return "", false, data;
    }
    headerWarning := buffer[..3] != VersionHeader(platform);
    var plain := CbcDecrypt(aes, derived.value, Iv, buffer[3..]);
    if plain.None? {
      return "", headerWarning, data;
    }
    var output := new byte[|plain.value|](i requires 0 <= i < |plain.value| => plain.value[i]);
    assert output[..] == plain.value;
    var ok, realsize := CheckPadding(output);
    if !ok {
      return "", headerWarning, data;
    }
    decryptedKey := BytesToPrintableString(output, realsize);
    if !KeyCharsOnly(decryptedKey) {
      decryptedKey := "";
    }
  }

  /** The version header only draws a warning: two blobs that differ in their first
      three bytes alone decrypt to the same result. */
  lemma HeaderMismatchOnlyWarns(platform: Platform, secret: string, data: seq<byte>,
                                other: seq<byte>, kdf: Kdf, aes: BlockCipher)
    requires 3 <= |data| && 3 <= |other| && data[3..] == other[3..]
    ensures DecryptData(platform, secret, data, kdf, aes) == DecryptData(platform, secret, other, kdf, aes)
  {
  }

  /** The charset gate on a rendering: it passes exactly for buffers of `[a-z0-9]` bytes
      and for a lone non-printable byte, whose rendering `0x..` holds only such
      characters. */
  lemma CharsetGateOnRendering(x: seq<byte>)
    ensures KeyCharsOnly(Render(x)) <==>
              (forall i :: 0 <= i < |x| ==> IsKeyChar(CharOf(x[i]))) || (|x| == 1 && !IsPrint(x[0]))
  {
    if forall i :: 0 <= i < |x| ==> IsPrint(x[i]) {
      AllPrintableIsIdentity(x, |x|);
      assert x[..|x|] == x;
    } else {
      var k :| 0 <= k < |x| && !IsPrint(x[k]);
      if |x| == 1 {
        assert x == [x[0]];
        LoneHexByte(x[0]);
        var r := Render(x);
        assert r == ['0', 'x', HexPair(x[0])[0], HexPair(x[0])[1]];
        assert KeyCharsOnly(r);
      } else {
        MixedRenderingHasSpace(x, k);
        assert !IsKeyChar(CharOf(x[k]));
      }
    }
  }

  /** A rendering of two or more bytes that passes the gate is the bytes themselves. */
  lemma GatePassedByLongRendering(x: seq<byte>)
    requires 2 <= |x| && KeyCharsOnly(Render(x))
    ensures Render(x) == BytesToString(x)
  {
    CharsetGateOnRendering(x);
    forall i | 0 <= i < |x|
      ensures IsPrint(x[i])
    {
      assert IsKeyChar(CharOf(x[i]));
    }
    AllPrintableIsIdentity(x, |x|);
    assert x[..|x|] == x;
  }

  /** On a whole number of blocks, the checks accept only a buffer ending in a full
      block of `0x10`, and the result is the rest of the buffer, character for byte:
      it is at least 16 bytes long, so a lone hex-rendered byte can never pass. */
  lemma CheckPlaintextOnBlocks(output: seq<byte>)
    requires |output| % 16 == 0
    requires CheckPlaintext(output) != ""
    ensures 32 <= |output|
    ensures forall i :: |output| - 16 <= i < |output| ==> output[i] == 0x10
    ensures CheckPlaintext(output) == BytesToString(output[..|output| - 16])
    ensures |CheckPlaintext(output)| % 16 == 0 && KeyCharsOnly(CheckPlaintext(output))
  {
    assert PadCount(|output|) == 16 && RealSize(|output|) == |output| - 16;
    var x := output[..|output| - 16];
    assert CheckPlaintext(output) == Render(x);
    assert |x| != 0;
    GatePassedByLongRendering(x);
  }

  /** A successful result is the plaintext without its final block of `0x10` padding.
      Because CBC without padding only yields whole blocks, the pad count is always 16
      and the key is a whole number of blocks long. */
  lemma AcceptedKeyIsPlaintextPrefix(platform: Platform, secret: string, data: seq<byte>,
                                     kdf: Kdf, aes: BlockCipher)
    requires DecryptData(platform, secret, data, kdf, aes) != ""
    ensures DerivedKey(platform, secret, kdf).Some? && 3 <= |data| && (|data| - 3) % 16 == 0
    ensures var plain := CbcChain(aes, DerivedKey(platform, secret, kdf).value, Iv, data[3..]);
            var r := DecryptData(platform, secret, data, kdf, aes);
            && 32 <= |plain|
            && (forall i :: |plain| - 16 <= i < |plain| ==> plain[i] == 0x10)
            && r == BytesToString(plain[..|plain| - 16])
            && |r| % 16 == 0
            && KeyCharsOnly(r)
  {
    var key := DerivedKey(platform, secret, kdf).value;
    var plain := CbcChain(aes, key, Iv, data[3..]);
    assert CbcDecrypt(aes, key, Iv, data[3..]) == Some(plain);
    CheckPlaintextOnBlocks(plain);
  }

  /** The bytes of a key made of `[a-z0-9]` characters. */
  function KeyBytes(k: string): (bs: seq<byte>)
    requires KeyCharsOnly(k)
    ensures |bs| == |k| && forall i :: 0 <= i < |k| ==> IsPrint(bs[i])
    ensures BytesToString(bs) == k
  {
    AsciiBytes(k)
  }

  /** Encrypting a `[a-z0-9]` key the way the vendor does (PKCS#7 padding, AES-128-CBC
      under the derived key with the fixed IV, any 3-byte header in front) and running
      the result through the decryptor recovers the key exactly when its length is a
      multiple of 16; any other length is refused by the padding rule. */
  lemma EncryptThenDecrypt(platform: Platform, secret: string, kdf: Kdf, key: Block,
                           encrypt: BlockCipher, aes: BlockCipher,
                           header: seq<byte>, k: string)
    requires DerivedKey(platform, secret, kdf) == Some(key)
    requires forall kk: Block, b: Block :: aes(kk, encrypt(kk, b)) == b
    requires |header| == 3
    requires KeyCharsOnly(k)
    ensures var data := header + CbcEncryptChain(encrypt, key, Iv, Pkcs7Pad(KeyBytes(k)));
            DecryptData(platform, secret, data, kdf, aes) == if |k| % 16 == 0 then k else ""
  {
    var bs := KeyBytes(k);
    var padded := Pkcs7Pad(bs);
    var data := header + CbcEncryptChain(encrypt, key, Iv, padded);
    assert data[3..] == CbcEncryptChain(encrypt, key, Iv, padded);
    CbcRoundTrip(encrypt, aes, key, Iv, padded);
    TailOkOnPkcs7Padded(bs);
    if |k| % 16 == 0 {
      assert padded[..RealSize(|padded|)] == bs;
      AllPrintableIsIdentity(bs, |bs|);
      assert bs[..|bs|] == bs;
    }
  }

  /** The empty-input overrun of the raw decoder is reachable from a configuration
      file: the line `"encryptedKey": "g"` matches the key pattern, the key `"g"`
      sizes a zero-byte buffer, and sanitising it leaves nothing, so the decoder is
      entered with `insize == 0` and `outsize == 0`. */
  lemma OneLetterKeyReachesEmptyDecode()
    ensures ConfigKey.Match(ConfigKey.KeyName + " " + "\"" + "g" + "\"") == Some("g")
    ensures |"g"| / 2 == 0 && |Sanitize("g")| == 0
    ensures DecodeSucceeds("g", |"g"| / 2)
  {
    ConfigKey.PlainLineMatches("g");
    assert Sanitize("g") == [] + Sanitize("g"[1..]);
  }

  /** A blob of fewer than three bytes is reachable from a configuration file: the line
      `"encryptedKey": "ab"` matches the key pattern and sizes a one-byte buffer, from
      which the source's header comparison reads three bytes. */
  lemma TwoLetterKeyReachesShortBlob(platform: Platform, secret: string, kdf: Kdf, aes: BlockCipher)
    ensures ConfigKey.Match(ConfigKey.KeyName + " " + "\"" + "ab" + "\"") == Some("ab")
    ensures DecodeSucceeds("ab", |"ab"| / 2) && DecodePairs(Sanitize("ab")) == [0xAB]
    ensures var data := DecodePairs(Sanitize("ab"));
            |data| - 3 == -2 && DecryptData(platform, secret, data, kdf, aes) == ""
  {
    ConfigKey.PlainLineMatches("ab");
    SanitizeLength("ab");
    assert PairToByte('a', 'b') == 0xAB;
  }

  /** A blob holding only its 3-byte header decrypts to an empty buffer, whose `realsize`
      as the source computes it is negative: the padding loop would start at `output[-16]`. */
  lemma HeaderOnlyBlobReachesEmptyPadding(platform: Platform, secret: string, data: seq<byte>,
                                          kdf: Kdf, aes: BlockCipher)
    requires DerivedKey(platform, secret, kdf).Some? && |data| == 3
    ensures CbcDecrypt(aes, DerivedKey(platform, secret, kdf).value, Iv, data[3..]) == Some([])
    ensures RealSize(0) == -16
    ensures DecryptData(platform, secret, data, kdf, aes) == ""
  {
    assert data[3..] == [];
  }
}
