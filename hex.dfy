/// `bepaald::hexStringToBytes` (both overloads) and, as the reference encoder for
/// the round trip, `bepaald::bytesToHexString`.
module Hex {
  import opened Bytes

  /** The characters the sanitiser of the string overload keeps: `[0-9A-Fa-f]`. */
  predicate IsHexChar(c: char)
  {
    ('0' <= c <= '9') || ('A' <= c <= 'F') || ('a' <= c <= 'f')
  }

  /** The `charToInt` lambda. There is no test for `'a'..'f'`: every other character
      is treated as if it were one. It reads back the digit `std::hex` prints, in
      either case; the only other characters it maps into 0..15 are `'W'..'`'`. */
  function CharToInt(c: char): (v: int)
    ensures IsHexChar(c) ==> 0 <= v < 16
    ensures ('0' <= c <= '9' || 'a' <= c <= 'f') ==> HexDigit(v) == c
    ensures 'A' <= c <= 'F' ==> HexDigit(v) as int == c as int + ('a' as int - 'A' as int)
    ensures !IsHexChar(c) && 0 <= v < 16 ==> 'W' <= c <= '`'
  {
    if '0' <= c <= '9' then c as int - '0' as int
    else if 'A' <= c <= 'F' then c as int - 'A' as int + 10
    else c as int - 'a' as int + 10
  }

  /** The value of a hex digit, the `v` of the decoding equation. */
  function DigitValue(c: char): (v: int)
    requires IsHexChar(c)
    ensures 0 <= v < 16
    ensures CharToInt(c) == v
  {
    CharToInt(c)
  }

  /** One output byte: the `int` `charToInt(hi) * 16 + charToInt(lo)` stored into an
      `unsigned char`, which keeps it modulo 256. On two hex digits no reduction happens. */
  function PairToByte(hi: char, lo: char): (b: byte)
    ensures IsHexChar(hi) && IsHexChar(lo) ==> b as int == 16 * CharToInt(hi) + CharToInt(lo)
  {
    ((CharToInt(hi) * 16 + CharToInt(lo)) % 256) as byte
  }

  lemma NibbleSplit(hi: int, lo: int)
    requires 0 <= hi < 16 && 0 <= lo < 16
    ensures (hi * 16 + lo) / 16 == hi && (hi * 16 + lo) % 16 == lo
  {
  }

  /** Rendering the byte of two hex digits gives them back, lower-cased. */
  lemma PairRendersBack(hi: char, lo: char)
    requires IsHexChar(hi) && IsHexChar(lo)
    ensures HexPair(PairToByte(hi, lo)) == [HexDigit(CharToInt(hi)), HexDigit(CharToInt(lo))]
  {
    NibbleSplit(CharToInt(hi), CharToInt(lo));
  }

  /** The bytes the raw overload writes: byte `k` from characters `2k` and `2k+1`. */
  function DecodePairs(s: string): (bs: seq<byte>)
    requires |s| % 2 == 0
    ensures |bs| == |s| / 2
  {
    seq(|s| / 2, k requires 0 <= k < |s| / 2 => PairToByte(s[2 * k], s[2 * k + 1]))
  }

  /** The raw overload `hexStringToBytes(in, insize, out, outsize)`, with `insize == |input|`
      and `outsize == out.Length`. It refuses an odd input or an output of the wrong size
      and then writes nothing; otherwise it fills `out` pair by pair through `outpos`.
      The loop guard is `i + 1 < insize`; the source's `i < insize - 1` on a `uint64_t`
      differs only for `insize == 0` (see `AsWrittenGuard`). */
  method HexStringToBytesRaw(input: string, out: array<byte>) returns (ok: bool)
    modifies out
    ensures ok <==> |input| % 2 == 0 && out.Length == |input| / 2
    ensures ok ==> out[..] == DecodePairs(input)
    ensures !ok ==> out[..] == old(out[..])
  {
    if |input| % 2 != 0 || out.Length != |input| / 2 {
      return false;
    }
    var outpos := 0;
    var i := 0;
    while i + 1 < |input|
      invariant 0 <= i <= |input| && i % 2 == 0
      invariant outpos == i / 2
      invariant forall k :: 0 <= k < outpos ==> out[k] == PairToByte(input[2 * k], input[2 * k + 1])
    {
      out[outpos] := PairToByte(input[i], input[i + 1]);
      outpos := outpos + 1;
      i := i + 2;
    }
    return true;
  }

  /** The sanitising step of the string overload (`std::remove_if` + `erase`): every
      character outside `[0-9A-Fa-f]` is deleted, the rest keep their order. */
  function Sanitize(s: string): (r: string)
    ensures |r| <= |s|
    ensures forall i :: 0 <= i < |r| ==> IsHexChar(r[i])
  {
    if s == [] then []
    else (if IsHexChar(s[0]) then [s[0]] else []) + Sanitize(s[1..])
  }

  /** Number of characters the sanitiser deletes. */
  function NonHexCount(s: string): nat
  {
    if s == [] then 0 else (if IsHexChar(s[0]) then 0 else 1) + NonHexCount(s[1..])
  }

  lemma {:induction false} SanitizeLength(s: string)
    ensures |Sanitize(s)| + NonHexCount(s) == |s|
    ensures NonHexCount(s) == 0 <==> forall i :: 0 <= i < |s| ==> IsHexChar(s[i])
    ensures NonHexCount(s) == 0 ==> Sanitize(s) == s
  {
    if s != [] {
      SanitizeLength(s[1..]);
      assert forall i :: 1 <= i < |s| ==> s[i] == s[1..][i - 1];
    }
  }

  /** Sanitising distributes over concatenation: kept characters keep their order. */
  lemma {:induction false} SanitizeAppend(a: string, b: string)
    ensures Sanitize(a + b) == Sanitize(a) + Sanitize(b)
  {
    if a == [] {
      assert a + b == b;
    } else {
      assert (a + b)[1..] == a[1..] + b;
      SanitizeAppend(a[1..], b);
    }
  }

  /** When the string overload succeeds for an output of `outsize` bytes. */
  predicate DecodeSucceeds(s: string, outsize: nat)
  {
    |Sanitize(s)| % 2 == 0 && outsize == |Sanitize(s)| / 2
  }

  /** The string overload `hexStringToBytes(in, out, outsize)`: sanitise a copy, then
      decode it with the raw overload. */
  method HexStringToBytes(input: string, out: array<byte>) returns (ok: bool)
    modifies out
    ensures ok <==> DecodeSucceeds(input, out.Length)
    ensures ok ==> out[..] == DecodePairs(Sanitize(input))
    ensures !ok ==> out[..] == old(out[..])
  {
    var sanitized := Sanitize(input);
    ok := HexStringToBytesRaw(sanitized, out);
  }

  /** `decryptKey_linux_mac` sizes the buffer from the unsanitised length, `|s| / 2`.
      Decoding then succeeds exactly when nothing is stripped from an even-length string,
      or exactly one character is stripped from an odd-length one. */
  lemma DecodeSucceedsUnsanitisedSize(s: string)
    ensures DecodeSucceeds(s, |s| / 2) <==>
              (|s| % 2 == 0 && NonHexCount(s) == 0) || (|s| % 2 == 1 && NonHexCount(s) == 1)
  {
    SanitizeLength(s);
  }

  // The reference encoder: bytesToHexString.

  /** Two hex digits per byte, no separators. */
  function HexDigits(d: seq<byte>): (s: string)
    ensures |s| == 2 * |d|
  {
    if d == [] then [] else HexPair(d[0]) + HexDigits(d[1..])
  }

  /** The digit part of `bytesToHexString`: two digits per byte, a space after every
      byte except the last. */
  function HexBody(d: seq<byte>): string
  {
    if d == [] then []
    else HexPair(d[0]) + (if |d| == 1 then "" else " ") + HexBody(d[1..])
  }

  /** The layout of the digit part: byte `k` is printed at `3k`, and a single space
      follows every byte except the last. */
  lemma {:induction false} HexBodyLayout(d: seq<byte>)
    ensures |HexBody(d)| == if d == [] then 0 else 3 * |d| - 1
    ensures forall k :: 0 <= k < |d| ==> HexBody(d)[3 * k..3 * k + 2] == HexPair(d[k])
    ensures forall k :: 0 <= k < |d| - 1 ==> HexBody(d)[3 * k + 2] == ' '
  {
    if d != [] {
      var s := HexBody(d);
      var rest := HexBody(d[1..]);
      HexBodyLayout(d[1..]);
      if |d| == 1 {
        assert s == HexPair(d[0]) + rest;
      } else {
        assert s == HexPair(d[0]) + [' '] + rest;
        forall k | 1 <= k < |d|
          ensures s[3 * k..3 * k + 2] == HexPair(d[k])
        {
          assert s[3 * k..3 * k + 2] == rest[3 * (k - 1)..3 * (k - 1) + 2];
          assert d[k] == d[1..][k - 1];
        }
        forall k | 1 <= k < |d| - 1
          ensures s[3 * k + 2] == ' '
        {
          assert s[3 * k + 2] == rest[3 * (k - 1) + 2];
        }
      }
    }
  }

  /** `bytesToHexString(data, length)`: the prefix `"(hex:) "`, then byte `k` as two
      digits at `7 + 3k`, the bytes separated by single spaces. */
  function BytesToHexString(d: seq<byte>): (s: string)
    ensures |s| == 7 + (if d == [] then 0 else 3 * |d| - 1)
    ensures s[..7] == "(hex:) "
    ensures forall k :: 0 <= k < |d| ==> s[7 + 3 * k..9 + 3 * k] == HexPair(d[k])
    ensures forall k :: 0 <= k < |d| - 1 ==> s[9 + 3 * k] == ' '
  {
    HexBodyLayout(d);
    var s := "(hex:) " + HexBody(d);
    assert forall k :: 0 <= k < |d| ==> s[7 + 3 * k..9 + 3 * k] == HexBody(d)[3 * k..3 * k + 2];
    s
  }

  lemma HexPairDigits(b: byte)
    ensures IsHexChar(HexPair(b)[0]) && IsHexChar(HexPair(b)[1])
    ensures PairToByte(HexPair(b)[0], HexPair(b)[1]) == b
  {
  }

  lemma SanitizeHexPair(b: byte)
    ensures Sanitize(HexPair(b)) == HexPair(b)
  {
    HexPairDigits(b);
    SanitizeLength(HexPair(b));
  }

  lemma {:induction false} SanitizeHexBody(d: seq<byte>)
    ensures Sanitize(HexBody(d)) == HexDigits(d)
  {
    if d != [] {
      var sep: string := if |d| == 1 then "" else " ";
      var rest := HexBody(d[1..]);
      assert HexBody(d) == HexPair(d[0]) + (sep + rest);
      SanitizeAppend(HexPair(d[0]), sep + rest);
      SanitizeAppend(sep, rest);
      assert Sanitize(sep) == [];
      SanitizeHexPair(d[0]);
      SanitizeHexBody(d[1..]);
      calc {
        Sanitize(HexBody(d));
        Sanitize(HexPair(d[0])) + Sanitize(sep + rest);
        HexPair(d[0]) + (Sanitize(sep) + Sanitize(rest));
        { assert Sanitize(sep) + Sanitize(rest) == Sanitize(rest); }
        HexPair(d[0]) + HexDigits(d[1..]);
      }
    }
  }

  lemma {:induction false} HexDigitsAt(d: seq<byte>, k: nat)
    requires k < |d|
    ensures HexDigits(d)[2 * k] == HexPair(d[k])[0] && HexDigits(d)[2 * k + 1] == HexPair(d[k])[1]
  {
    if k > 0 {
      HexDigitsAt(d[1..], k - 1);
    }
  }

  lemma DecodeHexDigits(d: seq<byte>)
    ensures DecodePairs(HexDigits(d)) == d
  {
    Halves(|d|);
    forall k | 0 <= k < |d|
      ensures DecodePairs(HexDigits(d))[k] == d[k]
    {
      HexDigitsAt(d, k);
      DecodedPairAt(HexDigits(d), d[k], k);
    }
  }

  /** A digit pair at position `2k` decodes to byte `k`. */
  lemma DecodedPairAt(s: string, b: byte, k: nat)
    requires |s| % 2 == 0 && 2 * k + 1 < |s|
    requires s[2 * k] == HexPair(b)[0] && s[2 * k + 1] == HexPair(b)[1]
    ensures DecodePairs(s)[k] == b
  {
    HexPairDigits(b);
  }

  lemma Halves(n: nat)
    ensures (2 * n) % 2 == 0 && (2 * n) / 2 == n
  {
  }

  /** Decoding inverts the digit rendering of `bytesToHexString`: the spaces are stripped
      by the sanitiser and every digit pair comes back as its byte. */
  lemma HexRoundTrip(d: seq<byte>)
    ensures DecodeSucceeds(HexBody(d), |d|)
    ensures DecodePairs(Sanitize(HexBody(d))) == d
  {
    SanitizeHexBody(d);
    DecodeHexDigits(d);
  }

  /** With the `"(hex:) "` prefix the round trip fails: the prefix holds the hex digit
      `e`, so the sanitised string has odd length and decoding refuses it. */
  lemma PrefixedRenderingDoesNotDecode(d: seq<byte>, outsize: nat)
    ensures Sanitize(BytesToHexString(d)) == "e" + HexDigits(d)
    ensures !DecodeSucceeds(BytesToHexString(d), outsize)
  {
    SanitizeAppend("(hex:) ", HexBody(d));
    SanitizeHexBody(d);
    assert Sanitize("(hex:) ") == "e";
  }

  // The loop guard as written.

  const Uint64Modulus: int := 0x1_0000_0000_0000_0000

  /** The guard `i < insize - 1` as the source writes it: `insize` is a `uint64_t`, so
      the subtraction wraps around modulo 2^64. */
  predicate AsWrittenGuard(i: nat, insize: nat)
    requires insize < Uint64Modulus
  {
    i < (insize - 1) % Uint64Modulus
  }

  /** For every non-empty input the written guard and the model's guard agree. */
  lemma AsWrittenGuardAgrees(i: nat, insize: nat)
    requires 0 < insize < Uint64Modulus
    ensures AsWrittenGuard(i, insize) <==> i + 1 < insize
  {
  }

  /** For an empty input with `outsize == 0` the size check passes, and the written
      guard still admits the first iteration, which stores into `out[0]` of a
      zero-byte buffer: an out-of-bounds write. */
  lemma AsWrittenEmptyInputOverruns()
    ensures var insize, outsize := 0, 0;
      insize % 2 == 0 && outsize == insize / 2 && AsWrittenGuard(0, insize) && !(0 < outsize)
  {
  }
}
