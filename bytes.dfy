/// Byte-level vocabulary shared by the key-recovery model: the `unsigned char`
/// type, 16-byte AES blocks, lower-case hex digits and the byte/char conversions
/// `std::string` performs implicitly.
module Bytes {

  /** An `unsigned char`. */
  newtype byte = x: int | 0 <= x < 256

  /** The AES-128 block, key and IV size in bytes. */
  const BlockSize: nat := 16

  /** A 16-byte buffer: an AES-128 key, IV or cipher block. */
  type Block = s: seq<byte> | |s| == 16
    witness [0, 0, 0, 0, 0, 0, 0, 0, 0, 0, 0, 0, 0, 0, 0, 0]

  /** The optional result of a foreign call that may fail. */
  datatype Option<+T> = None | Some(value: T)

  /** The digit `std::hex` prints for a value 0..15 (lower case). */
  function HexDigit(v: int): (c: char)
    requires 0 <= v < 16
    ensures ('0' <= c <= '9') || ('a' <= c <= 'f')
    ensures v < 10 ==> c as int == '0' as int + v
    ensures 10 <= v ==> c as int == 'a' as int + v - 10
  {
    if v < 10 then ('0' as int + v) as char else ('a' as int + v - 10) as char
  }

  /** A byte as `std::setw(2) << std::setfill('0') << std::hex` prints it. */
  function HexPair(b: byte): (s: string)
    ensures |s| == 2
  {
    [HexDigit(b as int / 16), HexDigit(b as int % 16)]
  }

  /** The character a byte becomes when copied into a `std::string`. */
  function CharOf(b: byte): char
  {
    b as int as char
  }

  /** `std::string{bytes.begin(), bytes.end()}`: one character per byte, same values. */
  function BytesToString(bs: seq<byte>): (s: string)
    ensures |s| == |bs|
    ensures forall i :: 0 <= i < |bs| ==> s[i] as int == bs[i] as int
  {
    seq(|bs|, i requires 0 <= i < |bs| => CharOf(bs[i]))
  }

  /** The bytes of an ASCII string literal such as the salt `"saltysalt"`. */
  function AsciiBytes(s: string): (bs: seq<byte>)
    requires forall i :: 0 <= i < |s| ==> s[i] as int < 128
    ensures |bs| == |s|
    ensures forall i :: 0 <= i < |s| ==> bs[i] as int == s[i] as int
  {
    seq(|s|, i requires 0 <= i < |s| => s[i] as int as byte)
  }
}
