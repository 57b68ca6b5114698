/// `bepaald::bytesToPrintableString`: the diagnostic rendering of a byte buffer in
/// which printable bytes appear as themselves and every other byte as `0x..`.
module Printable {
  import opened Bytes
  import opened Seqs

  /** `std::isprint` in the "C" locale: the ASCII range 0x20..0x7E. Bytes from 0x80 on,
      which the source passes as negative `char`s, count as non-printable. */
  predicate IsPrint(b: byte): (p: bool)
    ensures p <==> ' ' <= CharOf(b) <= '~'
  {
    0x20 <= b <= 0x7E
  }

  /** What iteration `i` of the rendering loop appends: its separator, then its chunk. */
  function Piece(data: seq<byte>, i: nat): string
    requires i < |data|
  {
    Separator(data, i) + Chunk(data, i)
  }

  /** A space marks every change between printable and hex output. */
  function Separator(data: seq<byte>, i: nat): string
    requires i < |data|
  {
    var curIsHex := !IsPrint(data[i]);
    var prevWasHex := i > 0 && !IsPrint(data[i - 1]);
    if curIsHex != prevWasHex && i > 0 then " " else ""
  }

  /** The byte itself, or `0x..` followed by a space unless it is the last byte. */
  function Chunk(data: seq<byte>, i: nat): string
    requires i < |data|
  {
    if !IsPrint(data[i]) then "0x" + HexPair(data[i]) + (if i == |data| - 1 then "" else " ")
    else [CharOf(data[i])]
  }

  /** The text produced by the first `n` iterations. */
  function Rendering(data: seq<byte>, n: nat): string
    requires n <= |data|
  {
    if n == 0 then "" else Rendering(data, n - 1) + Piece(data, n - 1)
  }

  /** Each iteration appends between one and six characters. */
  lemma {:induction false} RenderingLength(data: seq<byte>, n: nat)
    requires n <= |data|
    ensures n <= |Rendering(data, n)| <= 6 * n
  {
    if n > 0 {
      RenderingLength(data, n - 1);
      assert 1 <= |Piece(data, n - 1)| <= 6;
    }
  }

  /** The whole rendering of `data`: never shorter than the buffer, at most six
      characters per byte, and the bytes themselves when all of them are printable. */
  function Render(data: seq<byte>): (r: string)
    ensures |data| <= |r| <= 6 * |data|
    ensures (forall i :: 0 <= i < |data| ==> IsPrint(data[i])) ==> r == BytesToString(data)
  {
    RenderingLength(data, |data|);
    if forall i :: 0 <= i < |data| ==> IsPrint(data[i]) then
      AllPrintableIsIdentity(data, |data|);
      assert data[..|data|] == data;
      Rendering(data, |data|)
    else
      Rendering(data, |data|)
  }

  /** `bytesToPrintableString(data, length)`: the loop carries `prevwashex` from one
      byte to the next and appends to an `ostringstream`. */
  method BytesToPrintableString(data: array<byte>, length: nat) returns (s: string)
    requires length <= data.Length
    ensures s == Render(data[..length])
  {
    ghost var d := data[..length];
    var prevWasHex := false;
    s := "";
    var i := 0;
    while i < length
      invariant 0 <= i <= length
      invariant s == Rendering(d, i)
      invariant prevWasHex == (i > 0 && !IsPrint(d[i - 1]))
    {
      ghost var before := s;
      assert d[i] == data[i];
      var curIsHex := !IsPrint(data[i]);
      if curIsHex != prevWasHex && i > 0 {
        s := s + " ";
      }
      ghost var separated := s;
      assert separated == before + Separator(d, i);
      if curIsHex {
        s := s + ("0x" + HexPair(data[i]) + (if i == length - 1 then "" else " "));
      } else {
        s := s + [CharOf(data[i])];
      }
      assert s == separated + Chunk(d, i);
      AppendPiece(before, Separator(d, i), Chunk(d, i));
      assert Rendering(d, i + 1) == before + Piece(d, i);
      prevWasHex := curIsHex;
      i := i + 1;
    }
  }

  lemma AppendPiece(before: string, sep: string, chunk: string)
    ensures before + sep + chunk == before + (sep + chunk)
  {
  }

  /** A buffer of printable bytes renders as itself, character for byte. */
  lemma {:induction false} AllPrintableIsIdentity(data: seq<byte>, n: nat)
    requires n <= |data|
    requires forall i :: 0 <= i < |data| ==> IsPrint(data[i])
    ensures Rendering(data, n) == BytesToString(data[..n])
  {
    if n > 0 {
      AllPrintableIsIdentity(data, n - 1);
      assert BytesToString(data[..n]) == BytesToString(data[..n - 1]) + [CharOf(data[n - 1])];
    }
  }

  /** Every character appended by iteration `i` is in the final text. */
  lemma {:induction false} PieceInRendering(data: seq<byte>, i: nat, n: nat, j: nat)
    requires i < n <= |data|
    requires j < |Piece(data, i)|
    ensures Piece(data, i)[j] in Rendering(data, n)
  {
    if i < n - 1 {
      PieceInRendering(data, i, n - 1, j);
      InLeft(Rendering(data, n - 1), Piece(data, n - 1), Piece(data, i)[j]);
    } else {
      InRight(Rendering(data, n - 1), Piece(data, i), j);
    }
  }

  /** A lone non-printable byte renders as `0x` and its two hex digits, with no space. */
  lemma LoneHexByte(b: byte)
    requires !IsPrint(b)
    ensures Render([b]) == "0x" + HexPair(b)
  {
    assert Render([b]) == Rendering([b], 0) + Piece([b], 0);
  }

  /** As soon as a buffer of two or more bytes holds a non-printable byte, its rendering
      holds a space: either a transition or the separator after a hex byte. */
  lemma MixedRenderingHasSpace(data: seq<byte>, k: nat)
    requires 2 <= |data| && k < |data| && !IsPrint(data[k])
    ensures ' ' in Render(data)
  {
    if k < |data| - 1 {
      var p := Piece(data, k);
      var at := if k > 0 && IsPrint(data[k - 1]) then 5 else 4;
      assert p[at] == ' ';
      PieceInRendering(data, k, |data|, at);
    } else {
      var p := Piece(data, k);
      if IsPrint(data[k - 1]) {
        assert p[0] == ' ';
        PieceInRendering(data, k, |data|, 0);
      } else {
        var q := Piece(data, k - 1);
        var at := if k - 1 > 0 && IsPrint(data[k - 2]) then 5 else 4;
        assert q[at] == ' ';
        PieceInRendering(data, k - 1, |data|, at);
      }
    }
  }
}
