/** What percent-encoding is (section 2.1 of RFC 3986), in so many characters, against the
    decoder and the encoder. */
module PercentCodes {
  import opened Memory
  import opened Octets
  import opened Uri

  /** A digit of value v, lower-case or upper-case. */
  ghost predicate IsDigitOf(d: byte, v: int) {
    0 <= v < 16 && (d as char == "0123456789abcdef"[v] || d as char == "0123456789ABCDEF"[v])
  }

  /** A byte that stands for itself, or one that is written as a percent sign and two digits. */
  datatype Piece = Bare(b: byte) | Escaped(b: byte, hi: byte, lo: byte)

  function PieceText(p: Piece): seq<byte> {
    match p
    case Bare(b) => [b]
    case Escaped(_, hi, lo) => [0x25, hi, lo]
  }

  function PiecesText(pieces: seq<Piece>): seq<byte> {
    if pieces == [] then [] else PieceText(pieces[0]) + PiecesText(pieces[1..])
  }

  function PiecesBytes(pieces: seq<Piece>, form: bool): seq<byte> {
    if pieces == [] then []
    else [if form && pieces[0] == Bare(0x2b) then 0x20 else pieces[0].b] + PiecesBytes(pieces[1..], form)
  }

  predicate StartsWithDigits(text: seq<byte>) {
    |text| >= 2 && text[0] as char in "0123456789abcdefABCDEF" && text[1] as char in "0123456789abcdefABCDEF"
  }

  /** The digits of an escape are those of its byte; a bare percent sign has no two digits
      behind it. */
  ghost predicate GoodPiece(p: Piece, behind: seq<byte>) {
    match p
    case Bare(b) => b == 0x25 ==> !StartsWithDigits(behind)
    case Escaped(b, hi, lo) => IsDigitOf(hi, b / 16) && IsDigitOf(lo, b % 16)
  }

  ghost predicate GoodPieces(pieces: seq<Piece>) {
    pieces != [] ==> GoodPiece(pieces[0], PiecesText(pieces[1..])) && GoodPieces(pieces[1..])
  }

  lemma {:induction false} DigitValue(d: byte, v: int)
    requires IsDigitOf(d, v)
    ensures IsHex(d) && HexValue(d) == v
  {
  }

  lemma {:induction false} HexIsDigit(c: byte)
    ensures IsHex(c) <==> c as char in "0123456789abcdefABCDEF"
  {
  }

  /** What the first piece stands for, and where the next begins. */
  lemma {:induction false} DecodesPiece(m: seq<byte>, i: nat, n: nat, form: bool, pieces: seq<Piece>) returns (next: nat)
    requires pieces != [] && GoodPieces(pieces) && Reads(m, i, PiecesText(pieces)) && n == i + |PiecesText(pieces)|
    ensures i < n <= |m| && DecodedByte(m, i, n, form) == PiecesBytes(pieces, form)[0] && next == NextAt(m, i, n)
    ensures Reads(m, next, PiecesText(pieces[1..])) && n == next + |PiecesText(pieces[1..])|
  {
    var one, rest := PieceText(pieces[0]), PiecesText(pieces[1..]);
    ReadsBoth(m, i, one, rest);
    assert m[i] == one[0];
    match pieces[0]
    case Bare(b) =>
      next := i + 1;
      if |rest| >= 2 {
        assert m[i + 1] == rest[0] && m[i + 2] == rest[1];
        HexIsDigit(rest[0]);
        HexIsDigit(rest[1]);
      }
    case Escaped(b, hi, lo) =>
      next := i + 3;
      assert m[i + 1] == one[1] && m[i + 2] == one[2];
      DigitValue(hi, b / 16);
      DigitValue(lo, b % 16);
  }

  lemma {:induction false} DecodesPieces(m: seq<byte>, i: nat, n: nat, form: bool, pieces: seq<Piece>, out: seq<byte>,
                                         full: seq<byte>)
    requires GoodPieces(pieces) && Reads(m, i, PiecesText(pieces)) && n == i + |PiecesText(pieces)|
    requires full == out + PiecesBytes(pieces, form)
    ensures DecodeOn(m, i, n, form, out) == full
    decreases |pieces|
  {
    if pieces != [] {
      var next := DecodesPiece(m, i, n, form, pieces);
      var more := out + [DecodedByte(m, i, n, form)];
      assert full == more + PiecesBytes(pieces[1..], form);
      DecodesPieces(m, next, n, form, pieces[1..], more, full);
    }
  }

  /** However a text is percent-encoded, with digits of either case, decoding gives the bytes
      back; in a form a plus sign gives a space; a percent sign without two digits behind it
      stands for itself. */
  lemma {:induction false} EveryEncodingDecodes(pieces: seq<Piece>, form: bool)
    requires GoodPieces(pieces)
    ensures Decode(PiecesText(pieces), form) == PiecesBytes(pieces, form)
  {
    DecodesPieces(PiecesText(pieces), 0, |PiecesText(pieces)|, form, pieces, [], PiecesBytes(pieces, form));
  }

  lemma {:induction false} EscapeIsPiece(hi: byte, lo: byte, behind: seq<byte>)
    requires IsHex(hi) && IsHex(lo)
    ensures GoodPiece(Escaped(16 * HexValue(hi) + HexValue(lo), hi, lo), behind)
  {
    HexOfDigit(hi);
    HexOfDigit(lo);
    assert (16 * HexValue(hi) + HexValue(lo)) / 16 == HexValue(hi);
  }

  lemma {:induction false} FirstPiece(text: seq<byte>) returns (p: Piece, rest: seq<byte>)
    requires text != []
    ensures text == PieceText(p) + rest && |rest| < |text| && GoodPiece(p, rest)
  {
    p, rest := Bare(text[0]), text[1..];
    if |text| >= 3 {
      HexIsDigit(text[1]);
      HexIsDigit(text[2]);
      if text[0] == 0x25 && IsHex(text[1]) && IsHex(text[2]) {
        EscapeIsPiece(text[1], text[2], text[3..]);
        p, rest := Escaped(16 * HexValue(text[1]) + HexValue(text[2]), text[1], text[2]), text[3..];
      }
    }
  }

  /** And every text is such an encoding of something. */
  lemma {:induction false} EveryTextIsEncoding(text: seq<byte>) returns (pieces: seq<Piece>)
    ensures GoodPieces(pieces) && PiecesText(pieces) == text
    decreases |text|
  {
    pieces := [];
    if text != [] {
      var p, rest := FirstPiece(text);
      pieces := EveryTextIsEncoding(rest);
      pieces := [p] + pieces;
    }
  }

  lemma {:induction false} HexOfDigit(d: byte)
    requires IsHex(d)
    ensures IsDigitOf(d, HexValue(d))
  {
  }

  /** A letter, a digit or one of ._-$,;~() as it is, and any other byte with lower-case digits. */
  function Spelled(c: byte): Piece {
    var ch := c as char;
    if 'a' <= ch <= 'z' || 'A' <= ch <= 'Z' || '0' <= ch <= '9' || ch in "._-$,;~()" then Bare(c)
    else Escaped(c, "0123456789abcdef"[c / 16] as byte, "0123456789abcdef"[c % 16] as byte)
  }

  function SpelledAll(v: seq<byte>): seq<Piece> {
    if v == [] then [] else [Spelled(v[0])] + SpelledAll(v[1..])
  }

  lemma {:induction false} EncodesByte(c: byte)
    ensures EncodeByte(c) == PieceText(Spelled(c))
  {
  }

  /** That is the encoding the encoder writes. */
  lemma {:induction false} EncodeSpells(v: seq<byte>)
    ensures Encode(v) == PiecesText(SpelledAll(v))
  {
    if v != [] {
      EncodesByte(v[0]);
      EncodeSpells(v[1..]);
    }
  }
}
