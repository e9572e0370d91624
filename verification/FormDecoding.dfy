/** What percent decoding means, from the form encoding itself: which texts spell which values. */
module FormDecoding {
  import opened Octets
  import opened FormBody

  /** A hexadecimal digit for `n`, in either case. */
  predicate DigitOf(c: octet, n: nat) {
    if n < 10 then c == 48 + n else n < 16 && (c == 65 + (n - 10) || c == 97 + (n - 10))
  }

  /** A piece of text that stands for one byte: the byte itself, a plus for a space, or an escape
      of any byte but NUL. */
  predicate Spells(piece: bytes, c: octet) {
    || (piece == [c] && c != 37 && c != 43)
    || (piece == [43] && c == 32)
    || (|piece| == 3 && piece[0] == 37 && c != 0 && DigitOf(piece[1], c / 16) && DigitOf(piece[2], c % 16))
  }

  predicate SpellsAll(pieces: seq<bytes>, value: bytes) {
    |pieces| == |value| && forall i :: 0 <= i < |value| ==> Spells(pieces[i], value[i])
  }

  function Concat(pieces: seq<bytes>): bytes {
    if pieces == [] then [] else pieces[0] + Concat(pieces[1..])
  }

  ghost predicate Spelling(text: bytes, value: bytes) {
    exists pieces :: SpellsAll(pieces, value) && Concat(pieces) == text
  }

  lemma HexValueExact(c: octet, n: nat)
    ensures HexValue(c) == Some(n) <==> DigitOf(c, n)
    ensures HexValue(c).Some? ==> HexValue(c).value < 16
  {
  }

  lemma EscapeValue(piece: bytes, c: octet)
    requires |piece| == 3
    ensures HexValue(piece[1]).Some? && HexValue(piece[2]).Some? && HexByte(piece[1], piece[2]) == c <==>
            DigitOf(piece[1], c / 16) && DigitOf(piece[2], c % 16)
  {
    hide DigitOf, HexValue;
    HexValueExact(piece[1], c / 16);
    HexValueExact(piece[2], c % 16);
  }

  /** A piece in front decodes to its byte in front. */
  lemma PieceDecodes(piece: bytes, c: octet, rest: bytes)
    requires Spells(piece, c)
    ensures Decoded(piece + rest) == (if Decoded(rest).None? then None else Some([c] + Decoded(rest).value))
  {
    hide DigitOf, HexValue, HexByte;
    var text := piece + rest;
    if |piece| == 1 {
      assert text[1..] == rest;
    } else {
      EscapeValue(piece, c);
      assert text[3..] == rest && text[1] == piece[1] && text[2] == piece[2];
    }
  }

  /** The piece that a text which decodes begins with. */
  lemma FirstPiece(text: bytes) returns (piece: bytes, rest: bytes)
    requires text != [] && Decoded(text).Some?
    ensures text == piece + rest && |rest| < |text| && Decoded(rest).Some?
    ensures Decoded(text).value == [Decoded(text).value[0]] + Decoded(rest).value
    ensures Spells(piece, Decoded(text).value[0])
  {
    hide DigitOf, HexValue, HexByte;
    if text[0] == PERCENT {
      piece, rest := text[..3], text[3..];
      EscapeValue(piece, HexByte(text[1], text[2]));
    } else {
      piece, rest := text[..1], text[1..];
    }
  }

  lemma {:induction false} DecodedIsSpelled(text: bytes) returns (pieces: seq<bytes>)
    requires Decoded(text).Some?
    ensures SpellsAll(pieces, Decoded(text).value) && Concat(pieces) == text
    decreases |text|
  {
    hide Spells;
    if text == [] {
      pieces := [];
    } else {
      hide Decoded;
      var piece, rest := FirstPiece(text);
      var more := DecodedIsSpelled(rest);
      pieces := [piece] + more;
      assert pieces[1..] == more;
    }
  }

  lemma {:induction false} SpelledDecodes(pieces: seq<bytes>, value: bytes)
    requires SpellsAll(pieces, value)
    ensures Decoded(Concat(pieces)) == Some(value)
    decreases |pieces|
  {
    hide Spells;
    if pieces != [] {
      hide Decoded;
      SpelledDecodes(pieces[1..], value[1..]);
      PieceDecodes(pieces[0], value[0], Concat(pieces[1..]));
      assert value == [value[0]] + value[1..];
    }
  }

  /** A text decodes to a value exactly when it spells it, piece by piece. */
  lemma DecodedExact(text: bytes, value: bytes)
    ensures Decoded(text) == Some(value) <==> Spelling(text, value)
  {
    hide Decoded, SpellsAll, Concat;
    if Decoded(text) == Some(value) {
      var pieces := DecodedIsSpelled(text);
    }
    forall pieces | SpellsAll(pieces, value) && Concat(pieces) == text ensures Decoded(text) == Some(value) {
      SpelledDecodes(pieces, value);
    }
  }

  /** A body is well encoded exactly when it holds no NUL and spells some value. */
  lemma EncodingExact(text: bytes)
    ensures ValidEscapes(text) <==> 0 !in text && exists value :: Spelling(text, value)
  {
    hide Decoded, ValidEscapes, Spelling;
    EscapesDecode(text);
    if Decoded(text).Some? {
      DecodedExact(text, Decoded(text).value);
    }
    forall value | Spelling(text, value) ensures Decoded(text).Some? {
      DecodedExact(text, value);
    }
  }

  lemma {:induction false} EscapesDecode(text: bytes)
    ensures ValidEscapes(text) <==> 0 !in text && Decoded(text).Some?
    decreases |text|
  {
    hide HexValue;
    if text != [] {
      if text[0] != PERCENT {
        EscapesDecode(text[1..]);
        assert text == [text[0]] + text[1..];
      } else if |text| >= 3 {
        EscapesDecode(text[3..]);
        HexIsNotNul(text[1]);
        HexIsNotNul(text[2]);
        assert text == [text[0], text[1], text[2]] + text[3..];
      }
    }
  }

  lemma HexIsNotNul(c: octet)
    ensures HexValue(c).Some? ==> c != 0
  {
  }
}
