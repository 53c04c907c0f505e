/** Single bytes, and the examples of section 7 of RFC 3629. */
module Utf8Examples {
  import opened Bytes
  import opened Unicode
  import opened Utf8Room
  import opened Utf8Encoder
  import opened Utf8Text
  import opened Utf8Limits
  import opened Utf8Decoder
  import opened Utf8RoundTrip

  /** Of the single bytes ASCII and 0xA9 are decoded, the latter to U+FFFD. */
  lemma LoneByte(b: byte)
    ensures IsPiece([b]) <==> b < 0x80 || b == 0xA9
    ensures IsPiece([b]) ==> PieceCode([b]) == if b < 0x80 then b else 0xFFFD
  {
  }

  lemma {:induction false} CopyrightIsReplaced()
    ensures Written([0xA9], 1) == [0xFFFD] && Consumed([0xA9], 1) == 1
  {
    hide FitPrefix, PieceCode;
    LoneByte(0xA9);
    var b: seq<byte> := [0xA9];
    assert b[..1] == b && b[1..] == [];
    PieceIsUnique(b, 1);
    assert AllCodes([]) == [];
    var codes: seq<Code> := [0xFFFD];
    assert AllCodes(b) == codes;
    assert codes[..1] == codes && Utf16All(codes[1..]) == [] && codes[..0] == [];
    FitIs(codes, 1, 1);
    assert !LosesCharacter(b, 1);
    assert PiecesLength(b, 1) == 1 + PiecesLength(b[1..], 0);
  }

  /** The decoder, called with a lone 0xA9. */
  method DecodeCopyright() returns (units: seq<Unit>, consumed: nat)
    ensures units == [0xFFFD] && consumed == 1
  {
    hide Written, Consumed;
    CopyrightIsReplaced();
    var characters := new Unit[1];
    var used;
    consumed, used := FromUTF8([0xA9], characters, 1);
    assert Utf16All([0xFFFD]) == [0xFFFD] + Utf16All([]);
    units := characters[..used];
  }

  /** "A<NOT IDENTICAL TO><ALPHA>." and U+FEFF U+233B4. */
  lemma {:induction false} Section7()
    ensures Utf8All([0x41, 0x2262, 0x0391, 0x2E]) == [0x41, 0xE2, 0x89, 0xA2, 0xCE, 0x91, 0x2E]
    ensures Utf8All([0xFEFF, 0x2_33B4]) == [0xEF, 0xBB, 0xBF, 0xF0, 0xA3, 0x8E, 0xB4]
    ensures Utf16All([0xFEFF, 0x2_33B4]) == [0xFEFF, 0xD84C, 0xDFB4]
  {
    var a, b: seq<Code> := [0x41, 0x2262, 0x0391, 0x2E], [0xFEFF, 0x2_33B4];
    assert a[1..][1..][1..] == [0x2E] && a[1..][1..] == [0x0391, 0x2E] && a[1..] == [0x2262, 0x0391, 0x2E];
    assert Utf8All([0x2E]) == [0x2E];
    assert Utf8All([0x0391, 0x2E]) == [0xCE, 0x91] + Utf8All([0x2E]);
    assert Utf8All([0x2262, 0x0391, 0x2E]) == [0xE2, 0x89, 0xA2] + Utf8All([0x0391, 0x2E]);
    assert b[1..] == [0x2_33B4];
    assert Utf8All([0x2_33B4]) == [0xF0, 0xA3, 0x8E, 0xB4] && Utf16All([0x2_33B4]) == [0xD84C, 0xDFB4];
  }

  /** The encoder and the decoder, called with the second example, in which a character takes two units. */
  method EncodeAndDecode() returns (bytes: seq<byte>, units: seq<Unit>)
    ensures bytes == [0xEF, 0xBB, 0xBF, 0xF0, 0xA3, 0x8E, 0xB4] && units == [0xFEFF, 0xD84C, 0xDFB4]
  {
    hide Utf8All, Utf16All, Codes, FirstCode, Converted, Decodes, PieceLength, PieceCode;
    Section7();
    var codes: seq<Code> := [0xFEFF, 0x2_33B4];
    Utf16Inverse(codes);
    SmallLimitIsSafe(codes, true, 0, 7);
    ConvertedIff(codes, true, 0, 7);
    EnoughPlace(codes, 0, 7);
    assert Converted(codes, true, 0, 7) == codes;
    var buffer := new byte[7];
    var consumed, used := ToUTF8(true, [0xFEFF, 0xD84C, 0xDFB4], buffer, 7);
    bytes := buffer[..used];
    EncodingIsReadBack(codes);
    var characters := new Unit[3];
    consumed, used := FromUTF8(bytes, characters, 3);
    units := characters[..used];
  }
}
