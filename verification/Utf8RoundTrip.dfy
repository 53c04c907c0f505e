/** Converting to UTF-8 and back, and the other way round. */
module Utf8RoundTrip {
  import opened Bytes
  import opened Unicode
  import opened Utf8Text
  import opened Utf8Room
  import opened Utf8Encoder
  import opened Utf8Limits
  import opened Utf8Decoder

  /** The buffer sizes that are always enough: three bytes for a unit, one unit for a byte. */
  lemma {:induction false} ThreeBytesPerUnit(units: seq<Unit>)
    ensures |Utf8All(Codes(units))| <= 3 * |units|
    decreases |units|
  {
    if units != [] {
      var c := FirstCode(units);
      ThreeBytesPerUnit(units[|Utf16(c)|..]);
      assert Codes(units)[1..] == Codes(units[|Utf16(c)|..]);
    }
  }

  lemma {:induction false} OneUnitPerByte(bytes: seq<byte>, done: seq<Code>, n: nat)
    requires Decodes(bytes, done, n)
    ensures |Utf16All(done)| <= n
    decreases |done|
  {
    if done != [] {
      hide PieceLength, IsUtf8Char, Utf16;
      var p := PieceLength(bytes);
      OneUnitPerByte(bytes[p..], done[1..], n - p);
      PairNeedsFourBytes(bytes[..p]);
    }
  }

  lemma PairNeedsFourBytes(s: seq<byte>)
    requires IsPiece(s)
    ensures |Utf16(PieceCode(s))| <= |s|
  {
  }

  /** What is decoded from an encoding is what was encoded, and all of it. */
  lemma {:induction false} EncodingIsReadBack(chars: seq<Code>)
    requires AllScalars(chars)
    ensures var b := Utf8All(chars);
            AllCodes(b) == chars && PiecesLength(b, |chars|) == |b| && Written(b, |b|) == chars
            && |Utf16All(chars)| <= |b|
  {
    hide PieceLength, PieceCode, Utf8;
    var b := Utf8All(chars);
    EncodingDecodes(chars);
    DecodesAll(b, chars, |b|);
    NoPieceAtEnd(b);
    assert AllCodes(b[|b|..]) == [];
    OneUnitPerByte(b, chars, |b|);
    FitFits(chars, |b|);
  }

  /** Three bytes for a unit are place for all of a text, so that only an unpaired surrogate and the low 32 bits of the
      room left can keep it from being converted. */
  lemma {:induction false} ConvertsInTriple(units: seq<Unit>)
    ensures var codes, limit := Codes(units), 3 * |units|;
            var done := Converted(codes, true, 0, limit);
            && AllScalars(done)
            && (done == codes <==> IsWellFormed(units) && !StopsEarly(codes, true, 0, limit))
            && (|done| < |codes| && !StopsEarly(codes, true, 0, limit) ==> !IsScalar(codes[|done|]))
  {
    hide Codes, Converted, Convertible, StopsEarly, Utf8All;
    var codes, limit := Codes(units), 3 * |units|;
    ThreeBytesPerUnit(units);
    ConvertedIff(codes, true, 0, limit);
    EnoughPlace(codes, 0, limit);
    var done, fit := Converted(codes, true, 0, limit), Convertible(codes, true, 0, limit);
    assert forall i :: 0 <= i < |done| ==> done[i] == fit[i];
    assert fit == codes <==> IsWellFormed(units);
  }

  /** Encoding and decoding: a text comes back if and only if it is well formed and the encoder does not stop early,
      which it never does below 2^32 bytes; otherwise the part that was encoded does. */
  method EncodeThenDecode(units: seq<Unit>) returns (back: seq<Unit>)
    ensures back == Utf16All(Converted(Codes(units), true, 0, 3 * |units|)) && back <= units
    ensures back == units <==> IsWellFormed(units) && !StopsEarly(Codes(units), true, 0, 3 * |units|)
    ensures 3 * |units| < TWO32 ==> (back == units <==> IsWellFormed(units))
    ensures |back| < |units| && 3 * |units| < TWO32 ==> !IsScalar(FirstCode(units[|back|..]))
  {
    hide Codes, FirstCode, Utf8All, Utf16All, Decodes, PieceLength, PieceCode, AllScalars, Converted, StopsEarly;
    ghost var codes := Codes(units);
    ghost var done := Converted(codes, true, 0, 3 * |units|);
    ConvertsInTriple(units);
    if 3 * |units| < TWO32 {
      SmallLimitIsSafe(codes, true, 0, 3 * |units|);
    }
    CodesInverse(units);
    SameLength(codes, done);
    FirstNotConverted(units, done);
    var bytes := new byte[3 * |units|];
    var consumed, used := ToUTF8(true, units, bytes, 3 * |units|);
    EncodedFits(units, done);
    assert bytes[..used] == Utf8All(done);
    EncodingIsReadBack(done);
    var characters := new Unit[used];
    var taken, count := FromUTF8(bytes[..used], characters, used);
    back := characters[..count];
  }

  lemma {:induction false} EncodedFits(units: seq<Unit>, done: seq<Code>)
    requires done <= Codes(units)
    ensures |Utf8All(done)| <= 3 * |units|
  {
    hide Codes, Utf8All, Utf16All;
    ThreeBytesPerUnit(units);
    SameLength(Codes(units), done);
  }

  /** The character behind a part of a text is the code behind those of the part. */
  lemma {:induction false} FirstNotConverted(units: seq<Unit>, done: seq<Code>)
    requires done <= Codes(units)
    ensures |Utf16All(done)| <= |units|
    ensures |done| < |Codes(units)| ==>
              |Utf16All(done)| < |units| && FirstCode(units[|Utf16All(done)|..]) == Codes(units)[|done|]
    decreases |units|
  {
    hide FirstCode, Utf16;
    if units == [] {
    } else if done == [] {
      assert units[0..] == units;
    } else {
      CodesStep(units);
      var n := |Utf16(FirstCode(units))|;
      assert Codes(units)[1..] == Codes(units[n..]);
      CodeTakesSpace(FirstCode(units));
      FirstNotConverted(units[n..], done[1..]);
      var m := |Utf16All(done[1..])|;
      assert units[n..][m..] == units[n + m..];
    }
  }

  /** The encoder, with a limit of 2^32 and a character of two bytes, gives up at once. */
  method StopAtOnce() returns (consumed: nat, used: nat)
    ensures consumed == 0 && used == 0
  {
    StopsAtOnce();
    assert Codes([0x80]) == [0x80] by {
      assert [0x80][1..] == [];
    }
    var bytes := new byte[TWO32];
    consumed, used := ToUTF8(true, [0x80], bytes, TWO32);
  }

  /** So a text of 1431655766 units that starts with a character of three bytes does not come back. */
  lemma {:induction false} LongTextStopsAtOnce(units: seq<Unit>)
    requires |units| == 1431655766 && 0x800 <= units[0] < 0xD800
    ensures Converted(Codes(units), true, 0, 3 * |units|) == []
    ensures StopsEarly(Codes(units), true, 0, 3 * |units|)
  {
    var codes := Codes(units);
    assert codes[0] == units[0] && codes[..0] == [] && codes[..1] == [codes[0]];
    assert StopsEarlyAt(codes, true, 0, 3 * |units|, 0);
  }

  /** Decoding and encoding: any number of the pieces come back unless a lone 0xA9 was replaced. */
  lemma {:induction false} DecodeThenEncode(bytes: seq<byte>, count: nat)
    requires count <= |AllCodes(bytes)|
    ensures var codes := AllCodes(bytes)[..count];
            && Codes(Utf16All(codes)) == codes && IsWellFormed(Utf16All(codes))
            && (Utf8All(Codes(Utf16All(codes))) == bytes[..PiecesLength(bytes, count)] <==> Substitutions(bytes, count) == 0)
  {
    hide PieceLength, PieceCode, Utf8, Utf16, AllCodes;
    var codes, n := AllCodes(bytes)[..count], PiecesLength(bytes, count);
    PiecesDecode(bytes, count);
    DecodesBounds(bytes, codes, n);
    Utf16Inverse(codes);
    DecodesReencodes(bytes, codes, n);
  }

  /** No other part of the bytes comes back when a lone 0xA9 was replaced. */
  lemma {:induction false} SubstitutionShows(bytes: seq<byte>, done: seq<Code>, n: nat, m: nat)
    requires n <= |bytes| && m <= |bytes| && Decodes(bytes, done, n)
    ensures Utf8All(done) == bytes[..m] ==> Substitutions(bytes, |done|) == 0 && m == n
    decreases |done|
  {
    hide PieceLength, PieceCode, IsPiece, IsUtf8Char, Utf8, Utf8All, Substitutions, Decodes;
    if done == [] {
      NothingDecoded(bytes, n);
    } else if Utf8All(done) == bytes[..m] {
      var p := PieceLength(bytes);
      FirstPiece(bytes, done, n);
      PieceReencodes(bytes[..p]);
      ReplacementStart(bytes[..p]);
      var q := |Utf8(done[0])|;
      assert bytes[..m][..q] == Utf8(done[0]) && bytes[..m][q..] == Utf8All(done[1..]);
      assert bytes[..m][0] == bytes[..p][0];
      assert bytes[..m][q..] == bytes[q..][..m - q];
      SubstitutionShows(bytes[p..], done[1..], n - p, m - q);
    }
  }

  lemma NothingDecoded(bytes: seq<byte>, n: nat)
    ensures Substitutions(bytes, 0) == 0 && Utf8All([]) == [] && (Decodes(bytes, [], n) ==> n == 0)
  {
  }

  lemma FirstPiece(bytes: seq<byte>, done: seq<Code>, n: nat)
    requires Decodes(bytes, done, n) && done != [] && n <= |bytes|
    ensures var p := PieceLength(bytes);
            && 0 < p <= n && IsPiece(bytes[..p]) && PieceCode(bytes[..p]) == done[0] && Decodes(bytes[p..], done[1..], n - p)
            && Substitutions(bytes, |done|) == (if bytes[..p] == [COPYRIGHT] then 1 else 0) + Substitutions(bytes[p..], |done[1..]|)
    ensures Utf8All(done) == Utf8(done[0]) + Utf8All(done[1..])
  {
    hide PieceCode, Utf8;
  }

  lemma ReplacementStart(s: seq<byte>)
    requires IsPiece(s)
    ensures s != [] && Utf8(PieceCode(s)) != []
    ensures s == [COPYRIGHT] ==> Utf8(PieceCode(s))[0] != s[0]
  {
  }

  /** With any limit, what is written encodes the bytes reported as consumed if and only if none of the pieces written
      is a lone 0xA9 and no character comes where only one unit is left for it. */
  lemma {:induction false} OutputIsConsumed(bytes: seq<byte>, maxCharLen: nat)
    ensures var codes := Written(bytes, maxCharLen);
            Utf8All(codes) == bytes[..Consumed(bytes, maxCharLen)] <==>
              Substitutions(bytes, |codes|) == 0 && !LosesCharacter(bytes, maxCharLen)
  {
    hide PieceCode, PieceLength, Substitutions, LosesCharacter, AllCodes, Utf8All, PiecesLength;
    var codes := Written(bytes, maxCharLen);
    var n := PiecesLength(bytes, |codes|);
    assert codes == AllCodes(bytes)[..|codes|];
    PiecesDecode(bytes, |codes|);
    SubstitutionShows(bytes, codes, n, Consumed(bytes, maxCharLen));
    DecodesReencodes(bytes, codes, n);
    if LosesCharacter(bytes, maxCharLen) {
      LostTakesBytes(bytes, maxCharLen);
    }
  }

  /** A lost character is behind those written, and takes some of the bytes consumed. */
  lemma {:induction false} LostTakesBytes(bytes: seq<byte>, maxCharLen: nat)
    requires LosesCharacter(bytes, maxCharLen)
    ensures |Written(bytes, maxCharLen)| < |AllCodes(bytes)|
    ensures PiecesLength(bytes, |Written(bytes, maxCharLen)|) < Consumed(bytes, maxCharLen)
  {
    hide PieceCode, PieceLength, Utf16, Utf16All, AllCodes, FitPrefix, PiecesLength;
    var codes := AllCodes(bytes);
    var k :| 0 <= k < |codes| && 0x1_0000 <= codes[k] && |Utf16All(codes[..k])| + 1 == maxCharLen;
    PairIsTwo(codes[k]);
    FitIs(codes, k, maxCharLen);
    MorePieces(bytes, k);
  }

  lemma {:induction false} MorePieces(bytes: seq<byte>, count: nat)
    requires count < |AllCodes(bytes)|
    ensures PiecesLength(bytes, count) < PiecesLength(bytes, count + 1)
    decreases count
  {
    hide PieceCode, PieceLength;
    if 0 < count {
      MorePieces(bytes[PieceLength(bytes)..], count - 1);
    }
  }

  /** It happens: U+10000 and room for one unit. Four bytes are consumed and nothing is written. */
  lemma {:induction false} CharacterIsLost()
    ensures var b: seq<byte> := [0xF0, 0x90, 0x80, 0x80];
            LosesCharacter(b, 1) && Written(b, 1) == [] && Consumed(b, 1) == 4
  {
    hide PieceLength, PieceCode;
    var c: Code := 0x1_0000;
    assert Utf8All([c]) == Utf8(c) + Utf8All([]) == [0xF0, 0x90, 0x80, 0x80];
    EncodingIsReadBack([c]);
    assert [c][..0] == [];
    assert LosesCharacter(Utf8All([c]), 1);
  }

  method LoseCharacter() returns (consumed: nat, used: nat)
    ensures consumed == 4 && used == 0
  {
    hide Written, Consumed, LosesCharacter;
    CharacterIsLost();
    var characters := new Unit[1];
    consumed, used := FromUTF8([0xF0, 0x90, 0x80, 0x80], characters, 1);
  }
}
