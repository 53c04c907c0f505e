/** What the strict decoder accepts: legal sequences, and the lone byte 0xA9. */
module Utf8Text {
  import opened Bytes
  import opened Unicode

  const COPYRIGHT: byte := 0xA9
  const REPLACEMENT: Code := 0xFFFD

  /** How many bytes are supposed to follow a first byte. */
  function TrailingBytes(head: byte): (n: nat) {
    if head < 0xC0 then 0
    else if head < 0xE0 then 1
    else if head < 0xF0 then 2
    else if head < 0xF8 then 3
    else if head < 0xFC then 4
    else 5
  }

  predicate IsPiece(s: seq<byte>) {
    IsUtf8Char(s) || s == [COPYRIGHT]
  }

  function PieceCode(s: seq<byte>): (c: Code)
    requires IsPiece(s)
    ensures IsScalar(c)
  {
    if IsUtf8Char(s) then CodeOf(s) else REPLACEMENT
  }

  /** A sequence of pieces. */
  ghost predicate IsText(b: seq<byte>)
    decreases |b|
  {
    b == [] || exists n :: 0 < n <= |b| && IsPiece(b[..n]) && IsText(b[n..])
  }

  /** The length of the piece in front, or 0 if there is none. */
  function PieceLength(b: seq<byte>): (n: nat)
    ensures n <= |b| && (0 < n ==> IsPiece(b[..n]))
  {
    if b == [] then 0
    else
      var n := TrailingBytes(b[0]) + 1;
      if n <= |b| && IsUtf8Char(b[..n]) then n else if b[0] == COPYRIGHT then 1 else 0
  }

  /** No piece is the beginning of another. */
  lemma PieceIsUnique(b: seq<byte>, n: nat)
    requires 0 < n <= |b| && IsPiece(b[..n])
    ensures PieceLength(b) == n
  {
    assert b[..n][0] == b[0];
  }

  /** `done` are the codes of the pieces that make up the first `n` bytes. */
  ghost predicate Decodes(b: seq<byte>, done: seq<Code>, n: nat)
    decreases |done|
  {
    if done == [] then n == 0
    else
      var p := PieceLength(b);
      0 < p <= n && PieceCode(b[..p]) == done[0] && Decodes(b[p..], done[1..], n - p)
  }

  lemma {:induction false} DecodesBounds(b: seq<byte>, done: seq<Code>, n: nat)
    requires Decodes(b, done, n)
    ensures n <= |b| && AllScalars(done)
    decreases |done|
  {
    if done != [] {
      var p := PieceLength(b);
      DecodesBounds(b[p..], done[1..], n - p);
      assert forall i :: 0 <= i < |done| ==> done[i] == if i == 0 then done[0] else done[1..][i - 1];
    }
  }

  /** One piece more at the end. */
  lemma {:induction false} DecodesOneMore(b: seq<byte>, done: seq<Code>, n: nat)
    requires Decodes(b, done, n) && n <= |b| && 0 < PieceLength(b[n..])
    ensures var p := PieceLength(b[n..]);
            Decodes(b, done + [PieceCode(b[n..][..p])], n + p)
    decreases |done|
  {
    hide PieceLength, PieceCode, IsPiece, IsUtf8Char;
    var q := PieceLength(b[n..]);
    var c := PieceCode(b[n..][..q]);
    if done == [] {
      assert b[0..] == b && [] + [c] == [c] && [c][1..] == [];
    } else {
      var p := PieceLength(b);
      assert b[p..][n - p..] == b[n..];
      DecodesOneMore(b[p..], done[1..], n - p);
      assert (done + [c])[1..] == done[1..] + [c];
    }
  }

  /** A text that is not empty starts with the piece in front. */
  lemma {:induction false} TextStartsWithPiece(b: seq<byte>, j: nat)
    requires 0 < j <= |b| && IsText(b[..j])
    ensures var p := PieceLength(b); 0 < p <= j && IsText(b[p..][..j - p])
  {
    hide PieceLength, IsPiece;
    var m :| 0 < m <= j && IsPiece(b[..j][..m]) && IsText(b[..j][m..]);
    assert b[..j][..m] == b[..m];
    PieceIsUnique(b, m);
    assert b[..j][m..] == b[m..][..j - m];
  }

  /** What was decoded is a text, and if no piece follows there is no longer one in front. */
  lemma {:induction false} DecodesLongestText(b: seq<byte>, done: seq<Code>, n: nat)
    requires Decodes(b, done, n) && n <= |b|
    ensures IsText(b[..n])
    ensures PieceLength(b[n..]) == 0 ==> forall j :: n < j <= |b| ==> !IsText(b[..j])
    decreases |done|
  {
    hide PieceLength, PieceCode, IsPiece, IsUtf8Char;
    var p := PieceLength(b);
    if done == [] {
      assert b[0..] == b;
    } else {
      DecodesLongestText(b[p..], done[1..], n - p);
      assert b[..n][..p] == b[..p] && b[..n][p..] == b[p..][..n - p];
      assert b[p..][n - p..] == b[n..];
    }
    forall j | PieceLength(b[n..]) == 0 && n < j <= |b|
      ensures !IsText(b[..j])
    {
      if IsText(b[..j]) {
        TextStartsWithPiece(b, j);
      }
    }
  }

  /** How many of the first `count` pieces are a lone 0xA9. */
  function Substitutions(b: seq<byte>, count: nat): (k: nat)
    decreases count
  {
    var p := PieceLength(b);
    if count == 0 || p == 0 then 0
    else (if b[..p] == [COPYRIGHT] then 1 else 0) + Substitutions(b[p..], count - 1)
  }

  /** The bytes of the first `count` pieces, with U+FFFD in three bytes for every lone 0xA9. */
  function Patched(b: seq<byte>, count: nat): (s: seq<byte>)
    decreases count
  {
    var p := PieceLength(b);
    if count == 0 || p == 0 then []
    else (if b[..p] == [0xA9] then [0xEF, 0xBF, 0xBD] else b[..p]) + Patched(b[p..], count - 1)
  }

  /** What is decoded encodes these. */
  lemma {:induction false} DecodesPatched(b: seq<byte>, done: seq<Code>, n: nat)
    requires Decodes(b, done, n) && n <= |b|
    ensures Utf8All(done) == Patched(b, |done|)
    decreases |done|
  {
    hide PieceLength, PieceCode, IsPiece, IsUtf8Char, Utf8;
    if done != [] {
      var p := PieceLength(b);
      DecodesPatched(b[p..], done[1..], n - p);
      PieceReencodes(b[..p]);
    }
  }

  /** Encoding again gives back the bytes, except that every lone 0xA9 has grown by two bytes. */
  lemma {:induction false} DecodesReencodes(b: seq<byte>, done: seq<Code>, n: nat)
    requires Decodes(b, done, n) && n <= |b|
    ensures |Utf8All(done)| == n + 2 * Substitutions(b, |done|)
    ensures Utf8All(done) == b[..n] <==> Substitutions(b, |done|) == 0
    decreases |done|
  {
    hide PieceLength, PieceCode, IsPiece, IsUtf8Char, Utf8;
    if done != [] {
      var p := PieceLength(b);
      DecodesReencodes(b[p..], done[1..], n - p);
      assert b[..n] == b[..p] + b[p..][..n - p];
      PieceReencodes(b[..p]);
    }
  }

  lemma PieceReencodes(s: seq<byte>)
    requires IsPiece(s)
    ensures s == [COPYRIGHT] ==> |Utf8(PieceCode(s))| == |s| + 2
    ensures s == [0xA9] ==> Utf8(PieceCode(s)) == [0xEF, 0xBF, 0xBD]
    ensures s != [COPYRIGHT] ==> Utf8(PieceCode(s)) == s
  {
    if IsUtf8Char(s) {
      LegalIsUtf8(s);
    }
  }

  /** The encoding of scalar values is decoded to them, up to its end. */
  lemma {:induction false} EncodingDecodes(chars: seq<Code>)
    requires AllScalars(chars)
    ensures Decodes(Utf8All(chars), chars, |Utf8All(chars)|)
  {
    if chars != [] {
      hide Utf8, CodeOf, IsUtf8Char;
      var b := Utf8All(chars);
      var n := |Utf8(chars[0])|;
      Utf8IsLegal(chars[0]);
      EncodingDecodes(chars[1..]);
      assert b[..n] == Utf8(chars[0]) && b[n..] == Utf8All(chars[1..]);
      LegalNotEmpty(b[..n]);
      PieceIsUnique(b, n);
    }
  }

  lemma LegalNotEmpty(s: seq<byte>)
    requires IsUtf8Char(s)
    ensures s != [] && s != [COPYRIGHT]
  {
  }

  /** The codes of all pieces, up to where none follows. */
  function AllCodes(b: seq<byte>): seq<Code>
    decreases |b|
  {
    var p := PieceLength(b);
    if p == 0 then [] else [PieceCode(b[..p])] + AllCodes(b[p..])
  }

  /** How many bytes the first `count` pieces take. */
  function PiecesLength(b: seq<byte>, count: nat): (n: nat)
    ensures n <= |b|
    decreases count
  {
    var p := PieceLength(b);
    if count == 0 || p == 0 then 0 else p + PiecesLength(b[p..], count - 1)
  }

  /** What has been decoded is the beginning of all pieces; what follows is the rest. */
  lemma {:induction false} DecodesAll(b: seq<byte>, done: seq<Code>, n: nat)
    requires Decodes(b, done, n) && n <= |b|
    ensures AllCodes(b) == done + AllCodes(b[n..]) && n == PiecesLength(b, |done|)
    decreases |done|
  {
    hide PieceLength, PieceCode, IsPiece, IsUtf8Char;
    var p := PieceLength(b);
    if done == [] {
      assert b[0..] == b && [] + AllCodes(b) == AllCodes(b);
    } else {
      DecodesAll(b[p..], done[1..], n - p);
      assert b[p..][n - p..] == b[n..];
      assert [done[0]] + (done[1..] + AllCodes(b[n..])) == done + AllCodes(b[n..]);
    }
  }

  /** Any number of pieces, and where they end. */
  lemma {:induction false} PiecesDecode(b: seq<byte>, count: nat)
    requires count <= |AllCodes(b)|
    ensures Decodes(b, AllCodes(b)[..count], PiecesLength(b, count))
    decreases count
  {
    hide PieceLength, PieceCode, IsPiece, IsUtf8Char;
    var p := PieceLength(b);
    if 0 < count {
      PiecesDecode(b[p..], count - 1);
      assert AllCodes(b)[..count][1..] == AllCodes(b[p..])[..count - 1];
    }
  }

  /** The pieces in front are the longest text in front. */
  lemma {:induction false} LongestText(b: seq<byte>)
    ensures var n := PiecesLength(b, |AllCodes(b)|);
            IsText(b[..n]) && forall j :: n < j <= |b| ==> !IsText(b[..j])
  {
    hide PieceLength, PieceCode, IsPiece, IsUtf8Char;
    var all := AllCodes(b);
    PiecesDecode(b, |all|);
    assert all[..|all|] == all;
    var n := PiecesLength(b, |all|);
    DecodesAll(b, all, n);
    assert AllCodes(b[n..]) == [];
    DecodesLongestText(b, all, n);
  }

  /** There is only one way to decode all that can be decoded. */
  lemma {:induction false} DecodesIsUnique(b: seq<byte>, done: seq<Code>, n: nat, other: seq<Code>, m: nat)
    requires Decodes(b, done, n) && n <= |b| && PieceLength(b[n..]) == 0
    requires Decodes(b, other, m) && m <= |b| && PieceLength(b[m..]) == 0
    ensures done == other && n == m
    decreases |done|
  {
    hide PieceLength, PieceCode, IsPiece, IsUtf8Char;
    var p := PieceLength(b);
    assert b[0..] == b;
    if done != [] && other != [] {
      assert b[p..][n - p..] == b[n..] && b[p..][m - p..] == b[m..];
      DecodesIsUnique(b[p..], done[1..], n - p, other[1..], m - p);
      assert done == [done[0]] + done[1..] && other == [other[0]] + other[1..];
    }
  }
}
