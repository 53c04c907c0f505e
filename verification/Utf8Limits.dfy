/** What the decoder gives, as a function of its input and its limit. */
module Utf8Limits {
  import opened Bytes
  import opened Unicode
  import opened Utf8Text

  /** As many of the first codes as fit into `room` units. */
  function FitPrefix(codes: seq<Code>, room: nat): (fit: seq<Code>)
    ensures fit <= codes
  {
    if codes == [] || room < |Utf16(codes[0])| then []
    else [codes[0]] + FitPrefix(codes[1..], room - |Utf16(codes[0])|)
  }

  /** The codes whose units are written; 0 is no limit. */
  function Written(bytes: seq<byte>, maxCharLen: nat): (codes: seq<Code>)
    ensures codes <= AllCodes(bytes)
  {
    if maxCharLen == 0 then AllCodes(bytes) else FitPrefix(AllCodes(bytes), maxCharLen)
  }

  /** A character outside the basic plane comes where one unit is left. */
  ghost predicate LosesCharacter(bytes: seq<byte>, maxCharLen: nat) {
    var codes := AllCodes(bytes);
    exists k :: 0 <= k < |codes| && 0x1_0000 <= codes[k] && |Utf16All(codes[..k])| + 1 == maxCharLen
  }

  /** The number of bytes that the decoder reports as consumed. */
  ghost function Consumed(bytes: seq<byte>, maxCharLen: nat): (n: nat)
    ensures n <= |bytes|
  {
    PiecesLength(bytes, |Written(bytes, maxCharLen)| + if LosesCharacter(bytes, maxCharLen) then 1 else 0)
  }

  /** Codes that fit, while the next one does not, are all that fit. */
  lemma {:induction false} FitIs(codes: seq<Code>, n: nat, room: nat)
    requires n <= |codes| && |Utf16All(codes[..n])| <= room
    requires n < |codes| ==> room < |Utf16All(codes[..n])| + |Utf16(codes[n])|
    ensures FitPrefix(codes, room) == codes[..n]
  {
    hide Utf16;
    if 0 < n {
      var c := codes[0];
      assert codes[..n][1..] == codes[1..][..n - 1];
      assert Utf16All(codes[..n]) == Utf16(c) + Utf16All(codes[1..][..n - 1]);
      FitIs(codes[1..], n - 1, room - |Utf16(c)|);
    }
  }

  /** What fits, fits. */
  lemma {:induction false} FitFits(codes: seq<Code>, room: nat)
    ensures |Utf16All(FitPrefix(codes, room))| <= room
    ensures |Utf16All(codes)| <= room ==> FitPrefix(codes, room) == codes
  {
    hide Utf16;
    if codes != [] && |Utf16(codes[0])| <= room {
      FitFits(codes[1..], room - |Utf16(codes[0])|);
      assert FitPrefix(codes, room)[1..] == FitPrefix(codes[1..], room - |Utf16(codes[0])|);
    }
  }

  /** More codes take more units. */
  lemma {:induction false} UnitsGrow(codes: seq<Code>, m: nat, n: nat)
    requires m < n <= |codes|
    ensures |Utf16All(codes[..m])| + |Utf16(codes[m])| <= |Utf16All(codes[..n])|
    ensures |Utf16All(codes[..m])| < |Utf16All(codes[..n])|
    decreases n
  {
    Utf16Append(codes[..n - 1], codes[n - 1]);
    assert codes[..n] == codes[..n - 1] + [codes[n - 1]];
    if m < n - 1 {
      UnitsGrow(codes, m, n - 1);
    }
  }

  /** A character is lost if and only if it is the one behind those that are written. */
  lemma {:induction false} LosesIff(bytes: seq<byte>, n: nat, maxCharLen: nat)
    requires n <= |AllCodes(bytes)|
    requires var codes, used := AllCodes(bytes), |Utf16All(AllCodes(bytes)[..n])|;
             && (0 < maxCharLen ==> used <= maxCharLen)
             && (n == |codes| || used == maxCharLen || (used + 1 == maxCharLen && 0x1_0000 <= codes[n]))
    ensures var codes := AllCodes(bytes);
            LosesCharacter(bytes, maxCharLen) <==>
            n < |codes| && 0x1_0000 <= codes[n] && |Utf16All(codes[..n])| + 1 == maxCharLen
  {
    hide Utf16, AllCodes;
    var codes := AllCodes(bytes);
    forall k | 0 <= k < |codes| && 0x1_0000 <= codes[k] && |Utf16All(codes[..k])| + 1 == maxCharLen
      ensures k == n
    {
      if k < n {
        UnitsGrow(codes, k, n);
        PairIsTwo(codes[k]);
      } else if n < k {
        UnitsGrow(codes, n, k);
      }
    }
  }

  lemma PairIsTwo(c: Code)
    ensures |Utf16(c)| == if 0x1_0000 <= c then 2 else 1
  {
  }

  /** Only one unit is left and the next character needs two: it is consumed all the same. */
  ghost predicate LosesNext(bytes: seq<byte>, at: nat, used: nat, maxCharLen: nat)
    requires at <= |bytes|
  {
    var p := PieceLength(bytes[at..]);
    0 < p && used + 1 == maxCharLen && 0x1_0000 <= PieceCode(bytes[at..][..p])
  }

  /** Where a conversion ends, what it has written and consumed is what the input and the limit determine. */
  lemma {:induction false} EndsAsWritten(bytes: seq<byte>, done: seq<Code>, at: nat, maxCharLen: nat)
    requires Decodes(bytes, done, at) && at <= |bytes|
    requires 0 < maxCharLen ==> |Utf16All(done)| <= maxCharLen
    requires PieceLength(bytes[at..]) == 0 || (0 < maxCharLen == |Utf16All(done)|)
             || LosesNext(bytes, at, |Utf16All(done)|, maxCharLen)
    ensures done == Written(bytes, maxCharLen)
    ensures Consumed(bytes, maxCharLen) ==
            if LosesNext(bytes, at, |Utf16All(done)|, maxCharLen) then at + PieceLength(bytes[at..]) else at
  {
    hide PieceLength, PieceCode, Utf16, Utf16All, IsPiece, LosesCharacter, FitPrefix, Decodes;
    var codes, n := AllCodes(bytes), |done|;
    DecodesAll(bytes, done, at);
    assert codes[..n] == done;
    var p := PieceLength(bytes[at..]);
    if 0 < p {
      assert codes[n] == PieceCode(bytes[at..][..p]);
      PairIsTwo(codes[n]);
      DecodesOneMore(bytes, done, at);
      NextBounds(bytes, done, at);
      DecodesAll(bytes, done + [codes[n]], at + p);
    }
    LosesIff(bytes, n, maxCharLen);
    if 0 < maxCharLen {
      FitIs(codes, n, maxCharLen);
    } else {
      assert codes[..|codes|] == codes;
    }
  }

  lemma NextBounds(bytes: seq<byte>, done: seq<Code>, at: nat)
    requires Decodes(bytes, done, at) && at <= |bytes|
    ensures at + PieceLength(bytes[at..]) <= |bytes|
  {
  }
}
