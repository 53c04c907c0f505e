/** What the encoder converts, as a function of its input and its limit. */
module Utf8Room {
  import opened Bytes
  import opened Unicode

  /** There is place for a character behind `at` bytes; 0 is no limit. */
  predicate HasPlace(c: Code, at: nat, maxByteLen: nat) {
    maxByteLen == 0 || at + |Utf8(c)| <= maxByteLen
  }

  /** The encoder finds place for it: but for ASCII it looks at the low 32 bits of the number of bytes that are left. */
  predicate FindsPlace(c: Code, at: nat, maxByteLen: nat) {
    maxByteLen == 0 || (at < maxByteLen && (c < 0x80 || |Utf8(c)| <= (maxByteLen - at) % TWO32))
  }

  /** The first codes that have an encoding and for which there is place. */
  function Convertible(codes: seq<Code>, strict: bool, at: nat, maxByteLen: nat): (done: seq<Code>)
    ensures done <= codes
  {
    if codes == [] || (strict && !IsScalar(codes[0])) || !HasPlace(codes[0], at, maxByteLen) then []
    else [codes[0]] + Convertible(codes[1..], strict, at + |Utf8(codes[0])|, maxByteLen)
  }

  /** Those that are converted. */
  function Converted(codes: seq<Code>, strict: bool, at: nat, maxByteLen: nat): (done: seq<Code>)
    ensures done <= codes
  {
    if codes == [] || (strict && !IsScalar(codes[0])) || !FindsPlace(codes[0], at, maxByteLen) then []
    else [codes[0]] + Converted(codes[1..], strict, at + |Utf8(codes[0])|, maxByteLen)
  }

  lemma {:induction false} ConvertedStep(c: Code, after: seq<Code>, strict: bool, at: nat, maxByteLen: nat)
    ensures Converted([c] + after, strict, at, maxByteLen) ==
            if (strict && !IsScalar(c)) || !FindsPlace(c, at, maxByteLen) then []
            else [c] + Converted(after, strict, at + |Utf8(c)|, maxByteLen)
  {
    hide Utf8, FindsPlace, IsScalar;
    assert ([c] + after)[1..] == after;
  }

  /** A character for which there is place comes where the low 32 bits of the room left are less than it takes. */
  ghost predicate StopsEarly(codes: seq<Code>, strict: bool, at: nat, maxByteLen: nat) {
    exists k :: 0 <= k < |codes| && StopsEarlyAt(codes, strict, at, maxByteLen, k)
  }

  ghost predicate StopsEarlyAt(codes: seq<Code>, strict: bool, at: nat, maxByteLen: nat, k: nat)
    requires k < |codes|
  {
    var here := at + |Utf8All(codes[..k])|;
    && (strict ==> AllScalars(codes[..k + 1]))
    && 0x80 <= codes[k] && here + |Utf8(codes[k])| <= maxByteLen
    && (maxByteLen - here) % TWO32 < |Utf8(codes[k])|
  }

  lemma Places(c: Code, at: nat, maxByteLen: nat)
    requires 0 < maxByteLen ==> at <= maxByteLen
    ensures FindsPlace(c, at, maxByteLen) ==> HasPlace(c, at, maxByteLen)
    ensures HasPlace(c, at, maxByteLen) && !FindsPlace(c, at, maxByteLen) <==>
            0x80 <= c && at + |Utf8(c)| <= maxByteLen && (maxByteLen - at) % TWO32 < |Utf8(c)|
    ensures 0 < |Utf8(c)| <= 4
  {
  }

  /** One character further on. */
  lemma {:induction false} StopsLater(codes: seq<Code>, strict: bool, at: nat, maxByteLen: nat, k: nat)
    requires 0 < k < |codes|
    ensures StopsEarlyAt(codes, strict, at, maxByteLen, k) <==>
            && (strict ==> IsScalar(codes[0]))
            && StopsEarlyAt(codes[1..], strict, at + |Utf8(codes[0])|, maxByteLen, k - 1)
  {
    hide Utf8;
    assert codes[..k][1..] == codes[1..][..k - 1] && codes[..k][0] == codes[0];
    var a, b := codes[..k + 1], codes[1..][..k];
    assert forall i :: 0 <= i < |a| ==> a[i] == if i == 0 then codes[0] else b[i - 1];
    assert forall i :: 0 <= i < |b| ==> b[i] == a[i + 1];
  }

  /** All that fits is converted if and only if the conversion does not stop early. */
  lemma {:induction false} ConvertedIff(codes: seq<Code>, strict: bool, at: nat, maxByteLen: nat)
    requires 0 < maxByteLen ==> at <= maxByteLen
    ensures Converted(codes, strict, at, maxByteLen) <= Convertible(codes, strict, at, maxByteLen)
    ensures Converted(codes, strict, at, maxByteLen) == Convertible(codes, strict, at, maxByteLen) <==>
            !StopsEarly(codes, strict, at, maxByteLen)
    decreases |codes|
  {
    hide Utf8, HasPlace, FindsPlace, StopsEarlyAt;
    if codes != [] {
      var c := codes[0];
      Places(c, at, maxByteLen);
      FirstStops(codes, strict, at, maxByteLen);
      forall k: nat | 0 < k < |codes|
        ensures StopsEarlyAt(codes, strict, at, maxByteLen, k) <==>
                && (strict ==> IsScalar(c))
                && StopsEarlyAt(codes[1..], strict, at + |Utf8(c)|, maxByteLen, k - 1)
      {
        StopsLater(codes, strict, at, maxByteLen, k);
      }
      if (strict ==> IsScalar(c)) && HasPlace(c, at, maxByteLen) {
        PlaceIsWithin(c, at, maxByteLen);
        ConvertedIff(codes[1..], strict, at + |Utf8(c)|, maxByteLen);
        RestStops(codes, strict, at, maxByteLen);
      } else {
        NothingStops(codes, strict, at, maxByteLen);
      }
    }
  }

  lemma PlaceIsWithin(c: Code, at: nat, maxByteLen: nat)
    requires HasPlace(c, at, maxByteLen)
    ensures 0 < maxByteLen ==> at + |Utf8(c)| <= maxByteLen
  {
  }

  lemma FirstStops(codes: seq<Code>, strict: bool, at: nat, maxByteLen: nat)
    requires codes != [] && (0 < maxByteLen ==> at <= maxByteLen)
    ensures StopsEarlyAt(codes, strict, at, maxByteLen, 0) <==>
            (strict ==> IsScalar(codes[0])) && HasPlace(codes[0], at, maxByteLen) && !FindsPlace(codes[0], at, maxByteLen)
  {
    Places(codes[0], at, maxByteLen);
    assert codes[..0] == [] && codes[..1] == [codes[0]];
  }

  lemma {:induction false} RestStops(codes: seq<Code>, strict: bool, at: nat, maxByteLen: nat)
    requires codes != [] && (strict ==> IsScalar(codes[0]))
    ensures StopsEarly(codes, strict, at, maxByteLen) <==>
            || StopsEarlyAt(codes, strict, at, maxByteLen, 0)
            || StopsEarly(codes[1..], strict, at + |Utf8(codes[0])|, maxByteLen)
  {
    hide StopsEarlyAt, Utf8;
    var rest, next := codes[1..], at + |Utf8(codes[0])|;
    if StopsEarly(codes, strict, at, maxByteLen) {
      var k :| 0 <= k < |codes| && StopsEarlyAt(codes, strict, at, maxByteLen, k);
      if 0 < k {
        StopsLater(codes, strict, at, maxByteLen, k);
        assert StopsEarlyAt(rest, strict, next, maxByteLen, k - 1);
      }
    }
    if StopsEarly(rest, strict, next, maxByteLen) {
      var k :| 0 <= k < |rest| && StopsEarlyAt(rest, strict, next, maxByteLen, k);
      StopsLater(codes, strict, at, maxByteLen, k + 1);
      assert StopsEarlyAt(codes, strict, at, maxByteLen, k + 1);
    }
  }

  /** Behind a character that has no encoding or no place nothing stops the conversion early. */
  lemma {:induction false} NothingStops(codes: seq<Code>, strict: bool, at: nat, maxByteLen: nat)
    requires codes != [] && (0 < maxByteLen ==> at <= maxByteLen)
    requires (strict && !IsScalar(codes[0])) || !HasPlace(codes[0], at, maxByteLen)
    ensures !StopsEarly(codes, strict, at, maxByteLen)
  {
    forall k | 0 <= k < |codes|
      ensures !StopsEarlyAt(codes, strict, at, maxByteLen, k)
    {
      if 0 < k {
        assert codes[..k + 1][0] == codes[0] && codes[..k][0] == codes[0];
        assert |Utf8All(codes[..k])| >= |Utf8(codes[0])|;
      }
    }
  }

  /** With a limit below 2^32 it never does. */
  lemma {:induction false} SmallLimitIsSafe(codes: seq<Code>, strict: bool, at: nat, maxByteLen: nat)
    requires maxByteLen < TWO32
    ensures !StopsEarly(codes, strict, at, maxByteLen)
  {
  }

  lemma FirstHasPlace(codes: seq<Code>, at: nat, maxByteLen: nat)
    requires codes != [] && (maxByteLen == 0 || at + |Utf8All(codes)| <= maxByteLen)
    ensures HasPlace(codes[0], at, maxByteLen)
    ensures |Utf8All(codes)| == |Utf8(codes[0])| + |Utf8All(codes[1..])|
  {
    hide Utf8;
  }

  /** With place for all codes, all up to the first that has no encoding fit. */
  lemma {:induction false} EnoughPlace(codes: seq<Code>, at: nat, maxByteLen: nat)
    requires maxByteLen == 0 || at + |Utf8All(codes)| <= maxByteLen
    ensures var done := Convertible(codes, true, at, maxByteLen);
            AllScalars(done) && (|done| < |codes| ==> !IsScalar(codes[|done|]))
    decreases |codes|
  {
    hide Utf8, Utf8All, HasPlace, IsScalar;
    if codes != [] && IsScalar(codes[0]) {
      FirstHasPlace(codes, at, maxByteLen);
      var rest := Convertible(codes[1..], true, at + |Utf8(codes[0])|, maxByteLen);
      EnoughPlace(codes[1..], at + |Utf8(codes[0])|, maxByteLen);
      var done := [codes[0]] + rest;
      assert forall i :: 0 <= i < |done| ==> done[i] == if i == 0 then codes[0] else rest[i - 1];
    }
  }

  /** It happens: a limit of 2^32 and a character of two bytes. There is place, and nothing is converted. */
  lemma {:induction false} StopsAtOnce()
    ensures StopsEarly([0x80], true, 0, TWO32) && Converted([0x80], true, 0, TWO32) == []
    ensures Convertible([0x80], true, 0, TWO32) == [0x80]
  {
    var codes: seq<Code> := [0x80];
    assert StopsEarlyAt(codes, true, 0, TWO32, 0);
  }
}
