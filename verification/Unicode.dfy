/** Code points and their encodings, as RFC 3629 and RFC 2781 define them. */
module Unicode {
  import opened Bytes

  type Unit = x: int | 0 <= x < 0x1_0000
  type Code = x: int | 0 <= x <= 0x10_FFFF

  predicate IsHigh(u: int) {
    0xD800 <= u <= 0xDBFF
  }

  predicate IsLow(u: int) {
    0xDC00 <= u <= 0xDFFF
  }

  /** A code point that is not a surrogate. */
  predicate IsScalar(c: int) {
    0 <= c < 0xD800 || 0xDFFF < c <= 0x10_FFFF
  }

  predicate AllScalars(chars: seq<Code>) {
    forall i :: 0 <= i < |chars| ==> IsScalar(chars[i])
  }

  /** Section 3 of RFC 3629: the octets of a code point (also given to an unpaired surrogate). */
  function Utf8(c: Code): (s: seq<byte>) {
    if c < 0x80 then [c]
    else if c < 0x800 then [0xC0 + c / 0x40, 0x80 + c % 0x40]
    else if c < 0x1_0000 then [0xE0 + c / 0x1000, 0x80 + c / 0x40 % 0x40, 0x80 + c % 0x40]
    else [0xF0 + c / 0x4_0000, 0x80 + c / 0x1000 % 0x40, 0x80 + c / 0x40 % 0x40, 0x80 + c % 0x40]
  }

  function Utf8All(chars: seq<Code>): (s: seq<byte>) {
    if chars == [] then [] else Utf8(chars[0]) + Utf8All(chars[1..])
  }

  /** Section 2.1 of RFC 2781: the 16-bit units of a code point. */
  function Utf16(c: Code): (u: seq<Unit>) {
    if c < 0x1_0000 then [c] else [0xD800 + (c - 0x1_0000) / 0x400, 0xDC00 + (c - 0x1_0000) % 0x400]
  }

  function Utf16All(chars: seq<Code>): (u: seq<Unit>) {
    if chars == [] then [] else Utf16(chars[0]) + Utf16All(chars[1..])
  }

  /** Section 2.2 of RFC 2781: whether a pair of surrogates comes first, and the code point that comes first. */
  predicate PairFirst(u: seq<Unit>) {
    2 <= |u| && IsHigh(u[0]) && IsLow(u[1])
  }

  function FirstCode(u: seq<Unit>): (c: Code)
    requires u != []
    ensures Utf16(c) <= u && (0x1_0000 <= c <==> PairFirst(u))
  {
    if PairFirst(u) then (u[0] as int - 0xD800) * 0x400 + (u[1] as int - 0xDC00) + 0x1_0000 else u[0]
  }

  /** The code points of a UTF-16 text; an unpaired surrogate stands for itself. */
  function Codes(u: seq<Unit>): (chars: seq<Code>)
    decreases |u|
  {
    if u == [] then [] else var c := FirstCode(u); [c] + Codes(u[|Utf16(c)|..])
  }

  /** A text is well formed if it has no unpaired surrogate. */
  predicate IsWellFormed(u: seq<Unit>) {
    AllScalars(Codes(u))
  }

  lemma CodeTakesUnits(c: Code)
    ensures 1 <= |Utf16(c)| <= 2
  {
  }

  /** Nothing is lost by taking a text apart into code points. */
  lemma {:induction false} CodesInverse(u: seq<Unit>)
    ensures Utf16All(Codes(u)) == u
    decreases |u|
  {
    hide FirstCode, Utf16;
    if u != [] {
      var c := FirstCode(u);
      CodeTakesUnits(c);
      CodesInverse(u[|Utf16(c)|..]);
      assert u == Utf16(c) + u[|Utf16(c)|..];
    }
  }

  /** And nothing by putting scalar values together. */
  lemma {:induction false} Utf16Inverse(chars: seq<Code>)
    requires AllScalars(chars)
    ensures Codes(Utf16All(chars)) == chars
  {
    if chars != [] {
      var u := Utf16All(chars);
      Utf16Inverse(chars[1..]);
      assert u[|Utf16(chars[0])|..] == Utf16All(chars[1..]);
      PairIsCode(chars[0]);
      assert FirstCode(u) == chars[0];
    }
  }

  lemma PairIsCode(c: Code)
    ensures c >= 0x1_0000 ==> IsHigh(Utf16(c)[0]) && IsLow(Utf16(c)[1]) && FirstCode(Utf16(c)) == c
  {
  }

  lemma {:induction false} Utf16Append(chars: seq<Code>, c: Code)
    ensures Utf16All(chars + [c]) == Utf16All(chars) + Utf16(c)
  {
    if chars == [] {
      assert Utf16All([c]) == Utf16(c) + Utf16All([]);
    } else {
      assert (chars + [c])[1..] == chars[1..] + [c];
      Utf16Append(chars[1..], c);
    }
  }

  lemma {:induction false} Utf8Concat(chars: seq<Code>, more: seq<Code>)
    ensures Utf8All(chars + more) == Utf8All(chars) + Utf8All(more)
  {
    if chars == [] {
      assert chars + more == more;
    } else {
      assert (chars + more)[1..] == chars[1..] + more;
      Utf8Concat(chars[1..], more);
    }
  }

  predicate IsTail(b: byte) {
    0x80 <= b <= 0xBF
  }

  /** Section 4 of RFC 3629: the legal sequences of octets for one character, by their syntax. */
  predicate IsUtf8Char(s: seq<byte>) {
    || (|s| == 1 && s[0] <= 0x7F)
    || (|s| == 2 && 0xC2 <= s[0] <= 0xDF && IsTail(s[1]))
    || (|s| == 3 && s[0] == 0xE0 && 0xA0 <= s[1] <= 0xBF && IsTail(s[2]))
    || (|s| == 3 && 0xE1 <= s[0] <= 0xEC && IsTail(s[1]) && IsTail(s[2]))
    || (|s| == 3 && s[0] == 0xED && 0x80 <= s[1] <= 0x9F && IsTail(s[2]))
    || (|s| == 3 && 0xEE <= s[0] <= 0xEF && IsTail(s[1]) && IsTail(s[2]))
    || (|s| == 4 && s[0] == 0xF0 && 0x90 <= s[1] <= 0xBF && IsTail(s[2]) && IsTail(s[3]))
    || (|s| == 4 && 0xF1 <= s[0] <= 0xF3 && IsTail(s[1]) && IsTail(s[2]) && IsTail(s[3]))
    || (|s| == 4 && s[0] == 0xF4 && 0x80 <= s[1] <= 0x8F && IsTail(s[2]) && IsTail(s[3]))
  }

  /** The bits a legal sequence carries. */
  function CodeOf(s: seq<byte>): (c: Code)
    requires IsUtf8Char(s)
    ensures IsScalar(c)
  {
    if |s| == 1 then s[0]
    else if |s| == 2 then (s[0] as int - 0xC0) * 0x40 + (s[1] as int - 0x80)
    else if |s| == 3 then (s[0] as int - 0xE0) * 0x1000 + (s[1] as int - 0x80) * 0x40 + (s[2] as int - 0x80)
    else (s[0] as int - 0xF0) * 0x4_0000 + (s[1] as int - 0x80) * 0x1000 + (s[2] as int - 0x80) * 0x40 + (s[3] as int - 0x80)
  }

  /** The six-bit groups of a number are what it was put together from. */
  lemma SixBitGroups(a: nat, b: nat, d: nat, e: nat)
    requires b < 0x40 && d < 0x40 && e < 0x40
    ensures var c := a * 0x4_0000 + b * 0x1000 + d * 0x40 + e;
            c / 0x4_0000 == a && c / 0x1000 % 0x40 == b && c / 0x40 % 0x40 == d && c % 0x40 == e
  {
    var c := a * 0x4_0000 + b * 0x1000 + d * 0x40 + e;
    assert c / 0x40 == a * 0x1000 + b * 0x40 + d;
    assert c / 0x1000 == a * 0x40 + b;
  }

  lemma GroupsAddUp(c: nat)
    ensures c == c / 0x4_0000 * 0x4_0000 + c / 0x1000 % 0x40 * 0x1000 + c / 0x40 % 0x40 * 0x40 + c % 0x40
  {
    var d := c / 0x40;
    var b := d / 0x40;
    assert c / 0x1000 == b && c / 0x4_0000 == b / 0x40;
  }

  lemma LongIsLegal(c: Code)
    requires 0x1_0000 <= c
    ensures IsUtf8Char(Utf8(c)) && CodeOf(Utf8(c)) == c
  {
    GroupsAddUp(c);
    var a, b, d, e := c / 0x4_0000, c / 0x1000 % 0x40, c / 0x40 % 0x40, c % 0x40;
    assert Utf8(c) == [0xF0 + a, 0x80 + b, 0x80 + d, 0x80 + e];
  }

  lemma MiddleIsLegal(c: Code)
    requires 0x800 <= c < 0x1_0000
    ensures IsScalar(c) <==> IsUtf8Char(Utf8(c))
    ensures IsScalar(c) ==> CodeOf(Utf8(c)) == c
  {
    hide Utf8;
    MiddleBytes(c);
    assert Utf8(c)[0] == 0xED && Utf8(c)[1] <= 0x9F ==> c < 0xD800;
    assert Utf8(c)[0] == 0xED && Utf8(c)[1] > 0x9F ==> 0xD800 <= c <= 0xDFFF;
  }

  lemma MiddleBytes(c: Code)
    requires 0x800 <= c < 0x1_0000
    ensures var b, d, e := c / 0x1000, c / 0x40 % 0x40, c % 0x40;
            && b < 16 && c == b * 0x1000 + d * 0x40 + e && (b == 0 ==> 0x20 <= d)
            && Utf8(c) == [0xE0 + b, 0x80 + d, 0x80 + e]
  {
    GroupsAddUp(c);
  }

  lemma ShortIsLegal(c: Code)
    requires c < 0x800
    ensures IsScalar(c) && IsUtf8Char(Utf8(c)) && CodeOf(Utf8(c)) == c
  {
  }

  /** The legal sequences are exactly the encodings of the scalar values. */
  lemma Utf8IsLegal(c: Code)
    ensures IsScalar(c) <==> IsUtf8Char(Utf8(c))
    ensures IsScalar(c) ==> CodeOf(Utf8(c)) == c
  {
    hide Utf8, IsUtf8Char, CodeOf;
    if c < 0x800 {
      ShortIsLegal(c);
    } else if c < 0x1_0000 {
      MiddleIsLegal(c);
    } else {
      LongIsLegal(c);
    }
  }

  lemma LegalIsUtf8(s: seq<byte>)
    requires IsUtf8Char(s)
    ensures Utf8(CodeOf(s)) == s
  {
    hide Utf8, CodeOf;
    if |s| <= 2 {
      ShortIsUtf8(s);
    } else if |s| == 3 {
      MiddleIsUtf8(s);
    } else {
      LongIsUtf8(s);
    }
  }

  lemma ShortIsUtf8(s: seq<byte>)
    requires IsUtf8Char(s) && |s| <= 2
    ensures Utf8(CodeOf(s)) == s
  {
    if |s| == 2 {
      SixBitGroups(0, 0, s[0] - 0xC0, s[1] - 0x80);
      assert CodeOf(s) / 0x40 == s[0] as int - 0xC0;
    }
  }

  lemma MiddleIsUtf8(s: seq<byte>)
    requires IsUtf8Char(s) && |s| == 3
    ensures Utf8(CodeOf(s)) == s
  {
    SixBitGroups(0, s[0] - 0xE0, s[1] - 0x80, s[2] - 0x80);
    assert CodeOf(s) / 0x1000 == s[0] as int - 0xE0;
  }

  lemma LongIsUtf8(s: seq<byte>)
    requires IsUtf8Char(s) && |s| == 4
    ensures Utf8(CodeOf(s)) == s
  {
    SixBitGroups(s[0] - 0xF0, s[1] - 0x80, s[2] - 0x80, s[3] - 0x80);
  }
}
