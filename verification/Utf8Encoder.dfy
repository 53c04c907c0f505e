/** From UTF-16 to UTF-8. */
module Utf8Encoder {
  import opened Bytes
  import opened Unicode
  import opened Utf8Room

  /** How many bytes a character takes; 0 for what has no encoding. */
  function BytesToWrite(ch: nat): (n: nat)
    ensures ch <= 0x10_FFFF ==> n == |Utf8(ch)|
    ensures n <= 6 && (n == 0 <==> 0x7FFF_FFFF < ch)
  {
    if ch < 0x80 then 1
    else if ch < 0x800 then 2
    else if ch < 0x1_0000 then 3
    else if ch < 0x20_0000 then 4
    else if ch < 0x400_0000 then 5
    else if ch <= 0x7FFF_FFFF then 6
    else 0
  }

  const FIRST_BYTE_MARK: seq<byte> := [0x00, 0x00, 0xC0, 0xE0, 0xF0]

  /** (ch | 0x80) & 0xBF */
  function Low(ch: nat): (b: byte) {
    0x80 + ch % 0x40
  }

  /** The bytes of the encoding from the last to the first, by shifts. */
  lemma Shifts(c: Code)
    ensures var u, n := Utf8(c), |Utf8(c)|;
            && 1 <= n <= 4
            && (n == 1 ==> c < 0x80 && u == [c])
            && (n == 2 ==> c / 0x40 < 0x20 && u == [0xC0 + c / 0x40, Low(c)])
            && (n == 3 ==> c / 0x40 / 0x40 < 0x10 && u == [0xE0 + c / 0x40 / 0x40, Low(c / 0x40), Low(c)])
            && (n == 4 ==> && c / 0x40 / 0x40 / 0x40 < 8
                           && u == [0xF0 + c / 0x40 / 0x40 / 0x40, Low(c / 0x40 / 0x40), Low(c / 0x40), Low(c)])
  {
    assert c / 0x40 / 0x40 == c / 0x1000 && c / 0x40 / 0x40 / 0x40 == c / 0x4_0000;
  }

  /** Writes one character from its last byte to its first, if there is room for all of them. */
  method ToUTF8Core(ch: Code, bytes: array<byte>, at: nat, maxByteLen: nat) returns (written: nat)
    requires at + maxByteLen <= bytes.Length
    modifies bytes
    ensures written == if maxByteLen < |Utf8(ch)| then 0 else |Utf8(ch)|
    ensures bytes[..at] == old(bytes[..at]) && bytes[at + written..] == old(bytes[at + written..])
    ensures written != 0 ==> bytes[at..at + written] == Utf8(ch)
  {
    hide Utf8, Low, BytesToWrite;
    var n := BytesToWrite(ch);
    if maxByteLen < n {
      return 0;
    }
    Shifts(ch);
    var rest: nat := ch;
    if 4 <= n { bytes[at + 3] := Low(rest); rest := rest / 0x40; }
    if 3 <= n { bytes[at + 2] := Low(rest); rest := rest / 0x40; }
    if 2 <= n { bytes[at + 1] := Low(rest); rest := rest / 0x40; }
    bytes[at] := rest + FIRST_BYTE_MARK[n];
    return n;
  }

  /** What a conversion has done: `done` are the first characters, read from `units` and written to `out`. */
  ghost predicate Encodes(units: seq<Unit>, done: seq<Code>, consumed: nat) {
    && consumed <= |units|
    && Codes(units) == done + Codes(units[consumed..])
    && units[..consumed] == Utf16All(done)
  }

  lemma NothingEncoded(units: seq<Unit>)
    ensures Encodes(units, [], 0)
  {
    assert units[0..] == units && [] + Codes(units) == Codes(units);
  }

  lemma {:induction false} CodesStep(rest: seq<Unit>)
    requires rest != []
    ensures var c := FirstCode(rest);
            |Utf16(c)| <= |rest| && rest[..|Utf16(c)|] == Utf16(c) && Codes(rest) == [c] + Codes(rest[|Utf16(c)|..])
  {
  }

  lemma {:induction false} EncodesOneMore(units: seq<Unit>, done: seq<Code>, consumed: nat)
    requires Encodes(units, done, consumed) && consumed < |units|
    ensures var c := FirstCode(units[consumed..]);
            && consumed + |Utf16(c)| <= |units|
            && done + [c] <= Codes(units)
            && Encodes(units, done + [c], consumed + |Utf16(c)|)
  {
    hide Codes, FirstCode, Utf16, Utf16All;
    var rest := units[consumed..];
    var c := FirstCode(rest);
    var n := |Utf16(c)|;
    CodesStep(rest);
    var after := Codes(rest[n..]);
    assert rest[n..] == units[consumed + n..];
    assert units[..consumed + n] == units[..consumed] + rest[..n];
    Utf16Append(done, c);
    assert done + ([c] + after) == (done + [c]) + after;
  }

  /** What a conversion will have converted: `done`, and what it converts of the rest. */
  ghost predicate GoesOn(units: seq<Unit>, strict: bool, maxByteLen: nat, done: seq<Code>, consumed: nat, used: nat) {
    && consumed <= |units|
    && Converted(Codes(units), strict, 0, maxByteLen) == done + Converted(Codes(units[consumed..]), strict, used, maxByteLen)
  }

  lemma GoesOnAtStart(units: seq<Unit>, strict: bool, maxByteLen: nat)
    ensures GoesOn(units, strict, maxByteLen, [], 0, 0)
  {
    var all := Converted(Codes(units), strict, 0, maxByteLen);
    assert units[0..] == units && [] + all == all;
  }

  /** A character that has an encoding and finds place is converted; otherwise nothing more is. */
  lemma {:induction false} GoesOnWith(units: seq<Unit>, strict: bool, maxByteLen: nat, done: seq<Code>, consumed: nat, used: nat)
    requires GoesOn(units, strict, maxByteLen, done, consumed, used) && consumed < |units|
    ensures var c := FirstCode(units[consumed..]);
            && consumed + |Utf16(c)| <= |units|
            && if (strict && !IsScalar(c)) || !FindsPlace(c, used, maxByteLen)
               then done == Converted(Codes(units), strict, 0, maxByteLen)
               else GoesOn(units, strict, maxByteLen, done + [c], consumed + |Utf16(c)|, used + |Utf8(c)|)
  {
    hide Codes, FirstCode, Utf16, Utf8, FindsPlace, Converted;
    var rest := units[consumed..];
    var c := FirstCode(rest);
    var n := |Utf16(c)|;
    CodesStep(rest);
    assert rest[n..] == units[consumed + n..];
    var after := Codes(rest[n..]);
    ConvertedStep(c, after, strict, used, maxByteLen);
    var later := Converted(after, strict, used + |Utf8(c)|, maxByteLen);
    assert done + ([c] + later) == (done + [c]) + later && done + [] == done;
  }

  lemma GoesOnNoMore(units: seq<Unit>, strict: bool, maxByteLen: nat, done: seq<Code>, consumed: nat, used: nat)
    requires GoesOn(units, strict, maxByteLen, done, consumed, used)
    requires consumed == |units| || (0 < maxByteLen <= used)
    ensures done == Converted(Codes(units), strict, 0, maxByteLen)
  {
    hide Utf8;
    if consumed < |units| {
      GoesOnWith(units, strict, maxByteLen, done, consumed, used);
    }
  }

  /** What has been written: the encoding of `done`, and nothing behind it. */
  ghost predicate Wrote(bytes: seq<byte>, before: seq<byte>, done: seq<Code>, used: nat, maxByteLen: nat) {
    && |bytes| == |before|
    && used == |Utf8All(done)|
    && (maxByteLen == 0 ==> bytes == before)
    && (0 < maxByteLen ==> used <= maxByteLen <= |bytes| && bytes[..used] == Utf8All(done) && bytes[used..] == before[used..])
  }

  lemma WroteWithin(bytes: seq<byte>, before: seq<byte>, done: seq<Code>, used: nat, maxByteLen: nat)
    requires Wrote(bytes, before, done, used, maxByteLen)
    ensures 0 < maxByteLen ==> used <= maxByteLen <= |bytes|
  {
  }

  lemma {:induction false} WroteOneMore(bytes: seq<byte>, after: seq<byte>, before: seq<byte>, done: seq<Code>, used: nat,
                                        maxByteLen: nat, c: Code)
    requires Wrote(bytes, before, done, used, maxByteLen)
    requires maxByteLen == 0 ==> after == bytes
    requires 0 < maxByteLen ==>
               && used + |Utf8(c)| <= maxByteLen && |after| == |bytes| && after[..used] == bytes[..used]
               && after[used..used + |Utf8(c)|] == Utf8(c) && after[used + |Utf8(c)|..] == bytes[used + |Utf8(c)|..]
    ensures Wrote(after, before, done + [c], used + |Utf8(c)|, maxByteLen)
  {
    hide Utf8;
    Utf8Concat(done, [c]);
    assert Utf8All([c]) == Utf8(c) + Utf8All([]);
    if 0 < maxByteLen {
      var n := used + |Utf8(c)|;
      assert after[..n] == after[..used] + after[used..n];
      assert bytes[n..] == bytes[used..][|Utf8(c)|..] && before[n..] == before[used..][|Utf8(c)|..];
    }
  }

  /** One character to the output, or only counted; 0 if it finds no place. The room left is passed on in 32 bits. */
  method Put(ch: Code, bytes: array<byte>, used: nat, maxByteLen: nat, ghost done: seq<Code>, ghost before: seq<byte>)
    returns (written: nat)
    requires 0 < maxByteLen ==> used < maxByteLen
    requires Wrote(bytes[..], before, done, used, maxByteLen)
    modifies bytes
    ensures written == 0 <==> !FindsPlace(ch, used, maxByteLen)
    ensures written == 0 ==> Wrote(bytes[..], before, done, used, maxByteLen)
    ensures written != 0 ==> written == |Utf8(ch)| && Wrote(bytes[..], before, done + [ch], used + written, maxByteLen)
  {
    hide Wrote;
    WroteWithin(bytes[..], before, done, used, maxByteLen);
    ghost var s := bytes[..];
    if ch < 0x80 {
      if 0 < maxByteLen {
        bytes[used] := ch;
      }
      written := 1;
    } else if 0 < maxByteLen {
      written := ToUTF8Core(ch, bytes, used, (maxByteLen - used) % TWO32);
      assert written == 0 ==> bytes[..] == s[..used] + s[used..] == s;
    } else {
      written := BytesToWrite(ch);
    }
    if written != 0 {
      WroteOneMore(s, bytes[..], before, done, used, maxByteLen, ch);
    }
  }

  /** The conversion. With an output limit it writes the characters it says it consumed; with limit 0 it only counts.
      `strict` refuses unpaired surrogates. What is converted depends on the text and the limit only. */
  method ToUTF8(strict: bool, units: seq<Unit>, bytes: array<byte>, maxByteLen: nat) returns (consumed: nat, used: nat)
    requires maxByteLen <= bytes.Length
    modifies bytes
    ensures var done := Converted(Codes(units), strict, 0, maxByteLen);
            && consumed == |Utf16All(done)| && Utf16All(done) <= units
            && Wrote(bytes[..], old(bytes[..]), done, used, maxByteLen)
  {
    hide Codes, FirstCode, Utf16All, Utf8, Utf8All, Encodes, Wrote, GoesOn, FindsPlace, Converted;
    consumed, used := 0, 0;
    ghost var done: seq<Code> := [];
    NothingEncoded(units);
    GoesOnAtStart(units, strict, maxByteLen);
    NothingWritten(bytes[..], maxByteLen);
    while consumed < |units| && (maxByteLen == 0 || used < maxByteLen)
      invariant Encodes(units, done, consumed) && consumed <= |units|
      invariant GoesOn(units, strict, maxByteLen, done, consumed, used)
      invariant Wrote(bytes[..], old(bytes[..]), done, used, maxByteLen)
    {
      FirstCodeCases(units, consumed);
      EncodesOneMore(units, done, consumed);
      GoesOnWith(units, strict, maxByteLen, done, consumed, used);
      ghost var c := FirstCode(units[consumed..]);
      var ch: Code := units[consumed];
      consumed := consumed + 1;
      if 0xD800 <= ch {
        if ch <= 0xDBFF {
          if consumed < |units| && 0xDC00 <= units[consumed] <= 0xDFFF {
            ch := (ch - 0xD800) * 0x400 + (units[consumed] - 0xDC00) + 0x1_0000;
            consumed := consumed + 1;
          } else if strict {
            consumed := consumed - 1;
            break;
          }
        } else if strict && ch <= 0xDFFF {
          consumed := consumed - 1;
          break;
        }
      }
      var written := Put(ch, bytes, used, maxByteLen, done, old(bytes[..]));
      if written == 0 {
        consumed := consumed - (if ch < 0x1_0000 then 1 else 2);
        break;
      }
      used, done := used + written, done + [c];
    }
    if consumed == |units| || (0 < maxByteLen <= used) {
      GoesOnNoMore(units, strict, maxByteLen, done, consumed, used);
    }
    EncodesPrefix(units, done, consumed);
  }

  lemma EncodesPrefix(units: seq<Unit>, done: seq<Code>, consumed: nat)
    requires Encodes(units, done, consumed)
    ensures Utf16All(done) <= units && consumed == |Utf16All(done)|
  {
    assert Utf16All(done) == units[..consumed];
  }

  lemma NothingWritten(bytes: seq<byte>, maxByteLen: nat)
    requires maxByteLen <= |bytes|
    ensures Wrote(bytes, bytes, [], 0, maxByteLen)
  {
  }

  /** The character at an index: its first unit, or the pair that starts there. */
  lemma FirstCodeCases(units: seq<Unit>, at: nat)
    requires at < |units|
    ensures var c := FirstCode(units[at..]);
            if IsHigh(units[at]) && at + 1 < |units| && IsLow(units[at + 1]) then
              c == (units[at] as int - 0xD800) * 0x400 + (units[at + 1] as int - 0xDC00) + 0x1_0000 && |Utf16(c)| == 2
            else
              c == units[at] && |Utf16(c)| == 1
  {
  }

  /** A part of a text that is as long as the text is all of it. */
  lemma {:induction false} SameLength(codes: seq<Code>, done: seq<Code>)
    requires done <= codes
    ensures |Utf16All(done)| == |Utf16All(codes)| <==> done == codes
    ensures |Utf8All(done)| <= |Utf8All(codes)| && (|Utf8All(done)| == |Utf8All(codes)| <==> done == codes)
    decreases |codes|
  {
    hide Utf16, Utf8;
    if codes != [] {
      CodeTakesSpace(codes[0]);
      if done != [] {
        SameLength(codes[1..], done[1..]);
        assert done == codes <==> done[1..] == codes[1..];
      }
    }
  }

  lemma CodeTakesSpace(c: Code)
    ensures 0 < |Utf16(c)| && 0 < |Utf8(c)|
  {
  }

  /**
    Without a limit, the strict conversion gets through exactly the well-formed texts. The length computed in advance,
    which is kept in 32 bits, is the length produced for exactly those, if it is below 2^32 before it is cut; a
    well-formed text that needs more never has it.
   */
  lemma {:induction false} ConvertsWellFormed(units: seq<Unit>)
    ensures var done, total := Converted(Codes(units), true, 0, 0), |Utf8All(Codes(units))|;
            && (|Utf16All(done)| == |units| <==> IsWellFormed(units))
            && (total < TWO32 ==> (|Utf8All(done)| == total % TWO32 <==> IsWellFormed(units)))
            && (IsWellFormed(units) ==> (|Utf8All(done)| == total % TWO32 <==> total < TWO32))
  {
    hide FirstCode, Utf8, Utf16, Codes, Converted, Convertible;
    var codes := Codes(units);
    var done := Converted(codes, true, 0, 0);
    CodesInverse(units);
    SmallLimitIsSafe(codes, true, 0, 0);
    ConvertedIff(codes, true, 0, 0);
    EnoughPlace(codes, 0, 0);
    SameLength(codes, done);
    assert done == codes <==> IsWellFormed(units);
  }

  /** The length a conversion without limit would need; an unpaired surrogate counts three bytes. It is kept in 32 bits. */
  method ToUTF8Len(units: seq<Unit>) returns (bytesToWrite: nat)
    ensures bytesToWrite == |Utf8All(Codes(units))| % TWO32
  {
    hide Codes, FirstCode, Utf16All, Utf8All, Encodes, BytesToWrite;
    NoBytes();
    bytesToWrite := 0;
    var at := 0;
    ghost var done: seq<Code> := [];
    NothingEncoded(units);
    while at < |units|
      invariant at <= |units| && Encodes(units, done, at)
      invariant bytesToWrite == |Utf8All(done)| % TWO32
    {
      FirstCodeCases(units, at);
      EncodesOneMore(units, done, at);
      var ch: Code := units[at];
      at := at + 1;
      if 0xD800 <= ch <= 0xDBFF && at < |units| && 0xDC00 <= units[at] <= 0xDFFF {
        ch := (ch - 0xD800) * 0x400 + (units[at] - 0xDC00) + 0x1_0000;
        at := at + 1;
      }
      CountOneMore(bytesToWrite, done, ch);
      done := done + [ch];
      bytesToWrite := (bytesToWrite + BytesToWrite(ch)) % TWO32;
    }
    AllEncoded(units, done);
  }

  lemma NoBytes()
    ensures Utf8All([]) == []
  {
  }

  lemma CountOneMore(count: nat, done: seq<Code>, c: Code)
    requires count == |Utf8All(done)| % TWO32
    ensures (count + BytesToWrite(c)) % TWO32 == |Utf8All(done + [c])| % TWO32
  {
    hide Utf8, BytesToWrite;
    Utf8Concat(done, [c]);
    assert Utf8All([c]) == Utf8(c) + Utf8All([]);
  }

  lemma AllEncoded(units: seq<Unit>, done: seq<Code>)
    requires Encodes(units, done, |units|)
    ensures done == Codes(units)
  {
  }
}
