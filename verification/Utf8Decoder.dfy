/** From UTF-8 to UTF-16, strictly. */
module Utf8Decoder {
  import opened Bytes
  import opened Unicode
  import opened Utf8Text
  import opened Utf8Limits

  /** The check of one sequence whose length is the one its first byte announces. */
  method IsLegalUTF8(source: seq<byte>, length: nat) returns (legal: bool)
    requires length <= |source| && 0 < length && length == TrailingBytes(source[0]) + 1
    ensures legal <==> IsUtf8Char(source[..length])
  {
    if 4 < length {
      return false;
    }
    var head := source[0];
    var srcptr := length - 1;
    while 0 < srcptr
      invariant srcptr < length
      invariant forall k :: srcptr < k < length ==> IsTail(source[k])
    {
      if source[srcptr] / 0x40 != 2 {
        return false;
      }
      srcptr := srcptr - 1;
    }
    if (0x80 <= head < 0xC2) || 0xF4 < head {
      return false;
    }
    if (head == 0xE0 && source[1] < 0xA0) || (head == 0xED && 0x9F < source[1])
       || (head == 0xF0 && source[1] < 0x90) || (head == 0xF4 && 0x8F < source[1]) {
      return false;
    }
    return true;
  }

  const OFFSETS_FROM_UTF8: seq<nat> := [0x0000_0000, 0x0000_3080, 0x000E_2080, 0x03C8_2080]

  /** The bytes of a sequence, shifted together; one subtraction takes all the marks away. */
  method Accumulate(source: seq<byte>, extraBytesToRead: nat) returns (ch: Code)
    requires extraBytesToRead < |source| && IsUtf8Char(source[..extraBytesToRead + 1])
    ensures ch == CodeOf(source[..extraBytesToRead + 1])
  {
    var n: nat, sum: nat := 0, 0;
    ghost var s := source[..extraBytesToRead + 1];
    if 3 <= extraBytesToRead { sum := (sum + source[n]) * 0x40; n := n + 1; }
    if 2 <= extraBytesToRead { sum := (sum + source[n]) * 0x40; n := n + 1; }
    if 1 <= extraBytesToRead { sum := (sum + source[n]) * 0x40; n := n + 1; }
    sum := sum + source[n];
    ch := sum - OFFSETS_FROM_UTF8[extraBytesToRead];
  }

  /** Reads the piece in front, or finds that there is none. */
  method ReadPiece(source: seq<byte>) returns (length: nat, ch: Code)
    requires source != []
    ensures length == PieceLength(source)
    ensures 0 < length ==> ch == PieceCode(source[..length])
  {
    var extraBytesToRead := TrailingBytes(source[0]);
    if |source| - 1 < extraBytesToRead {
      return 0, 0;
    }
    var legal := IsLegalUTF8(source, extraBytesToRead + 1);
    if 3 < extraBytesToRead || !legal {
      if source[0] == COPYRIGHT {
        return 1, REPLACEMENT;
      }
      return 0, 0;
    }
    ch := Accumulate(source, extraBytesToRead);
    return extraBytesToRead + 1, ch;
  }

  /** The units written: those of `done`, and nothing behind them. */
  ghost predicate Filled(units: seq<Unit>, before: seq<Unit>, done: seq<Code>, used: nat, maxCharLen: nat) {
    && |units| == |before|
    && used == |Utf16All(done)|
    && (maxCharLen == 0 ==> units == before)
    && (0 < maxCharLen ==> used <= maxCharLen <= |units| && units[..used] == Utf16All(done) && units[used..] == before[used..])
  }

  lemma NothingFilled(units: seq<Unit>, maxCharLen: nat)
    requires maxCharLen <= |units|
    ensures Filled(units, units, [], 0, maxCharLen)
  {
  }

  /** One character to the output, or only counted. */
  method Put(ch: Code, characters: array<Unit>, used: nat, maxCharLen: nat, ghost done: seq<Code>, ghost before: seq<Unit>)
    requires 0 < maxCharLen ==> used + |Utf16(ch)| <= maxCharLen
    requires Filled(characters[..], before, done, used, maxCharLen)
    modifies characters
    ensures Filled(characters[..], before, done + [ch], used + |Utf16(ch)|, maxCharLen)
  {
    ghost var s := characters[..];
    if 0 < maxCharLen {
      if ch < 0x1_0000 {
        characters[used] := ch;
      } else {
        characters[used] := (ch - 0x1_0000) / 0x400 + 0xD800;
        characters[used + 1] := (ch - 0x1_0000) % 0x400 + 0xDC00;
      }
    }
    FilledOneMore(s, characters[..], before, done, used, maxCharLen, ch);
  }

  lemma {:induction false} FilledOneMore(units: seq<Unit>, after: seq<Unit>, before: seq<Unit>, done: seq<Code>, used: nat,
                                         maxCharLen: nat, c: Code)
    requires Filled(units, before, done, used, maxCharLen)
    requires maxCharLen == 0 ==> after == units
    requires 0 < maxCharLen ==>
               && used + |Utf16(c)| <= maxCharLen && |after| == |units| && after[..used] == units[..used]
               && after[used..used + |Utf16(c)|] == Utf16(c) && after[used + |Utf16(c)|..] == units[used + |Utf16(c)|..]
    ensures Filled(after, before, done + [c], used + |Utf16(c)|, maxCharLen)
  {
    hide Utf16, Utf16All;
    Utf16Append(done, c);
    if 0 < maxCharLen {
      var n := used + |Utf16(c)|;
      assert after[..n] == after[..used] + after[used..n];
      assert units[n..] == units[used..][|Utf16(c)|..] && before[n..] == before[used..][|Utf16(c)|..];
    }
  }

  /** The conversion. What is written, and how much is reported as consumed, depends on the input and the limit only. */
  method FromUTF8(bytes: seq<byte>, characters: array<Unit>, maxCharLen: nat) returns (consumed: nat, used: nat)
    requires maxCharLen <= characters.Length
    modifies characters
    ensures Filled(characters[..], old(characters[..]), Written(bytes, maxCharLen), used, maxCharLen)
    ensures consumed == Consumed(bytes, maxCharLen)
  {
    hide Utf16All, IsUtf8Char, Decodes, Filled, PieceLength, PieceCode, Written, Consumed;
    consumed, used := 0, 0;
    ghost var done: seq<Code>, at := [], 0;
    NothingDecoded(bytes);
    NothingFilled(characters[..], maxCharLen);
    while consumed < |bytes| && (maxCharLen == 0 || used < maxCharLen)
      invariant consumed == at <= |bytes| && Decodes(bytes, done, at)
      invariant Filled(characters[..], old(characters[..]), done, used, maxCharLen)
    {
      var length, ch := ReadPiece(bytes[consumed..]);
      if length == 0 {
        break;
      }
      consumed := consumed + length;
      if 0xFFFF < ch && 0 < maxCharLen < used + 2 {
        break;
      }
      Put(ch, characters, used, maxCharLen, done, old(characters[..]));
      used := used + (if ch <= 0xFFFF then 1 else 2);
      DecodesOneMore(bytes, done, at);
      done := done + [ch];
      at := consumed;
    }
    NoPieceAtEnd(bytes);
    FilledBounds(characters[..], old(characters[..]), done, used, maxCharLen);
    EndsAsWritten(bytes, done, at, maxCharLen);
  }

  lemma NothingDecoded(bytes: seq<byte>)
    ensures Decodes(bytes, [], 0)
  {
  }

  lemma NoPieceAtEnd(bytes: seq<byte>)
    ensures PieceLength(bytes[|bytes|..]) == 0
  {
  }

  lemma FilledBounds(units: seq<Unit>, before: seq<Unit>, done: seq<Code>, used: nat, maxCharLen: nat)
    requires Filled(units, before, done, used, maxCharLen)
    ensures used == |Utf16All(done)| && (0 < maxCharLen ==> used <= maxCharLen)
  {
  }

  /** The number of units that a conversion without limit produces. */
  method FromUTF8Len(source: seq<byte>) returns (used: nat)
    ensures used == |Utf16All(AllCodes(source))|
  {
    hide Utf16All, Decodes, PieceLength, PieceCode, AllCodes;
    used := 0;
    ghost var done: seq<Code> := [];
    NothingDecoded(source);
    NoUnits();
    var next := 0;
    while next < |source|
      invariant next <= |source| && Decodes(source, done, next) && used == |Utf16All(done)|
    {
      var length, ch := ReadPiece(source[next..]);
      if length == 0 {
        break;
      }
      DecodesOneMore(source, done, next);
      Utf16Append(done, ch);
      next := next + length;
      used := used + (if ch <= 0xFFFF then 1 else 2);
      done := done + [ch];
    }
    NoPieceAtEnd(source);
    NothingFollows(source, done, next);
  }

  lemma NoUnits()
    ensures Utf16All([]) == []
  {
  }

  lemma NothingFollows(bytes: seq<byte>, done: seq<Code>, at: nat)
    requires Decodes(bytes, done, at) && at <= |bytes| && PieceLength(bytes[at..]) == 0
    ensures done == AllCodes(bytes)
  {
    DecodesAll(bytes, done, at);
  }
}
