/** When the search in the bytes finds what the parsed dictionary holds. */
module KeySearchAgreement {
  import opened Bytes
  import opened PropertyList
  import opened FileFormat
  import opened Objects
  import opened ObjectGraph
  import opened Reader
  import opened KeySearch

  /** An ASCII string object whose length is written as an integer although the key sought is shorter than 15. */
  predicate IsHidden(d: Document, off: nat, chars: seq<unichar>)
    requires d.Valid() && off < d.trailer.offsetTableOffset
  {
    d.bytes[off] / 16 == 0x5 && d.bytes[off] % 16 == 0xF && |chars| < 15
  }

  /** An ASCII string object of the length of the key, of which the last byte is the last of the object table. */
  predicate IsLastBytes(d: Document, off: nat, chars: seq<unichar>)
    requires d.Valid() && off < d.trailer.offsetTableOffset
  {
    && d.bytes[off] / 16 == 0x5
    && !IsHidden(d, off, chars)
    && LengthAt(d, off).Some?
    && LengthAt(d, off).value.value == |chars|
    && LengthAt(d, off).value.next + |chars| == d.trailer.offsetTableOffset
  }

  lemma {:induction false} AsciiStringAt(eq: Equality, d: Document, g: Graph, off: nat)
    requires IsGraphOf(g, d) && Meaning(eq, g, off).Some?
    requires off < d.trailer.offsetTableOffset && d.bytes[off] / 16 == 0x5
    ensures LengthAt(d, off).Some?
    ensures var Read(len, ptr) := LengthAt(d, off).value;
            && ptr + len <= d.trailer.offsetTableOffset
            && Meaning(eq, g, off) == Some(String(Chars(d.bytes[ptr..ptr + len])))
  {
    hide Document.Valid, FixedHeader, ContainerHeader, LengthAt;
    MeaningUnfolds(eq, g, off);
    assert g(off) == NodeAt(d, off);
    assert HeaderAt(d, off) == BlockHeader(d, off);
  }

  /** The bytes that an ASCII key is compared with, if there are any, are its characters. */
  ghost predicate HoldsAscii(chars: seq<unichar>, buffer: Option<seq<byte>>) {
    IsAscii(chars) && (buffer.Some? ==> Chars(buffer.value) == chars)
  }

  /** A key object that ends the search: the fast comparison takes its last byte to be outside the object table. */
  predicate Stops(d: Document, off: nat, chars: seq<unichar>, buffer: Option<seq<byte>>)
    requires d.Valid() && off < d.trailer.offsetTableOffset
  {
    buffer.Some? && IsLastBytes(d, off, chars)
  }

  /** A key object that the search takes for the string. */
  ghost predicate IsSeen(eq: Equality, d: Document, g: Graph, off: nat, chars: seq<unichar>, buffer: Option<seq<byte>>)
    requires d.Valid() && off < d.trailer.offsetTableOffset
  {
    Meaning(eq, g, off) == Some(String(chars)) && !(buffer.Some? && IsHidden(d, off, chars))
  }

  lemma {:induction false} SameChars(a: seq<byte>, b: seq<byte>)
    ensures a == b <==> Chars(a) == Chars(b)
  {
    if Chars(a) == Chars(b) {
      forall i | 0 <= i < |a|
        ensures a[i] == b[i]
      {
        assert Chars(a)[i] == Chars(b)[i];
      }
    }
  }

  /** The test of one key, in terms of what the key means. */
  lemma {:induction false} TestKeyMeans(eq: Equality, d: Document, g: Graph, chars: seq<unichar>, buffer: Option<seq<byte>>,
                                        off: nat)
    requires IsGraphOf(g, d) && ComparesStrings(eq) && HoldsAscii(chars, buffer) && off < d.trailer.offsetTableOffset
    requires Meaning(eq, g, off).Some? && IsPrimitive(Meaning(eq, g, off).value)
    ensures TestKey(eq, d, g, String(chars), buffer, off) ==
            if Stops(d, off, chars, buffer) then Abort
            else if IsSeen(eq, d, g, off, chars, buffer) then Match
            else NoMatch
  {
    hide IsGraphOf, TestBytes, Meaning;
    GraphIsValid(g, d);
    if buffer.Some? && d.bytes[off] / 16 == 0x5 {
      TestBytesMeans(eq, d, g, chars, buffer.value, off);
    }
  }

  /** The comparison of the bytes. */
  lemma {:induction false} TestBytesMeans(eq: Equality, d: Document, g: Graph, chars: seq<unichar>, buffer: seq<byte>, off: nat)
    requires IsGraphOf(g, d) && HoldsAscii(chars, Some(buffer)) && off < d.trailer.offsetTableOffset
    requires Meaning(eq, g, off).Some? && d.bytes[off] / 16 == 0x5
    ensures TestBytes(d, off, buffer) ==
            if IsLastBytes(d, off, chars) then Abort
            else if Meaning(eq, g, off) == Some(String(chars)) && !IsHidden(d, off, chars) then Match
            else NoMatch
  {
    hide IsGraphOf, Meaning, ReadInt;
    GraphIsValid(g, d);
    AsciiStringAt(eq, d, g, off);
    var Read(len, ptr) := LengthAt(d, off).value;
    SameChars(d.bytes[ptr..ptr + len], buffer);
  }

  /** No key reference is out of range. */
  ghost predicate KeysResolve(d: Document, keys: seq<nat>) {
    forall k :: 0 <= k < |keys| ==> keys[k] < d.trailer.offsetTableOffset
  }

  /** All key objects have been parsed, and are primitive. */
  ghost predicate KeysParse(eq: Equality, g: Graph, keys: seq<nat>) {
    forall k :: 0 <= k < |keys| ==> Meaning(eq, g, keys[k]).Some? && IsPrimitive(Meaning(eq, g, keys[k]).value)
  }

  /** The number of the first key from number `i` on that the search takes for the string, or the number of keys. */
  ghost function FirstSeen(eq: Equality, d: Document, g: Graph, keys: seq<nat>, chars: seq<unichar>, buffer: Option<seq<byte>>,
                           i: nat)
    : (s: nat)
    requires d.Valid() && KeysResolve(d, keys) && i <= |keys|
    ensures i <= s <= |keys|
    ensures s < |keys| ==> IsSeen(eq, d, g, keys[s], chars, buffer)
    ensures forall j :: i <= j < s ==> !IsSeen(eq, d, g, keys[j], chars, buffer)
    decreases |keys| - i
  {
    if i == |keys| || IsSeen(eq, d, g, keys[i], chars, buffer) then i
    else FirstSeen(eq, d, g, keys, chars, buffer, i + 1)
  }

  /** The search gives the first key that it sees, or none, and none if an earlier key, or that one, ends it. */
  lemma {:induction false} SearchIsFirstSeen(eq: Equality, d: Document, g: Graph, keys: seq<nat>, chars: seq<unichar>,
                                             buffer: Option<seq<byte>>, i: nat)
    requires IsGraphOf(g, d) && ComparesStrings(eq) && HoldsAscii(chars, buffer)
    requires KeysResolve(d, keys) && KeysParse(eq, g, keys) && i <= |keys|
    ensures var s := FirstSeen(eq, d, g, keys, chars, buffer, i);
            SearchFrom(eq, d, g, String(chars), buffer, keys, i) ==
            if s < |keys| && forall j :: i <= j <= s ==> !Stops(d, keys[j], chars, buffer) then Found(s) else NotFound
    decreases |keys| - i
  {
    hide Document.Valid, TestKey, IsSeen, Stops, HoldsAscii, ComparesStrings;
    if i < |keys| {
      TestKeyMeans(eq, d, g, chars, buffer, keys[i]);
      SearchIsFirstSeen(eq, d, g, keys, chars, buffer, i + 1);
    }
  }

  /** The dictionary at `startOffset` has been parsed. */
  ghost predicate IsParsedDictionary(eq: Equality, g: Graph, startOffset: nat) {
    && g(startOffset).Branch? && g(startOffset).kind.DictKind?
    && Meaning(eq, g, startOffset).Some?
  }

  /** The references of a dictionary are those of its keys, then those of its values. */
  lemma {:induction false} SplitRefs(d: Document, first: nat, count: nat)
    requires d.Valid()
    ensures var n := count / 2;
            && ResolveRefs(d, first, count)[..n] == ResolveRefs(d, first, n)
            && ResolveRefs(d, first, count)[n..2 * n] == ResolveRefs(d, RefPosition(d, first, n), n)
  {
    hide Document.Valid, Document.OffsetOfRefAt;
    var n := count / 2;
    var all, values := ResolveRefs(d, first, count), ResolveRefs(d, RefPosition(d, first, n), n);
    forall i | 0 <= i < n
      ensures values[i] == all[n + i]
    {
      ValuePosition(d, first, n, i);
      assert RefPosition(d, RefPosition(d, first, n), i) == RefPosition(d, first, n + i);
    }
  }

  lemma {:induction false} DictionaryHeader(d: Document, g: Graph, startOffset: nat)
    requires IsGraphOf(g, d) && g(startOffset).Branch? && g(startOffset).kind.DictKind?
    ensures RefsOf(d, startOffset, 0xD).Some?
    ensures var refs := RefsOf(d, startOffset, 0xD).value;
            g(startOffset).children == ResolveRefs(d, refs.next, refs.value)
  {
    hide Document.Valid, FixedHeader, BlockHeader, RefsAt;
    assert g(startOffset) == NodeAt(d, startOffset);
    assert HeaderAt(d, startOffset) == ContainerHeader(d, startOffset);
  }

  lemma {:induction false} KeysAndValues(d: Document, g: Graph, startOffset: nat)
    requires IsGraphOf(g, d) && g(startOffset).Branch? && g(startOffset).kind.DictKind?
    ensures var children := g(startOffset).children;
            var n := |children| / 2;
            KeyOffsets(d, startOffset) == children[..n] && ValueOffsets(d, startOffset) == children[n..2 * n]
  {
    DictionaryHeader(d, g, startOffset);
    var refs := RefsOf(d, startOffset, 0xD).value;
    SplitRefs(d, refs.next, refs.value);
  }

  /** The offsets of the keys of a dictionary, and of its values. */
  ghost function Keys(g: Graph, startOffset: nat): seq<nat>
    requires g(startOffset).Branch?
  {
    g(startOffset).children[..|g(startOffset).children| / 2]
  }

  ghost function Values(g: Graph, startOffset: nat): (offsets: seq<nat>)
    requires g(startOffset).Branch?
    ensures |offsets| == |Keys(g, startOffset)|
  {
    var n := |g(startOffset).children| / 2;
    g(startOffset).children[n..2 * n]
  }

  /** The parsed children of a dictionary: its keys, then its values. */
  lemma {:induction false} ParsedPairs(eq: Equality, g: Graph, startOffset: nat)
    returns (keys: seq<PList>, values: seq<PList>)
    requires IsParsedDictionary(eq, g, startOffset)
    ensures |keys| == |values| == |Keys(g, startOffset)|
    ensures forall i :: 0 <= i < |keys| ==> Meaning(eq, g, Keys(g, startOffset)[i]) == Some(keys[i])
    ensures forall i :: 0 <= i < |keys| ==> IsPrimitive(keys[i])
    ensures forall i :: 0 <= i < |keys| ==> Meaning(eq, g, Values(g, startOffset)[i]) == Some(values[i])
    ensures var (ks, vs) := AddPairs(eq, keys, values);
            Meaning(eq, g, startOffset) == Some(Dict(ks, vs))
  {
    MeaningUnfolds(eq, g, startOffset);
    var children, n := g(startOffset).children, g(startOffset).KeyCount();
    var kids := KidsMeaning(eq, g, children, n).value;
    keys, values := kids[..n], kids[n..2 * n];
    forall i | 0 <= i < n
      ensures IsPrimitive(keys[i])
    {
      assert !BadChild(eq, g, children, n, i);
    }
  }

  /** All the keys of a parsed dictionary resolve to offsets of the object table. */
  lemma {:induction false} ParsedKeysResolve(eq: Equality, d: Document, g: Graph, startOffset: nat)
    requires IsGraphOf(g, d) && IsParsedDictionary(eq, g, startOffset)
    ensures KeysResolve(d, Keys(g, startOffset))
  {
    var keys, values := ParsedPairs(eq, g, startOffset);
    GraphIsBounded(d, g);
    forall i | 0 <= i < |keys|
      ensures Keys(g, startOffset)[i] < d.trailer.offsetTableOffset
    {
      MeaningUnfolds(eq, g, Keys(g, startOffset)[i]);
    }
  }

  /** The number of the first offset from number `i` on that means the string, or the number of offsets. */
  ghost function FirstKey(eq: Equality, g: Graph, offsets: seq<nat>, chars: seq<unichar>, i: nat): (m: nat)
    requires i <= |offsets|
    ensures i <= m <= |offsets|
    ensures m < |offsets| ==> Meaning(eq, g, offsets[m]) == Some(String(chars))
    ensures forall j :: i <= j < m ==> Meaning(eq, g, offsets[j]) != Some(String(chars))
    decreases |offsets| - i
  {
    if i == |offsets| || Meaning(eq, g, offsets[i]) == Some(String(chars)) then i
    else FirstKey(eq, g, offsets, chars, i + 1)
  }

  lemma {:induction false} FirstKeyIsIndex(eq: Equality, g: Graph, offsets: seq<nat>, chars: seq<unichar>, keys: seq<PList>, i: nat)
    requires ComparesStrings(eq) && i <= |keys| == |offsets|
    requires forall j :: 0 <= j < |keys| ==> Meaning(eq, g, offsets[j]) == Some(keys[j])
    ensures FirstKey(eq, g, offsets, chars, i) == i + IndexOf(eq, keys[i..], String(chars))
    decreases |keys| - i
  {
    if i < |keys| {
      FirstKeyIsIndex(eq, g, offsets, chars, keys, i + 1);
      assert keys[i..][1..] == keys[i + 1..];
    }
  }

  /** The parsed dictionary holds, under a string, the value of the first key that means it. */
  lemma {:induction false} DictionaryHolds(eq: Equality, g: Graph, startOffset: nat, chars: seq<unichar>)
    requires IsParsedDictionary(eq, g, startOffset) && ComparesStrings(eq)
    ensures var dict := Meaning(eq, g, startOffset).value;
            var m := FirstKey(eq, g, Keys(g, startOffset), chars, 0);
            && dict.Dict? && |dict.keys| == |dict.values|
            && Lookup(eq, dict, String(chars)) ==
               if m < |Keys(g, startOffset)| then Meaning(eq, g, Values(g, startOffset)[m]) else None
  {
    var keys, values := ParsedPairs(eq, g, startOffset);
    LookupIsFirstPair(eq, keys, values, chars);
    FirstKeyIsIndex(eq, g, Keys(g, startOffset), chars, keys, 0);
    assert keys[0..] == keys;
  }

  /** What a search gave is what the dictionary holds under the string: its value, or nothing. */
  ghost predicate Agrees(eq: Equality, g: Graph, startOffset: nat, chars: seq<unichar>, found: Outcome<(nat, nat)>)
    requires IsParsedDictionary(eq, g, startOffset) && ComparesStrings(eq)
  {
    DictionaryHolds(eq, g, startOffset, chars);
    var held := Lookup(eq, Meaning(eq, g, startOffset).value, String(chars));
    match found
    case Found(offsets) =>
      && Meaning(eq, g, offsets.0) == Some(String(chars))
      && held.Some? && Meaning(eq, g, offsets.1) == held
    case NotFound => held.None?
    case Undefined => false
  }

  lemma {:induction false} ParsedKeysParse(eq: Equality, g: Graph, startOffset: nat)
    requires IsParsedDictionary(eq, g, startOffset)
    ensures KeysParse(eq, g, Keys(g, startOffset)) && |Values(g, startOffset)| == |Keys(g, startOffset)|
    ensures forall i :: 0 <= i < |Values(g, startOffset)| ==> Meaning(eq, g, Values(g, startOffset)[i]).Some?
  {
    var keys, values := ParsedPairs(eq, g, startOffset);
  }

  /** The result of the search of a dictionary that parses: it stays in the data, whatever it gives. */
  lemma {:induction false} SearchResultIs(eq: Equality, d: Document, g: Graph, startOffset: nat, chars: seq<unichar>,
                                          buffer: Option<seq<byte>>)
    requires IsGraphOf(g, d) && IsParsedDictionary(eq, g, startOffset) && ComparesStrings(eq) && HoldsAscii(chars, buffer)
    ensures KeysResolve(d, Keys(g, startOffset)) && KeysParse(eq, g, Keys(g, startOffset))
    ensures var keys, values := Keys(g, startOffset), Values(g, startOffset);
            var s := FirstSeen(eq, d, g, keys, chars, buffer, 0);
            SearchResult(eq, d, g, startOffset, String(chars), buffer) ==
            if s < |keys| && forall j :: 0 <= j <= s ==> !Stops(d, keys[j], chars, buffer) then Found((keys[s], values[s]))
            else NotFound
  {
    hide Document.Valid, Stops, HoldsAscii, ComparesStrings, SearchFrom, Meaning, IsHidden, KeyOffsets, ValueOffsets;
    ParsedKeysResolve(eq, d, g, startOffset);
    ParsedKeysParse(eq, g, startOffset);
    KeysAndValues(d, g, startOffset);
    SearchIsFirstSeen(eq, d, g, Keys(g, startOffset), chars, buffer, 0);
  }

  /**
    The theorem. For any dictionary that parses and any ASCII string, the search gives what the dictionary holds if
    and only if, should a key be the string, the search sees one, none up to that one ends the search, and the value
    of that one is the value of the first.
   */
  lemma {:induction false} SearchAgreesIff(eq: Equality, d: Document, g: Graph, startOffset: nat, chars: seq<unichar>,
                                           buffer: Option<seq<byte>>)
    requires IsGraphOf(g, d) && IsParsedDictionary(eq, g, startOffset) && ComparesStrings(eq) && HoldsAscii(chars, buffer)
    ensures KeysResolve(d, Keys(g, startOffset))
    ensures var keys, values := Keys(g, startOffset), Values(g, startOffset);
            var m, s := FirstKey(eq, g, keys, chars, 0), FirstSeen(eq, d, g, keys, chars, buffer, 0);
            Agrees(eq, g, startOffset, chars, SearchResult(eq, d, g, startOffset, String(chars), buffer)) <==>
            (m < |keys| ==>
               && s < |keys|
               && (forall j :: 0 <= j <= s ==> !Stops(d, keys[j], chars, buffer))
               && Meaning(eq, g, values[s]) == Meaning(eq, g, values[m]))
  {
    hide Document.Valid, Stops, HoldsAscii, ComparesStrings, SearchResult, Meaning, IsHidden;
    SearchResultIs(eq, d, g, startOffset, chars, buffer);
    ParsedKeysParse(eq, g, startOffset);
    DictionaryHolds(eq, g, startOffset, chars);
  }

  /** No key after the first that is the string is the string again. */
  ghost predicate OccursOnce(eq: Equality, g: Graph, keys: seq<nat>, chars: seq<unichar>) {
    forall j :: FirstKey(eq, g, keys, chars, 0) < j < |keys| ==> Meaning(eq, g, keys[j]) != Some(String(chars))
  }

  /** If no two keys are the string: if and only if the first is not hidden, and no key up to it ends the search. */
  lemma {:induction false} SearchAgreesOnceIff(eq: Equality, d: Document, g: Graph, startOffset: nat, chars: seq<unichar>,
                                               buffer: Option<seq<byte>>)
    requires IsGraphOf(g, d) && IsParsedDictionary(eq, g, startOffset) && ComparesStrings(eq) && HoldsAscii(chars, buffer)
    requires OccursOnce(eq, g, Keys(g, startOffset), chars)
    ensures KeysResolve(d, Keys(g, startOffset))
    ensures var keys := Keys(g, startOffset);
            var m := FirstKey(eq, g, keys, chars, 0);
            Agrees(eq, g, startOffset, chars, SearchResult(eq, d, g, startOffset, String(chars), buffer)) <==>
            (m < |keys| && buffer.Some? ==>
               !IsHidden(d, keys[m], chars) && forall j :: 0 <= j <= m ==> !IsLastBytes(d, keys[j], chars))
  {
    hide Document.Valid, HoldsAscii, ComparesStrings, SearchResult, Agrees, Meaning, IsHidden, IsLastBytes;
    SearchAgreesIff(eq, d, g, startOffset, chars, buffer);
  }

  /** Without bytes of the key every key object is parsed, so the first that is the string is seen, and none ends the search. */
  lemma {:induction false} ParsedIsSeen(eq: Equality, d: Document, g: Graph, keys: seq<nat>, chars: seq<unichar>, i: nat)
    requires d.Valid() && KeysResolve(d, keys) && i <= |keys|
    ensures FirstSeen(eq, d, g, keys, chars, None, i) == FirstKey(eq, g, keys, chars, i)
    ensures forall j :: 0 <= j < |keys| ==> !Stops(d, keys[j], chars, None)
    decreases |keys| - i
  {
    hide Document.Valid, Meaning, IsHidden, IsLastBytes;
    if i < |keys| {
      ParsedIsSeen(eq, d, g, keys, chars, i + 1);
    }
  }

  /** A key has bytes to compare with if it gives out a C string or is shorter than the buffer. */
  lemma HasBytes(chars: seq<unichar>, cString: Option<seq<byte>>, copied: seq<byte>)
    requires |copied| == 16 && (cString.Some? ==> |cString.value| == |chars|)
    ensures KeyBuffer(String(chars), cString, copied) ==
            if cString.Some? then cString else if |chars| < 16 then Some(copied[..|chars|]) else None
  {
  }

  /** Searching a dictionary in the bytes, and parsing the value where the search finds it. */
  method FindValue(eq: Equality, d: Document, ghost g: Graph, startOffset: nat, chars: seq<unichar>,
                   cString: Option<seq<byte>>, copied: seq<byte>)
    returns (value: Option<PList>)
    requires |copied| == 16 && (cString.Some? ==> |cString.value| == |chars|)
    requires IsGraphOf(g, d) && IsParsedDictionary(eq, g, startOffset) && ComparesStrings(eq)
    requires HoldsAscii(chars, KeyBuffer(String(chars), cString, copied))
    ensures var dict := Meaning(eq, g, startOffset).value;
            var buffer := KeyBuffer(String(chars), cString, copied);
            var keys, values := Keys(g, startOffset), Values(g, startOffset);
            && dict.Dict? && |dict.keys| == |dict.values| && KeysResolve(d, keys)
            && var m, s := FirstKey(eq, g, keys, chars, 0), FirstSeen(eq, d, g, keys, chars, buffer, 0);
            (value == Lookup(eq, dict, String(chars)) <==>
             (m < |keys| ==>
                && s < |keys|
                && (forall j :: 0 <= j <= s ==> !Stops(d, keys[j], chars, buffer))
                && Meaning(eq, g, values[s]) == Meaning(eq, g, values[m])))
            && (cString.None? && 16 <= |chars| ==> value == Lookup(eq, dict, String(chars)))
            && ((cString.Some? || |chars| < 16) && OccursOnce(eq, g, keys, chars) ==>
                  var m := FirstKey(eq, g, keys, chars, 0);
                  (value == Lookup(eq, dict, String(chars)) <==>
                   (m < |keys| ==>
                      !IsHidden(d, keys[m], chars) && forall j :: 0 <= j <= m ==> !IsLastBytes(d, keys[j], chars))))
  {
    hide Document.Valid, HoldsAscii, ComparesStrings, SearchResult, Meaning, Stops, NodeAt, KeyBuffer;
    ParsedKeysParse(eq, g, startOffset);
    ghost var buffer := KeyBuffer(String(chars), cString, copied);
    HasBytes(chars, cString, copied);
    SearchAgreesIff(eq, d, g, startOffset, chars, buffer);
    if buffer.None? {
      ParsedIsSeen(eq, d, g, Keys(g, startOffset), chars, 0);
    }
    if OccursOnce(eq, g, Keys(g, startOffset), chars) {
      SearchAgreesOnceIff(eq, d, g, startOffset, chars, buffer);
    }
    DictionaryHolds(eq, g, startOffset, chars);
    SearchResultIs(eq, d, g, startOffset, chars, buffer);
    var found := GetOffsetForValueFromDictionary(eq, d, g, startOffset, String(chars), cString, copied);
    if !found.Found? {
      return None;
    }
    value := CreateObject(eq, d, g, found.value.1, Immutable, null, null, 0, []);
  }
}
