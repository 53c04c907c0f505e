/** Three dictionaries in which the search in the bytes does not give what the reader does. */
module SearchCounterexamples {
  import opened Bytes
  import opened PropertyList
  import opened FileFormat
  import opened Objects
  import opened ObjectGraph
  import opened KeySearch
  import opened KeySearchAgreement
  import opened ObjectHeap
  import opened Flatten
  import opened Encoding
  import opened FileLayout
  import opened RoundTrip
  import opened WrittenSearch
  import opened SmallDocuments
  import opened Reader
  import opened Writer

  /** The one-character string "a". */
  const A: seq<unichar> := [0x61]

  /** A dictionary whose one key and one value are the same string object. */
  const SHARED: Heap := map[0 := DictObject([1], [1]), 1 := Simple(String(A))]
  const RANK: map<Ref, nat> := map[0 := 1, 1 := 0]

  lemma SharedIsAcyclic()
    ensures IsAcyclic(SHARED, RANK)
  {
  }

  lemma {:induction false} SharedIsFlattened()
    ensures IsAcyclic(SHARED, RANK)
    ensures FlattenRoot(SHARED, RANK, 0) == FlatState([0, 1], map[0 := 0, 1 := 1], {1})
  {
    var st0 := FlatState([], map[], {});
    var st1 := FlatState([0], map[0 := 0], {});
    var st2 := FlatState([0, 1], map[0 := 0, 1 := 1], {1});
    hide FlattenAll, FlattenObject;
    SharedIsAcyclic();
    var twice: seq<Ref> := [1, 1];
    FlattenNew(SHARED, RANK, 0, st0);
    FlattenNothing(SHARED, RANK, 1, twice[..0], st1);
    FlattenNew(SHARED, RANK, 1, st1);
    FlattenNothing(SHARED, RANK, 0, [], st2);
    FlattenNext(SHARED, RANK, 1, twice, 0, st1);
    FlattenKnown(SHARED, RANK, 1, st2);
    FlattenNext(SHARED, RANK, 1, twice, 1, st1);
    assert twice[..2] == twice;
  }

  lemma {:induction false} SharedFits()
    ensures var t: map<Ref, nat> := map[0 := 0, 1 := 1];
            CanWrite(SHARED, t, [0, 1]) && FitsInFile(SHARED, t, [0, 1])
  {
    var t: map<Ref, nat> := map[0 := 0, 1 := 1];
    var xs: seq<Ref> := [0, 1];
    assert xs[..1] == [0] && xs[..0] == [];
    assert ByteCount(2) == 1;
    assert |RefBytes(t, 1, SHARED[0].Children())| == 2;
    assert |ObjectBytes(SHARED[0], t, 1)| == 3;
    assert |ObjectBytes(SHARED[1], t, 1)| == 2;
    assert ObjectsBytes(SHARED, t, 1, [0]) == ObjectBytes(SHARED[0], t, 1) by {
      assert [0][..0] == [];
    }
    assert |ObjectsBytes(SHARED, t, 1, xs)| == 5;
    assert ByteCount(13) == 1;
  }

  lemma {:induction false} SharedIsFile(eq: Equality) returns (d: Document, g: Graph)
    ensures IsFile(eq, SHARED, RANK, map[0 := 0, 1 := 1], [0, 1], d, g) && g == GraphOf(d)
  {
    SharedIsFlattened();
    SharedFits();
    var t: map<Ref, nat> := map[0 := 0, 1 := 1];
    var xs: seq<Ref> := [0, 1];
    hide FileBytes, FitsInFile, CanWrite, Document.Valid;
    assert IsStorable(eq, SHARED, 0) && IsStorable(eq, SHARED, 1);
    assert IsNumbered(eq, SHARED, t, xs);
    d := FileOf(SHARED, t, xs);
    WrittenFileIsValid(SHARED, t, xs);
    g := GraphOf(d);
  }

  lemma {:induction false} SharedMeans(eq: Equality, d: Document, g: Graph)
    requires IsFile(eq, SHARED, RANK, map[0 := 0, 1 := 1], [0, 1], d, g)
    ensures Meaning(eq, g, 8) == Some(Dict([String(A)], [String(A)]))
    ensures Meaning(eq, g, d.OffsetOf(1)) == Some(String(A))
    ensures d.OffsetOf(0) == 8
    ensures d.Valid() && d.trailer.Fits(|d.bytes|) && d.trailer.numObjects == 2
  {
    hide FileBytes, FitsInFile, CanWrite, Document.OffsetOf, IsNumbered;
    var t: map<Ref, nat> := map[0 := 0, 1 := 1];
    WrittenFileIsValid(SHARED, t, [0, 1]);
    ObjectMeans(eq, SHARED, RANK, t, [0, 1], g, 0);
    ObjectMeans(eq, SHARED, RANK, t, [0, 1], g, 1);
    var v := ValueOf(SHARED, RANK, 0);
    assert v == Dict([String(A)], [String(A)]);
    StoredDictionary(v);
    assert Stored(v) == v;
  }

  /** The bytes that the key "a" is compared with. */
  const COPIED: seq<byte> := [0x61, 0, 0, 0, 0, 0, 0, 0, 0, 0, 0, 0, 0, 0, 0, 0]
  const BUFFER: Option<seq<byte>> := Some([0x61])

  lemma BufferOfA()
    ensures KeyBuffer(String(A), None, COPIED) == BUFFER && HoldsAscii(A, BUFFER)
  {
    assert COPIED[..1] == [0x61];
  }

  /** The writer's own file: the key is the last object, so the search gives up instead of finding it. */
  lemma {:induction false} SharedKeyIsNotFound(eq: Equality, d: Document, g: Graph)
    requires ComparesStrings(eq)
    requires IsFile(eq, SHARED, RANK, map[0 := 0, 1 := 1], [0, 1], d, g)
    ensures SearchResult(eq, d, g, 8, String(A), BUFFER) == NotFound
  {
    hide IsFile, Document.Valid, Document.OffsetOf, SearchResult, ComparesStrings, Meaning;
    var t: map<Ref, nat> := map[0 := 0, 1 := 1];
    SharedMeans(eq, d, g);
    BufferOfA();
    FileFits(eq, SHARED, RANK, t, [0, 1], d, g);
    WrittenKeys(eq, SHARED, RANK, t, [0, 1], d, g, 0);
    WrittenKeyStops(eq, SHARED, RANK, t, [0, 1], d, g, 1, A);
    SearchResultIs(eq, d, g, 8, A, BUFFER);
    assert Keys(g, 8)[0] == d.OffsetOf(1);
    assert IsLastString(SHARED, t, [0, 1], SHARED[0].keys[0], A);
  }

  lemma OneKey(eq: Equality, v: PList)
    requires ComparesStrings(eq)
    ensures Lookup(eq, Dict([String(A)], [v]), String(A)) == Some(v)
  {
    assert eq(String(A), String(A));
  }

  /** Writing that dictionary, parsing it, which gives the key, and searching it, which does not. */
  method SharedKeyIsMissed(eq: Equality) returns (plist: Option<PList>, found: Outcome<(nat, nat)>)
    requires ComparesStrings(eq)
    ensures plist == Some(Dict([String(A)], [String(A)])) && Lookup(eq, plist.value, String(A)) == Some(String(A))
    ensures found == NotFound
  {
    hide Document.Valid, Document.OffsetOf, SearchResult, ComparesStrings, Meaning, FileBytes, CanWrite, FlattenRoot;
    hide FitsInFile, TrailerOf, GraphOf, KeyBuffer, IsNumbered, Lookup, Document.HasMagic, IsAcyclic;
    SharedIsFlattened();
    SharedFits();
    BufferOfA();
    OneKey(eq, String(A));
    ghost var file, g := SharedIsFile(eq);
    SharedMeans(eq, file, g);
    SharedKeyIsNotFound(eq, file, g);
    TrailerIsReadBack(SHARED, map[0 := 0, 1 := 1], [0, 1]);
    WrittenFileIsValid(SHARED, map[0 := 0, 1 := 1], [0, 1]);
    ValidIsLongEnough(file);
    var length, stream := BinaryPlistWrite(SHARED, RANK, 0);
    assert file == Document(stream, TrailerOf(stream));
    var isBinary;
    isBinary, plist := TryParse(eq, stream, Immutable);
    var info := GetTopLevelInfo(stream);
    var d := Document(stream, info.value.trailer);
    found := GetOffsetForValueFromDictionary(eq, d, g, info.value.offset, String(A), None, COPIED);
  }

  /** A dictionary from "a" to true in which the length of the key is written as an integer. */
  const LONG_FORM: Document := Small([0xD1, 0x01, 0x02, 0x5F, 0x10, 0x01, 0x61, 0x09], [8, 11, 15])

  /** The same with a second key, again "a" but with its length in the marker, which has the value false. */
  const DUPLICATE: Document :=
    Small([0xD2, 0x01, 0x02, 0x03, 0x04, 0x5F, 0x10, 0x01, 0x61, 0x51, 0x61, 0x09, 0x08], [8, 13, 17, 19, 20])

  lemma {:induction false} LongFormNodes()
    ensures LONG_FORM.Valid() && LONG_FORM.OffsetOf(0) == 8
    ensures NodeAt(LONG_FORM, 8) == Branch(DictKind, [11, 15])
    ensures NodeAt(LONG_FORM, 11) == Leaf(String(A)) && NodeAt(LONG_FORM, 15) == Leaf(Bool(true))
    ensures IsHidden(LONG_FORM, 11, A) && !IsLastBytes(LONG_FORM, 11, A)
  {
    hide Document.Valid, TrailerBytes, TrailerOf, Document.OffsetOf, Document.OffsetOfRefAt, NodeAt, IsHidden, IsLastBytes, Small;
    var objects: seq<byte> := [0xD1, 0x01, 0x02, 0x5F, 0x10, 0x01, 0x61, 0x09];
    SmallParts(objects, [8, 11, 15]);
    SmallIsValid(objects, [8, 11, 15]);
    assert LONG_FORM.OffsetOfRefAt(9) == 11 && LONG_FORM.OffsetOfRefAt(10) == 15;
    DictAt(LONG_FORM, 8, 1, [11, 15]);
    LongStringAt(LONG_FORM, 11, 0x61);
    BoolAt(LONG_FORM, 15);
  }

  /** The parts of the second one on which the reader and the search depend. */
  ghost predicate LooksLikeDuplicate(d: Document) {
    && d.Valid() && d.OffsetOf(0) == 8
    && d.trailer.offsetTableOffset == 21 <= |d.bytes| && d.trailer.objectRefSize == 1
    && d.bytes[8] == 0xD2
    && d.OffsetOfRefAt(9) == 13 && d.OffsetOfRefAt(10) == 17 && d.OffsetOfRefAt(11) == 19 && d.OffsetOfRefAt(12) == 20
    && d.bytes[13] == 0x5F && d.bytes[14] == 0x10 && d.bytes[15] == 1 && d.bytes[16] == 0x61
    && d.bytes[17] == 0x51 && d.bytes[18] == 0x61 && d.bytes[19] == 0x09 && d.bytes[20] == 0x08
  }

  lemma {:induction false} SmallLooksSo(objects: seq<byte>, offsets: seq<byte>)
    requires |objects| == 13 && |offsets| == 5
    requires objects[0] == 0xD2 && objects[1] == 1 && objects[2] == 2 && objects[3] == 3 && objects[4] == 4
    requires objects[5] == 0x5F && objects[6] == 0x10 && objects[7] == 1 && objects[8] == 0x61
    requires objects[9] == 0x51 && objects[10] == 0x61 && objects[11] == 0x09 && objects[12] == 0x08
    requires offsets[0] == 8 && offsets[1] == 13 && offsets[2] == 17 && offsets[3] == 19 && offsets[4] == 20
    ensures LooksLikeDuplicate(Small(objects, offsets))
  {
    hide Document.Valid, TrailerBytes, TrailerOf, Document.OffsetOf, Document.OffsetOfRefAt, Small;
    SmallParts(objects, offsets);
    SmallIsValid(objects, offsets);
  }

  lemma DuplicateLooksSo()
    ensures LooksLikeDuplicate(DUPLICATE)
  {
    hide LooksLikeDuplicate, Small;
    SmallLooksSo([0xD2, 0x01, 0x02, 0x03, 0x04, 0x5F, 0x10, 0x01, 0x61, 0x51, 0x61, 0x09, 0x08], [8, 13, 17, 19, 20]);
  }

  lemma {:induction false} DuplicateNodes(d: Document)
    requires LooksLikeDuplicate(d)
    ensures d.Valid() && d.OffsetOf(0) == 8
    ensures NodeAt(d, 8) == Branch(DictKind, [13, 17, 19, 20])
    ensures NodeAt(d, 13) == Leaf(String(A)) && NodeAt(d, 17) == Leaf(String(A))
    ensures NodeAt(d, 19) == Leaf(Bool(true)) && NodeAt(d, 20) == Leaf(Bool(false))
    ensures IsHidden(d, 13, A) && !IsLastBytes(d, 13, A) && !IsHidden(d, 17, A) && !IsLastBytes(d, 17, A)
  {
    hide Document.Valid, Document.OffsetOf, Document.OffsetOfRefAt, NodeAt, IsHidden, IsLastBytes;
    DictAt(d, 8, 2, [13, 17, 19, 20]);
    LongStringAt(d, 13, 0x61);
    ShortStringAt(d, 17, 0x61);
    BoolAt(d, 19);
    BoolAt(d, 20);
  }

  /** What a dictionary of leaves means. */
  lemma {:induction false} LeavesMean(eq: Equality, g: Graph, children: seq<nat>, kids: seq<PList>)
    requires g(8) == Branch(DictKind, children) && |kids| == |children|
    requires forall i :: 0 <= i < |kids| ==> g(children[i]) == Leaf(kids[i]) && IsPrimitive(kids[i])
    ensures forall i :: 0 <= i < |kids| ==> Meaning(eq, g, children[i]) == Some(kids[i])
    ensures Meaning(eq, g, 8) == Some(Build(eq, DictKind, kids))
  {
    hide Meaning, KidsMeaning, Build, Parses;
    MeaningUnfolds(eq, g, 8);
    forall i | 0 <= i < |kids|
      ensures Meaning(eq, g, children[i]) == Some(kids[i]) && !BadChild(eq, g, children, g(8).KeyCount(), i)
    {
      MeaningUnfolds(eq, g, children[i]);
    }
    assert KidsMeaning(eq, g, children, g(8).KeyCount()).value == kids;
  }

  /** Of two pairs with the same key the first is kept. */
  lemma {:induction false} FirstOfTwo(eq: Equality, key: PList, v: PList, w: PList)
    requires eq(key, key)
    ensures AddPairs(eq, [key], [v]) == ([key], [v]) && AddPairs(eq, [key, key], [v, w]) == ([key], [v])
  {
    AddDistinctPairs(eq, [key], [v]);
    assert [key, key][..1] == [key] && [v, w][..1] == [v];
  }

  lemma {:induction false} BuildOneKey(eq: Equality)
    requires ComparesStrings(eq)
    ensures Build(eq, DictKind, [String(A), Bool(true)]) == Dict([String(A)], [Bool(true)])
  {
    hide ComparesStrings, AddPairs;
    var kids := [String(A), Bool(true)];
    assert kids[..1] == [String(A)] && kids[1..2] == [Bool(true)];
    AddDistinctPairs(eq, [String(A)], [Bool(true)]);
  }

  lemma {:induction false} BuildSameKey(eq: Equality)
    requires ComparesStrings(eq)
    ensures Build(eq, DictKind, [String(A), String(A), Bool(true), Bool(false)]) == Dict([String(A)], [Bool(true)])
  {
    hide AddPairs;
    var kids := [String(A), String(A), Bool(true), Bool(false)];
    assert kids[..2] == [String(A), String(A)] && kids[2..4] == [Bool(true), Bool(false)];
    FirstOfTwo(eq, String(A), Bool(true), Bool(false));
  }

  /** The reader finds "a" in this dictionary, the search does not. */
  lemma {:induction false} LongFormKeyIsNotFound(eq: Equality, g: Graph)
    requires ComparesStrings(eq) && IsGraphOf(g, LONG_FORM)
    ensures Meaning(eq, g, 8) == Some(Dict([String(A)], [Bool(true)]))
    ensures SearchResult(eq, LONG_FORM, g, 8, String(A), BUFFER) == NotFound
  {
    hide Document.Valid, SearchResult, ComparesStrings, NodeAt, Meaning, IsHidden, IsLastBytes, Build, Small;
    LongFormNodes();
    BuildOneKey(eq);
    BufferOfA();
    assert g(8) == NodeAt(LONG_FORM, 8) && g(11) == NodeAt(LONG_FORM, 11) && g(15) == NodeAt(LONG_FORM, 15);
    LeavesMean(eq, g, [11, 15], [String(A), Bool(true)]);
    SearchResultIs(eq, LONG_FORM, g, 8, A, BUFFER);
    assert Keys(g, 8) == [11];
  }

  lemma TwoPairs(g: Graph, off: nat, k: nat, k': nat, v: nat, v': nat)
    requires g(off) == Branch(DictKind, [k, k', v, v'])
    ensures Keys(g, off) == [k, k'] && Values(g, off) == [v, v']
  {
  }

  /** The reader gives the first value in this dictionary, the search the second. */
  lemma {:induction false} DuplicateIsMistaken(eq: Equality, d: Document, g: Graph)
    requires ComparesStrings(eq) && LooksLikeDuplicate(d) && IsGraphOf(g, d)
    ensures Meaning(eq, g, 8) == Some(Dict([String(A)], [Bool(true)]))
    ensures SearchResult(eq, d, g, 8, String(A), BUFFER) == Found((17, 20))
    ensures Meaning(eq, g, 20) == Some(Bool(false))
  {
    hide LooksLikeDuplicate, Document.Valid, SearchResult, ComparesStrings, NodeAt, Meaning, IsHidden, IsLastBytes, Build;
    DuplicateNodes(d);
    BuildSameKey(eq);
    BufferOfA();
    var children := [13, 17, 19, 20];
    assert g(8) == NodeAt(d, 8) && g(13) == NodeAt(d, 13) && g(17) == NodeAt(d, 17);
    assert g(19) == NodeAt(d, 19) && g(20) == NodeAt(d, 20);
    LeavesMean(eq, g, children, [String(A), String(A), Bool(true), Bool(false)]);
    SearchResultIs(eq, d, g, 8, A, BUFFER);
    TwoPairs(g, 8, 13, 17, 19, 20);
  }

  /** Parsing an accepted document, which gives the key, and searching it, which does not. */
  method LongFormKeyIsMissed(eq: Equality) returns (plist: Option<PList>, found: Outcome<(nat, nat)>)
    requires ComparesStrings(eq)
    ensures plist == Some(Dict([String(A)], [Bool(true)])) && Lookup(eq, plist.value, String(A)) == Some(Bool(true))
    ensures found == NotFound
  {
    hide Document.Valid, Document.OffsetOf, SearchResult, ComparesStrings, Meaning, TrailerOf, GraphOf, KeyBuffer, Lookup, Small;
    var d := LONG_FORM;
    LongFormNodes();
    ghost var g := GraphOf(d);
    LongFormIsAccepted();
    LongFormKeyIsNotFound(eq, g);
    OneKey(eq, Bool(true));
    BufferOfA();
    var isBinary;
    isBinary, plist := TryParse(eq, d.bytes, Immutable);
    found := GetOffsetForValueFromDictionary(eq, d, g, 8, String(A), None, COPIED);
  }

  /** Parsing another one, which gives true, and parsing where the search finds the value, which gives false. */
  method DuplicateGivesOther(eq: Equality) returns (plist: Option<PList>, value: Option<PList>)
    requires ComparesStrings(eq)
    ensures plist == Some(Dict([String(A)], [Bool(true)])) && Lookup(eq, plist.value, String(A)) == Some(Bool(true))
    ensures value == Some(Bool(false))
  {
    hide Document.Valid, Document.OffsetOf, SearchResult, ComparesStrings, Meaning, TrailerOf, GraphOf, KeyBuffer, Lookup, Small;
    hide LooksLikeDuplicate;
    var d := DUPLICATE;
    DuplicateLooksSo();
    DuplicateNodes(d);
    ghost var g := GraphOf(d);
    DuplicateIsAccepted();
    DuplicateIsMistaken(eq, d, g);
    OneKey(eq, Bool(true));
    BufferOfA();
    var isBinary;
    isBinary, plist := TryParse(eq, d.bytes, Immutable);
    var found := GetOffsetForValueFromDictionary(eq, d, g, 8, String(A), None, COPIED);
    value := CreateObject(eq, d, g, found.value.1, Immutable, null, null, 0, []);
  }

  lemma LongFormIsAccepted()
    ensures var d := LONG_FORM;
            TRAILER_SIZE + 8 + 1 <= |d.bytes| < TWO64 && TrailerOf(d.bytes) == d.trailer && d.HasMagic() && d.trailer.topObject == 0
  {
    hide TrailerOf, TrailerBytes;
    SmallParts([0xD1, 0x01, 0x02, 0x5F, 0x10, 0x01, 0x61, 0x09], [8, 11, 15]);
  }

  lemma DuplicateIsAccepted()
    ensures var d := DUPLICATE;
            TRAILER_SIZE + 8 + 1 <= |d.bytes| < TWO64 && TrailerOf(d.bytes) == d.trailer && d.HasMagic() && d.trailer.topObject == 0
  {
    hide TrailerOf, TrailerBytes;
    SmallParts([0xD2, 0x01, 0x02, 0x03, 0x04, 0x5F, 0x10, 0x01, 0x61, 0x51, 0x61, 0x09, 0x08], [8, 13, 17, 19, 20]);
  }
}
