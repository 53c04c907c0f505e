/** Documents written out byte by byte: what the reader makes of a set, and what the writer makes of true. */
module LiteralDocuments {
  import opened Bytes
  import opened PropertyList
  import opened FileFormat
  import opened Objects
  import opened ObjectGraph
  import opened ObjectHeap
  import opened Flatten
  import opened Encoding
  import opened Reader
  import opened Writer
  import opened SmallDocuments

  /** A small integer in eight bytes. */
  lemma {:induction false} EightBytes(v: byte)
    ensures BigEndian(v, 8) == [0, 0, 0, 0, 0, 0, 0, v]
  {
    ZeroBytes();
    assert BigEndian(v, 8) == BigEndian(v / 256, 7) + [v % 256];
  }

  lemma {:induction false} ZeroBytes()
    ensures BigEndian(0, 7) == [0, 0, 0, 0, 0, 0, 0]
  {
    assert BigEndian(0, 1) == [0] && BigEndian(0, 2) == [0, 0] && BigEndian(0, 3) == [0, 0, 0];
    assert BigEndian(0, 4) == [0, 0, 0, 0] && BigEndian(0, 5) == [0, 0, 0, 0, 0] && BigEndian(0, 6) == [0, 0, 0, 0, 0, 0];
  }

  /** The trailer of a small document: six unused bytes, two sizes of one byte, three numbers of eight. */
  lemma {:induction false} SmallTrailer(numObjects: byte, topObject: byte, table: byte)
    ensures TrailerBytes(Trailer(1, 1, numObjects, topObject, table)) ==
            [0, 0, 0, 0, 0, 0, 1, 1,
             0, 0, 0, 0, 0, 0, 0, numObjects,
             0, 0, 0, 0, 0, 0, 0, topObject,
             0, 0, 0, 0, 0, 0, 0, table]
  {
    hide BigEndian;
    EightBytes(numObjects);
    EightBytes(topObject);
    EightBytes(table);
  }

  lemma HeaderIs()
    ensures HEADER == [0x62, 0x70, 0x6C, 0x69, 0x73, 0x74, 0x30, 0x30]
  {
  }

  /** "bplist00", a set of the objects 1 and 2, true, the integer 5, the offsets 8, 11 and 12, and the trailer. */
  const SET_OF_TWO: seq<byte> :=
    [0x62, 0x70, 0x6C, 0x69, 0x73, 0x74, 0x30, 0x30]
    + [0xC2, 0x01, 0x02, 0x09, 0x10, 0x05]
    + [8, 11, 12]
    + [0, 0, 0, 0, 0, 0, 1, 1, 0, 0, 0, 0, 0, 0, 0, 3, 0, 0, 0, 0, 0, 0, 0, 0, 0, 0, 0, 0, 0, 0, 0, 14]

  lemma {:induction false} SetOfTwo()
    ensures var d := Small([0xC2, 0x01, 0x02, 0x09, 0x10, 0x05], [8, 11, 12]);
            d.bytes == SET_OF_TWO && d.trailer == Trailer(1, 1, 3, 0, 14)
  {
    hide TrailerBytes;
    HeaderIs();
    SmallTrailer(3, 0, 14);
  }

  /** A set of two objects, one byte each for a reference. */
  lemma {:induction false} SetAt(d: Document, off: nat, first: nat, second: nat)
    requires d.Valid() && 8 <= off && off + 3 <= d.trailer.offsetTableOffset && d.trailer.objectRefSize == 1
    requires d.bytes[off] == 0xC2 && d.OffsetOfRefAt(off + 1) == first && d.OffsetOfRefAt(off + 2) == second
    ensures NodeAt(d, off) == Branch(SetKind, [first, second])
  {
    hide FixedHeader, BlockHeader, Document.Valid, Document.OffsetOfRefAt;
    assert LengthAt(d, off) == Some(Read(2, off + 1));
    assert HeaderAt(d, off) == Refs(SetKind, off + 1, 2);
    assert RefPosition(d, off + 1, 0) == off + 1 && RefPosition(d, off + 1, 1) == off + 2;
  }

  lemma {:induction false} ByteIntegerAt(d: Document, off: nat)
    requires d.Valid() && 8 <= off && off + 2 <= d.trailer.offsetTableOffset <= |d.bytes| && d.bytes[off] == 0x10
    ensures NodeAt(d, off) == Leaf(Int(d.bytes[off + 1]))
  {
    hide BlockHeader, ContainerHeader, Document.Valid, SizedInt;
    OneByte(d.bytes, off + 1);
    assert HeaderAt(d, off) == FixedHeader(d, off);
  }

  /** What that document depends on. */
  ghost predicate LooksLikeSet(d: Document) {
    && d.Valid() && d.OffsetOf(0) == 8 && d.trailer == Trailer(1, 1, 3, 0, 14)
    && |d.bytes| == 49 && d.HasMagic() && TrailerOf(d.bytes) == d.trailer
    && d.bytes[8] == 0xC2 && d.bytes[11] == 0x09 && d.bytes[12] == 0x10 && d.bytes[13] == 5
    && d.OffsetOfRefAt(9) == 11 && d.OffsetOfRefAt(10) == 12
  }

  lemma {:induction false} SmallLooksLikeSet(objects: seq<byte>, offsets: seq<byte>)
    requires |objects| == 6 && |offsets| == 3
    requires objects[0] == 0xC2 && objects[1] == 1 && objects[2] == 2 && objects[3] == 9 && objects[4] == 0x10 && objects[5] == 5
    requires offsets[0] == 8 && offsets[1] == 11 && offsets[2] == 12
    ensures LooksLikeSet(Small(objects, offsets))
  {
    hide Document.Valid, TrailerBytes, TrailerOf, Document.OffsetOf, Document.OffsetOfRefAt, Small, Document.HasMagic;
    SmallParts(objects, offsets);
    SmallIsValid(objects, offsets);
  }

  lemma {:induction false} SetOfTwoMeans(eq: Equality, d: Document, g: Graph)
    requires LooksLikeSet(d) && IsGraphOf(g, d)
    ensures Meaning(eq, g, 8) == Some(Set(AddMembers(eq, [Bool(true), Int(5)])))
  {
    hide Document.Valid, Document.OffsetOf, Document.OffsetOfRefAt, NodeAt, Meaning, AddMembers, Document.HasMagic, TrailerOf;
    SetAt(d, 8, 11, 12);
    BoolAt(d, 11);
    ByteIntegerAt(d, 12);
    assert g(8) == NodeAt(d, 8) && g(11) == NodeAt(d, 11) && g(12) == NodeAt(d, 12);
    MeaningUnfolds(eq, g, 8);
    MeaningUnfolds(eq, g, 11);
    MeaningUnfolds(eq, g, 12);
    var children := [11, 12];
    assert forall i :: 0 <= i < 2 ==> !BadChild(eq, g, children, 0, i);
    assert KidsMeaning(eq, g, children, 0).value == [Bool(true), Int(5)];
  }

  /** The reader gives a set of both, unless they are equal. */
  method ParseSet(eq: Equality) returns (plist: Option<PList>)
    requires !eq(Bool(true), Int(5))
    ensures plist == Some(Set([Bool(true), Int(5)]))
  {
    hide LooksLikeSet, Document.Valid, Document.OffsetOf, Meaning, TrailerOf, GraphOf, Small, AddMembers, Document.HasMagic;
    var d := Small([0xC2, 0x01, 0x02, 0x09, 0x10, 0x05], [8, 11, 12]);
    SetOfTwo();
    SmallLooksLikeSet([0xC2, 0x01, 0x02, 0x09, 0x10, 0x05], [8, 11, 12]);
    LooksAccepted(d);
    SetOfTwoMeans(eq, d, GraphOf(d));
    DistinctMembersStay(eq, [Bool(true), Int(5)]);
    var isBinary;
    isBinary, plist := TryParse(eq, SET_OF_TWO, Immutable);
  }

  lemma LooksAccepted(d: Document)
    requires LooksLikeSet(d)
    ensures d.Valid() && d.HasMagic() && |d.bytes| == 49 && TrailerOf(d.bytes) == d.trailer
    ensures d.OffsetOf(d.trailer.topObject) == 8
    ensures d == Document(d.bytes, TrailerOf(d.bytes))
  {
    hide Document.Valid, Document.OffsetOf, Document.HasMagic, TrailerOf;
  }

  /** "bplist00", true, its offset, and the trailer. */
  const FILE_OF_TRUE: seq<byte> :=
    [0x62, 0x70, 0x6C, 0x69, 0x73, 0x74, 0x30, 0x30]
    + [0x09]
    + [8]
    + [0, 0, 0, 0, 0, 0, 1, 1, 0, 0, 0, 0, 0, 0, 0, 1, 0, 0, 0, 0, 0, 0, 0, 0, 0, 0, 0, 0, 0, 0, 0, 9]

  const TRUE_HEAP: Heap := map[0 := Simple(Bool(true))]
  const TRUE_RANK: map<Ref, nat> := map[0 := 0]

  lemma {:induction false} TrueIsFlattened()
    ensures IsAcyclic(TRUE_HEAP, TRUE_RANK)
    ensures FlattenRoot(TRUE_HEAP, TRUE_RANK, 0) == FlatState([0], map[0 := 0], {})
  {
    hide FlattenAll, FlattenObject;
    var st0, st1 := FlatState([], map[], {}), FlatState([0], map[0 := 0], {});
    FlattenNew(TRUE_HEAP, TRUE_RANK, 0, st0);
    assert Append(TRUE_HEAP[0], 0, st0) == st1;
    FlattenNothing(TRUE_HEAP, TRUE_RANK, 0, [], st1);
  }

  lemma {:induction false} FileOfTrue()
    ensures CanWrite(TRUE_HEAP, map[0 := 0], [0]) && FitsInFile(TRUE_HEAP, map[0 := 0], [0])
    ensures FileBytes(TRUE_HEAP, map[0 := 0], [0]) == FILE_OF_TRUE
  {
    hide TrailerBytes, TableBytes, Offsets, ObjectsBytes, CanWrite;
    var table: map<Ref, nat> := map[0 := 0];
    TrueObject();
    assert ByteCount(1) == 1 && ByteCount(9) == 1;
    OneOffset(8);
    HeaderIs();
    SmallTrailer(1, 0, 9);
    assert Layout(TRUE_HEAP, table, [0]) == Trailer(1, 1, 1, 0, 9);
  }

  lemma TrueObject()
    ensures CanWrite(TRUE_HEAP, map[0 := 0], [0])
    ensures ObjectsBytes(TRUE_HEAP, map[0 := 0], 1, [0]) == [0x09] && Offsets(TRUE_HEAP, map[0 := 0], 1, [0]) == [8]
  {
    var xs: seq<Ref> := [0];
    assert xs[..0] == [];
    assert ObjectsBytes(TRUE_HEAP, map[0 := 0], 1, []) == [];
  }

  lemma {:induction false} OneOffset(offset: byte)
    ensures TableBytes([offset], 1) == [offset]
  {
    assert BigEndian(offset, 1) == BigEndian(0, 0) + [offset];
    assert [offset][..0] == [];
    assert TableBytes([], 1) == [];
  }

  /** The file that the writer gives for true. */
  method WriteTrue() returns (length: nat, stream: seq<byte>)
    ensures length == 42 && stream == FILE_OF_TRUE
  {
    hide FlattenRoot, CanWrite, FitsInFile, FileBytes, IsAcyclic, AllWritable;
    TrueIsFlattened();
    FileOfTrue();
    CanWriteIsWritable();
    length, stream := BinaryPlistWrite(TRUE_HEAP, TRUE_RANK, 0);
  }

  lemma CanWriteIsWritable()
    ensures AllWritable(TRUE_HEAP, [0])
  {
  }
}
