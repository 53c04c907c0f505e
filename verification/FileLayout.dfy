/** Where everything stands in a written file, and that the reader's validator accepts it. */
module FileLayout {
  import opened Bytes
  import opened FileFormat
  import opened ObjectHeap
  import opened Encoding
  import opened ReadBack

  /** A list of objects the writer can write. */
  ghost predicate Writable(h: Heap, objtable: map<Ref, nat>, xs: seq<Ref>) {
    CanWrite(h, objtable, xs) && FitsInFile(h, objtable, xs)
  }

  ghost function FileOf(h: Heap, objtable: map<Ref, nat>, xs: seq<Ref>): Document
    requires Writable(h, objtable, xs)
  {
    Document(FileBytes(h, objtable, xs), Layout(h, objtable, xs))
  }

  lemma {:induction false} TableEntry(offsets: seq<nat>, size: nat, i: nat)
    requires i < |offsets|
    ensures ByteSize(i, size) + size <= |TableBytes(offsets, size)|
    ensures TableBytes(offsets, size)[ByteSize(i, size)..ByteSize(i, size) + size] == BigEndian(offsets[i], size)
  {
    hide BigEndian;
    var n := |offsets| - 1;
    MulSuccessor(n, size);
    if i < n {
      TableEntry(offsets[..n], size, i);
    }
  }

  /** The objects of a prefix of the list come first. */
  lemma {:induction false} ObjectsPrefix(h: Heap, objtable: map<Ref, nat>, size: nat, xs: seq<Ref>, i: nat)
    requires CanWrite(h, objtable, xs) && i <= |xs|
    ensures ObjectsBytes(h, objtable, size, xs[..i]) <= ObjectsBytes(h, objtable, size, xs)
  {
    hide ObjectBytes;
    if i < |xs| {
      var n := |xs| - 1;
      assert xs[..n][..i] == xs[..i];
      ObjectsPrefix(h, objtable, size, xs[..n], i);
    } else {
      assert xs[..i] == xs;
    }
  }

  /** Object number `i` stands at its offset, in front of the offset table. */
  lemma {:induction false} ObjectStands(h: Heap, objtable: map<Ref, nat>, size: nat, xs: seq<Ref>, i: nat)
    requires CanWrite(h, objtable, xs) && i < |xs|
    ensures var at := |ObjectsBytes(h, objtable, size, xs[..i])|;
            var e := ObjectBytes(h[xs[i]], objtable, size);
            && at + |e| <= |ObjectsBytes(h, objtable, size, xs)|
            && ObjectsBytes(h, objtable, size, xs)[at..at + |e|] == e
  {
    hide ObjectBytes;
    ObjectsPrefix(h, objtable, size, xs, i + 1);
    assert xs[..i + 1][..i] == xs[..i];
  }

  /** The four parts of the file. */
  lemma {:induction false} FileParts(h: Heap, objtable: map<Ref, nat>, xs: seq<Ref>)
    requires Writable(h, objtable, xs)
    ensures var f, t := FileBytes(h, objtable, xs), Layout(h, objtable, xs);
            var tableSize := ByteSize(|xs|, t.offsetIntSize);
            && |f| == t.offsetTableOffset + tableSize + TRAILER_SIZE
            && f[..8] == HEADER
            && f[8..t.offsetTableOffset] == ObjectsBytes(h, objtable, t.objectRefSize, xs)
            && f[t.offsetTableOffset..t.offsetTableOffset + tableSize] ==
               TableBytes(Offsets(h, objtable, t.objectRefSize, xs), t.offsetIntSize)
            && f[|f| - TRAILER_SIZE..] == TrailerBytes(t)
  {
    hide ObjectsBytes, TableBytes, Offsets, TrailerBytes, ByteCount, CanWrite;
  }

  /** The trailer is read back. */
  lemma {:induction false} TrailerIsReadBack(h: Heap, objtable: map<Ref, nat>, xs: seq<Ref>)
    requires Writable(h, objtable, xs)
    ensures |FileBytes(h, objtable, xs)| >= TRAILER_SIZE
    ensures TrailerOf(FileBytes(h, objtable, xs)) == Layout(h, objtable, xs)
  {
    hide FileBytes, TrailerBytes, TrailerOf, ObjectsBytes, CanWrite;
    FileParts(h, objtable, xs);
    var t := Layout(h, objtable, xs);
    TrailerFields(t);
  }

  lemma {:induction false} TrailerFields(t: Trailer)
    requires t.numObjects < TWO64 && t.topObject < TWO64 && t.offsetTableOffset < TWO64
    ensures TrailerOf(TrailerBytes(t)) == t
    ensures forall f: seq<byte> :: |f| >= TRAILER_SIZE && f[|f| - TRAILER_SIZE..] == TrailerBytes(t) ==> TrailerOf(f) == t
  {
    hide BigEndian, SizedInt, Pow256;
    var b := TrailerBytes(t);
    var sizes: seq<byte> := [0, 0, 0, 0, 0, 0, t.offsetIntSize, t.objectRefSize];
    var num, top, table := BigEndian(t.numObjects, 8), BigEndian(t.topObject, 8), BigEndian(t.offsetTableOffset, 8);
    Pow256Values();
    assert b == (((sizes + num) + top) + table);
    PartOf(sizes, num, top + table);
    PartOf(sizes + num, top, table);
    PartOf(sizes + num + top, table, []);
    assert b == sizes + num + (top + table) && b == sizes + num + top + table + [];
    SizedIntOfBigEndian(t.numObjects, 8);
    SizedIntOfBigEndian(t.topObject, 8);
    SizedIntOfBigEndian(t.offsetTableOffset, 8);
  }

  lemma PartOf(a: seq<byte>, x: seq<byte>, b: seq<byte>)
    ensures (a + x + b)[|a|..|a| + |x|] == x
  {
  }

  /** The sizes in the trailer are those of the file. */
  lemma {:induction false} LayoutFits(h: Heap, objtable: map<Ref, nat>, xs: seq<Ref>)
    requires Writable(h, objtable, xs)
    ensures Layout(h, objtable, xs).Fits(|FileBytes(h, objtable, xs)|)
  {
    hide FileBytes, ObjectsBytes, CanWrite;
    FileParts(h, objtable, xs);
  }

  lemma {:induction false} SubSlice(s: seq<byte>, at: nat, x: seq<byte>, i: nat, j: nat)
    requires at + |x| <= |s| && s[at..at + |x|] == x && i <= j <= |x|
    ensures s[at + i..at + j] == x[i..j]
  {
    forall k | 0 <= k < j - i
      ensures s[at + i..at + j][k] == x[i..j][k]
    {
      assert s[at..at + |x|][i + k] == s[at + (i + k)];
    }
  }

  /** A document whose offset table holds these offsets gives them back. */
  lemma {:induction false} EntryIsReadBack(d: Document, offsets: seq<nat>, i: nat)
    requires d.trailer.Fits(|d.bytes|) && i < |offsets| == d.trailer.numObjects
    requires d.trailer.offsetIntSize <= 8 && offsets[i] < Pow256(d.trailer.offsetIntSize)
    requires var tbl := d.trailer.offsetTableOffset;
             d.bytes[tbl..tbl + ByteSize(|offsets|, d.trailer.offsetIntSize)] == TableBytes(offsets, d.trailer.offsetIntSize)
    ensures d.OffsetOf(i) == offsets[i]
  {
    hide TableBytes, BigEndian, SizedInt, ByteSize;
    var size, tbl := d.trailer.offsetIntSize, d.trailer.offsetTableOffset;
    TableEntry(offsets, size, i);
    var at := ByteSize(i, size);
    SubSlice(d.bytes, tbl, TableBytes(offsets, size), at, at + size);
    SizedIntOfBigEndian(offsets[i], size);
  }

  /** Entry `i` of the offset table is the offset of object `i`. */
  lemma {:induction false} OffsetIsReadBack(h: Heap, objtable: map<Ref, nat>, xs: seq<Ref>, i: nat)
    requires Writable(h, objtable, xs) && i < |xs|
    requires Layout(h, objtable, xs).Fits(|FileBytes(h, objtable, xs)|)
    ensures FileOf(h, objtable, xs).OffsetOf(i) == ObjectOffset(h, objtable, Layout(h, objtable, xs).objectRefSize, xs, i)
    ensures FileOf(h, objtable, xs).OffsetOf(i) < Layout(h, objtable, xs).offsetTableOffset
  {
    hide FileBytes, TableBytes, ObjectsBytes, CanWrite, Document.OffsetOf, ObjectBytes;
    var t := Layout(h, objtable, xs);
    FileParts(h, objtable, xs);
    ObjectStands(h, objtable, t.objectRefSize, xs, i);
    EntryIsReadBack(FileOf(h, objtable, xs), Offsets(h, objtable, t.objectRefSize, xs), i);
  }

  /** Every written file is accepted, and its top object is the first in the list, right behind the header. */
  lemma {:induction false} WrittenFileIsValid(h: Heap, objtable: map<Ref, nat>, xs: seq<Ref>)
    requires Writable(h, objtable, xs)
    ensures FileOf(h, objtable, xs).Valid() && FileOf(h, objtable, xs).HasMagic()
    ensures FileOf(h, objtable, xs).OffsetOf(0) == 8
  {
    hide FileBytes, TableBytes, CanWrite, Document.OffsetOf, ObjectBytes, Trailer.Fits;
    LayoutFits(h, objtable, xs);
    FileParts(h, objtable, xs);
    var d := FileOf(h, objtable, xs);
    forall i | 0 <= i < |xs|
      ensures d.OffsetOf(i) == ObjectOffset(h, objtable, d.trailer.objectRefSize, xs, i)
      ensures d.OffsetOf(i) < d.trailer.offsetTableOffset
    {
      OffsetIsReadBack(h, objtable, xs, i);
    }
    assert d.bytes[..7] == d.bytes[..8][..7] == MAGIC;
    assert xs[..0] == [];
  }

  lemma {:induction false} PartIsHeld(d: Document, objects: seq<byte>, at: nat, e: seq<byte>)
    requires d.Valid() && d.bytes[8..d.trailer.offsetTableOffset] == objects
    requires at + |e| <= |objects| && objects[at..at + |e|] == e
    ensures Holds(d, 8 + at, e)
  {
    SubSlice(d.bytes, 8, objects, at, at + |e|);
  }

  lemma PartCanBeWritten(h: Heap, objtable: map<Ref, nat>, xs: seq<Ref>, i: nat)
    requires CanWrite(h, objtable, xs) && i < |xs|
    ensures CanWrite(h, objtable, xs[..i])
    ensures xs[i] in h && h[xs[i]].IsSound() && h[xs[i]].IsWritable() && forall c :: c in h[xs[i]].Children() ==> c in objtable
  {
  }

  /** Object number `i` stands where the offset table says. */
  lemma {:induction false} ObjectIsHeld(h: Heap, objtable: map<Ref, nat>, xs: seq<Ref>, i: nat)
    requires Writable(h, objtable, xs) && i < |xs| && FileOf(h, objtable, xs).Valid()
    ensures var d := FileOf(h, objtable, xs);
            Holds(d, d.OffsetOf(i), ObjectBytes(h[xs[i]], objtable, d.trailer.objectRefSize))
  {
    hide FileBytes, ObjectsBytes, Document.OffsetOf, ObjectBytes, Trailer.Fits, Offsets, TableBytes, CanWrite;
    hide Layout, Document.Valid, Holds, ByteCount;
    PartCanBeWritten(h, objtable, xs, i);
    var t := Layout(h, objtable, xs);
    LayoutFits(h, objtable, xs);
    OffsetIsReadBack(h, objtable, xs, i);
    FileParts(h, objtable, xs);
    ObjectStands(h, objtable, t.objectRefSize, xs, i);
    PartIsHeld(FileOf(h, objtable, xs), ObjectsBytes(h, objtable, t.objectRefSize, xs),
               |ObjectsBytes(h, objtable, t.objectRefSize, xs[..i])|, ObjectBytes(h[xs[i]], objtable, t.objectRefSize));
  }
}
