/** Documents of a few bytes, written out. */
module SmallDocuments {
  import opened Bytes
  import opened PropertyList
  import opened FileFormat
  import opened Objects
  import opened ObjectGraph
  import opened KeySearchAgreement
  import opened Encoding
  import opened FileLayout

  /** A document with one byte for each offset and reference; its first object is the top one. */
  function Small(objects: seq<byte>, offsets: seq<byte>): Document {
    var t := Trailer(1, 1, |offsets|, 0, 8 + |objects|);
    Document(HEADER + objects + offsets + TrailerBytes(t), t)
  }

  /** Its parts. */
  lemma {:induction false} SmallParts(objects: seq<byte>, offsets: seq<byte>)
    requires 8 + |objects| < 256 && |offsets| < 256
    ensures var d := Small(objects, offsets);
            && |d.bytes| == 8 + |objects| + |offsets| + TRAILER_SIZE
            && d.trailer == Trailer(1, 1, |offsets|, 0, 8 + |objects|)
            && TrailerOf(d.bytes) == d.trailer && d.HasMagic()
            && (forall i :: 8 <= i < 8 + |objects| ==> d.bytes[i] == objects[i - 8])
            && (forall i :: 0 <= i < |offsets| ==> d.bytes[8 + |objects| + i] == offsets[i])
  {
    hide TrailerBytes, TrailerOf;
    var d := Small(objects, offsets);
    TrailerFields(d.trailer);
    assert d.bytes[..7] == HEADER[..7] == MAGIC;
    assert d.bytes[|d.bytes| - TRAILER_SIZE..] == TrailerBytes(d.trailer);
  }

  lemma {:induction false} OneByte(s: seq<byte>, i: nat)
    requires i < |s|
    ensures SizedInt(s[i..i + 1]) == s[i]
  {
    assert s[i..i + 1] == [s[i]] && [s[i]][..0] == [];
    assert SizedInt([s[i]][..0]) == 0;
  }

  lemma {:induction false} SmallFits(objects: seq<byte>, offsets: seq<byte>)
    requires 0 < |objects| && 8 + |objects| < 256 && 0 < |offsets| < 256
    ensures var d := Small(objects, offsets);
            && d.trailer.Fits(|d.bytes|)
            && forall i :: 0 <= i < |offsets| ==> d.EntryPosition(i) == 8 + |objects| + i
  {
    hide TrailerBytes, TrailerOf;
    SmallParts(objects, offsets);
    assert Pow256(1) == 256;
  }

  lemma {:induction false} SmallOffset(objects: seq<byte>, offsets: seq<byte>, i: nat)
    requires 0 < |objects| && 8 + |objects| < 256 && 0 < |offsets| < 256 && i < |offsets|
    ensures var d := Small(objects, offsets);
            d.trailer.Fits(|d.bytes|) && d.OffsetOf(i) == offsets[i]
  {
    hide Small, TrailerBytes, SizedInt, TrailerOf, Trailer.Fits, Document.EntryPosition;
    SmallParts(objects, offsets);
    var d := Small(objects, offsets);
    SmallFits(objects, offsets);
    OneByte(d.bytes, 8 + |objects| + i);
  }

  lemma {:induction false} SmallReference(objects: seq<byte>, offsets: seq<byte>, i: nat)
    requires 8 <= i < 8 + |objects| < 256 && |offsets| < 256 && Small(objects, offsets).Valid() && objects[i - 8] < |offsets|
    ensures Small(objects, offsets).OffsetOfRefAt(i) == offsets[objects[i - 8]]
  {
    hide TrailerBytes, SizedInt, TrailerOf, Trailer.Fits, Document.OffsetOf;
    SmallParts(objects, offsets);
    OneByte(Small(objects, offsets).bytes, i);
    SmallOffset(objects, offsets, objects[i - 8]);
  }

  /** It is valid if its offsets are those of objects, and the bytes of references are numbers of objects. */
  lemma {:induction false} SmallIsValid(objects: seq<byte>, offsets: seq<byte>)
    requires 0 < |objects| && 8 + |objects| < 256 && 0 < |offsets| < 256
    requires (forall i :: 0 <= i < |offsets| ==> offsets[i] < 8 + |objects|) && 8 <= offsets[0]
    ensures var d := Small(objects, offsets);
            && d.Valid()
            && (forall i :: 0 <= i < |offsets| ==> d.OffsetOf(i) == offsets[i])
            && (forall i :: 8 <= i < 8 + |objects| && objects[i - 8] < |offsets| ==>
                              d.OffsetOfRefAt(i) == offsets[objects[i - 8]])
  {
    hide TrailerBytes, TrailerOf, Document.OffsetOf, Document.OffsetOfRefAt, Trailer.Fits;
    var d := Small(objects, offsets);
    SmallParts(objects, offsets);
    SmallOffset(objects, offsets, 0);
    forall i | 0 <= i < |offsets|
      ensures d.OffsetOf(i) == offsets[i]
    {
      SmallOffset(objects, offsets, i);
    }
    assert d.Valid();
    forall i | 8 <= i < 8 + |objects| && objects[i - 8] < |offsets|
      ensures d.OffsetOfRefAt(i) == offsets[objects[i - 8]]
    {
      SmallReference(objects, offsets, i);
    }
  }

  /** A dictionary of `n` pairs. */
  lemma {:induction false} DictAt(d: Document, off: nat, n: nat, children: seq<nat>)
    requires d.Valid() && 8 <= off && n < 15 && off + 1 + 2 * n <= d.trailer.offsetTableOffset && d.trailer.objectRefSize == 1
    requires d.bytes[off] == 0xD0 + n && |children| == 2 * n
    requires forall i :: 0 <= i < 2 * n ==> d.OffsetOfRefAt(off + 1 + i) == children[i]
    ensures NodeAt(d, off) == Branch(DictKind, children)
  {
    hide FixedHeader, BlockHeader, Document.Valid, Document.OffsetOfRefAt;
    assert LengthAt(d, off) == Some(Read(n, off + 1));
    assert HeaderAt(d, off) == Refs(DictKind, off + 1, 2 * n);
    forall i | 0 <= i < 2 * n
      ensures ResolveRefs(d, off + 1, 2 * n)[i] == children[i]
    {
      assert RefPosition(d, off + 1, i) == off + 1 + i;
    }
  }

  /** A string of one character, its length in the marker. */
  lemma {:induction false} ShortStringAt(d: Document, off: nat, c: byte)
    requires d.Valid() && 8 <= off && off + 2 < d.trailer.offsetTableOffset <= |d.bytes|
    requires d.bytes[off] == 0x51 && d.bytes[off + 1] == c
    ensures NodeAt(d, off) == Leaf(String([c]))
    ensures !IsHidden(d, off, [c]) && !IsLastBytes(d, off, [c])
  {
    hide FixedHeader, ContainerHeader, Document.Valid;
    assert LengthAt(d, off) == Some(Read(1, off + 1));
    assert Chars(d.bytes[off + 1..off + 2]) == [c];
    assert HeaderAt(d, off) == BlockHeader(d, off);
  }

  /** A string of one character, its length an integer object. */
  lemma {:induction false} LongStringAt(d: Document, off: nat, c: byte)
    requires d.Valid() && 8 <= off && off + 4 <= d.trailer.offsetTableOffset <= |d.bytes|
    requires d.bytes[off] == 0x5F && d.bytes[off + 1] == 0x10 && d.bytes[off + 2] == 0x01 && d.bytes[off + 3] == c
    ensures NodeAt(d, off) == Leaf(String([c]))
    ensures IsHidden(d, off, [c]) && !IsLastBytes(d, off, [c])
  {
    hide FixedHeader, ContainerHeader, Document.Valid, SizedInt;
    OneByte(d.bytes, off + 2);
    assert ReadInt(d, off + 1) == Some(Read(1, off + 3));
    assert LengthAt(d, off) == Some(Read(1, off + 3));
    assert Chars(d.bytes[off + 3..off + 4]) == [c];
    assert HeaderAt(d, off) == BlockHeader(d, off);
  }

  lemma {:induction false} BoolAt(d: Document, off: nat)
    requires d.Valid() && 8 <= off < d.trailer.offsetTableOffset && d.bytes[off] in {0x08, 0x09}
    ensures NodeAt(d, off) == Leaf(Bool(d.bytes[off] == 0x09))
  {
    hide BlockHeader, ContainerHeader, Document.Valid;
    assert HeaderAt(d, off) == FixedHeader(d, off);
  }
}
