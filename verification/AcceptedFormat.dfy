/** What the validator accepts, spelled out over the bytes. */
module AcceptedFormat {
  import opened Bytes
  import opened FileFormat
  import opened ObjectFormat

  /** Entry `i` of a table of big-endian integers. */
  function Entry(bytes: seq<byte>, table: nat, size: nat, i: nat): nat {
    if table + i * size + size <= |bytes| then Value(bytes[table + i * size..table + i * size + size]) % 0x1_0000_0000_0000_0000
    else 0
  }

  /** The sizes, counts and offsets of a binary property list of `n` bytes. */
  ghost predicate SizesFit(n: nat, offsetSize: nat, refSize: nat, count: nat, top: nat, table: nat) {
    && 1 <= offsetSize && 1 <= refSize
    && 1 <= count <= 0x7FFF_FFFF_FFFF_FFFF && top < count
    && 9 <= table <= 0x7FFF_FFFF_FFFF_FFFF
    && n == table + count * offsetSize + 32
    && (refSize == 1 ==> count < 0x100) && (refSize == 2 ==> count < 0x1_0000) && (refSize == 3 ==> count < 0x100_0000)
    && (refSize == 4 ==> count < 0x1_0000_0000) && (refSize == 5 ==> count < 0x100_0000_0000)
    && (refSize == 6 ==> count < 0x1_0000_0000_0000) && (refSize == 7 ==> count < 0x100_0000_0000_0000)
    && (offsetSize == 1 ==> table < 0x100) && (offsetSize == 2 ==> table < 0x1_0000) && (offsetSize == 3 ==> table < 0x100_0000)
    && (offsetSize == 4 ==> table < 0x1_0000_0000) && (offsetSize == 5 ==> table < 0x100_0000_0000)
    && (offsetSize == 6 ==> table < 0x1_0000_0000_0000) && (offsetSize == 7 ==> table < 0x100_0000_0000_0000)
  }

  /** "bplist0", a trailer whose sizes fit, offsets that lie in front of the table, and a top object behind the header. */
  ghost predicate IsBinaryPlist(bytes: seq<byte>) {
    && 41 <= |bytes|
    && bytes[..7] == [0x62, 0x70, 0x6C, 0x69, 0x73, 0x74, 0x30]
    && var t := bytes[|bytes| - 32..];
       var count, top, table := Value(t[8..16]), Value(t[16..24]), Value(t[24..32]);
       && SizesFit(|bytes|, t[6], t[7], count, top, table)
       && (forall i: nat :: i < count ==> Entry(bytes, table, t[6], i) < table)
       && 8 <= Entry(bytes, table, t[6], top)
  }

  lemma {:induction false} TrailerIs(bytes: seq<byte>)
    requires 32 <= |bytes|
    ensures var t, s := TrailerOf(bytes), bytes[|bytes| - 32..];
            && t.offsetIntSize == s[6] && t.objectRefSize == s[7]
            && t.numObjects == Value(s[8..16]) && t.topObject == Value(s[16..24]) && t.offsetTableOffset == Value(s[24..32])
  {
    hide Value, SizedInt;
    var s := bytes[|bytes| - 32..];
    ShortValue(s[8..16]);
    ShortValue(s[16..24]);
    ShortValue(s[24..32]);
  }

  lemma SizesAre(t: Trailer, n: nat)
    ensures t.Fits(n) <==> SizesFit(n, t.offsetIntSize, t.objectRefSize, t.numObjects, t.topObject, t.offsetTableOffset)
  {
    hide Pow256;
    Pow256Values();
    assert ByteSize(t.numObjects, t.offsetIntSize) == t.numObjects * t.offsetIntSize;
  }

  lemma {:induction false} EntryIs(d: Document, i: nat)
    requires d.trailer.Fits(|d.bytes|) && i < d.trailer.numObjects
    ensures d.OffsetOf(i) == Entry(d.bytes, d.trailer.offsetTableOffset, d.trailer.offsetIntSize, i)
  {
    hide SizedInt, Value, Trailer.Fits;
    var size, pos := d.trailer.offsetIntSize, d.EntryPosition(i);
    assert pos == d.trailer.offsetTableOffset + i * size;
    SizedIntIsValue(d.bytes[pos..pos + size]);
  }

  /** The validator accepts exactly these byte strings. */
  lemma {:induction false} AcceptedIff(bytes: seq<byte>)
    requires |bytes| < TWO64
    ensures IsBinaryPlist(bytes) <==>
            && TRAILER_SIZE + 8 + 1 <= |bytes|
            && Document(bytes, TrailerOf(bytes)).HasMagic()
            && Document(bytes, TrailerOf(bytes)).Valid()
  {
    hide Value, TrailerOf, Trailer.Fits, SizesFit, Entry, Document.OffsetOf;
    if 41 <= |bytes| {
      TrailerIs(bytes);
      var d := Document(bytes, TrailerOf(bytes));
      SizesAre(d.trailer, |bytes|);
      TopIsObject(d.trailer, |bytes|);
      if d.trailer.Fits(|bytes|) {
        forall i: nat | i < d.trailer.numObjects
          ensures d.OffsetOf(i) == Entry(bytes, d.trailer.offsetTableOffset, d.trailer.offsetIntSize, i)
        {
          EntryIs(d, i);
        }
      }
    }
  }

  lemma TopIsObject(t: Trailer, n: nat)
    ensures t.Fits(n) ==> t.topObject < t.numObjects
  {
  }

  /** The same of the method. */
  method Accepts(bytes: seq<byte>) returns (ok: bool)
    requires |bytes| < TWO64
    ensures ok <==> IsBinaryPlist(bytes)
  {
    AcceptedIff(bytes);
    var info := GetTopLevelInfo(bytes);
    ok := info.Some?;
  }
}
