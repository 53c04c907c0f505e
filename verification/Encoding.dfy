/** The bytes that the writer produces: objects, offset table, trailer. */
module Encoding {
  import opened Bytes
  import opened PropertyList
  import opened FileFormat
  import opened ObjectHeap

  /** An integer object: its marker holds the binary logarithm of its size. */
  function IntBytes(v: nat): (s: seq<byte>)
    requires v < TWO64
    ensures s != []
  {
    var nbytes := ByteCount(v);
    [0x10 + Log2(nbytes)] + BigEndian(v, nbytes)
  }

  function Log2(n: nat): (k: byte)
    requires n in {1, 2, 4, 8}
    ensures k < 4 && Pow2(k) == n
  {
    assert Pow2(1) == 2 && Pow2(2) == 4 && Pow2(3) == 8;
    if n == 1 then 0 else if n == 2 then 1 else if n == 4 then 2 else 3
  }

  function UidBytes(v: nat): seq<byte>
    requires v < TWO64
  {
    [0x80 + (ByteCount(v) - 1)] + BigEndian(v, ByteCount(v))
  }

  /** The marker and length of a variable-sized object. */
  function Lead(marker: byte, count: nat): (s: seq<byte>)
    requires marker <= 0xF0 && count < TWO64
    ensures s != []
  {
    if count < 15 then [marker + count] else [marker + 0xF] + IntBytes(count)
  }

  /** One byte per character. */
  function AsciiBytes(chars: seq<unichar>): (s: seq<byte>)
    requires IsAscii(chars)
    ensures |s| == |chars|
  {
    seq(|chars|, i requires 0 <= i < |chars| => chars[i])
  }

  /** Two bytes per character, the high one first. */
  function UnicodeBytes(chars: seq<unichar>): (s: seq<byte>)
    ensures |s| == 2 * |chars|
  {
    seq(2 * |chars|, i requires 0 <= i < 2 * |chars| =>
      if i % 2 == 0 then chars[i / 2] / 256 else chars[i / 2] % 256)
  }

  function SimpleBytes(v: PList): (s: seq<byte>)
    requires Simple(v).IsSound() && !v.Null?
    ensures s != []
  {
    match v
    case Bool(b) => [if b then 0x09 else 0x08]
    case Int(bits) => IntBytes(bits)
    case Int128(high, low) => [0x14] + (BigEndian(high, 8) + BigEndian(low, 8))
    case Real32(bits) => [0x22] + BigEndian(bits, 4)
    case Real64(bits) => [0x23] + BigEndian(bits, 8)
    case Date(bits) => [0x33] + BigEndian(bits, 8)
    case Data(bytes) => Lead(0x40, |bytes|) + bytes
    case String(chars) =>
      if IsAscii(chars) then Lead(0x50, |chars|) + AsciiBytes(chars)
      else Lead(0x60, |chars|) + UnicodeBytes(chars)
    case UID(number) => UidBytes(number)
  }

  /** References: the low bytes of the 32-bit object numbers. */
  function RefBytes(objtable: map<Ref, nat>, size: nat, refs: seq<Ref>): (s: seq<byte>)
    requires forall x :: x in refs ==> x in objtable
    ensures |s| == ByteSize(|refs|, size)
  {
    if refs == [] then []
    else
      MulSuccessor(|refs| - 1, size);
      RefBytes(objtable, size, refs[..|refs| - 1]) + BigEndian(objtable[refs[|refs| - 1]], size)
  }

  /** The bytes of one object. */
  function ObjectBytes(o: Object, objtable: map<Ref, nat>, size: nat): (s: seq<byte>)
    requires o.IsSound() && o.IsWritable() && forall x :: x in o.Children() ==> x in objtable
    ensures s != []
  {
    match o
    case Simple(v) => SimpleBytes(v)
    case ArrayObject(items) => Lead(0xA0, |items|) + RefBytes(objtable, size, items)
    case DictObject(keys, values) => Lead(0xD0, |keys|) + RefBytes(objtable, size, keys + values)
  }

  /** Objects that can be written one after the other. */
  ghost predicate CanWrite(h: Heap, objtable: map<Ref, nat>, xs: seq<Ref>) {
    forall x :: x in xs ==>
      && x in h && h[x].IsSound() && h[x].IsWritable()
      && (forall c :: c in h[x].Children() ==> c in objtable)
  }

  /** The bytes of several objects, one after the other. */
  function ObjectsBytes(h: Heap, objtable: map<Ref, nat>, size: nat, xs: seq<Ref>): (s: seq<byte>)
    requires CanWrite(h, objtable, xs)
    ensures |xs| <= |s|
  {
    if xs == [] then []
    else ObjectsBytes(h, objtable, size, xs[..|xs| - 1]) + ObjectBytes(h[xs[|xs| - 1]], objtable, size)
  }

  /** The offset of object number `i`: behind the header and the objects before it. */
  function ObjectOffset(h: Heap, objtable: map<Ref, nat>, size: nat, xs: seq<Ref>, i: nat): nat
    requires CanWrite(h, objtable, xs) && i <= |xs|
  {
    8 + |ObjectsBytes(h, objtable, size, xs[..i])|
  }

  /** The first `n` entries of the offset table. */
  function TableBytes(offsets: seq<nat>, size: nat): (s: seq<byte>)
    ensures |s| == ByteSize(|offsets|, size)
  {
    if offsets == [] then []
    else
      MulSuccessor(|offsets| - 1, size);
      TableBytes(offsets[..|offsets| - 1], size) + BigEndian(offsets[|offsets| - 1], size)
  }

  function TrailerBytes(t: Trailer): (s: seq<byte>)
    ensures |s| == TRAILER_SIZE
  {
    [0, 0, 0, 0, 0, 0, t.offsetIntSize, t.objectRefSize]
    + BigEndian(t.numObjects, 8) + BigEndian(t.topObject, 8) + BigEndian(t.offsetTableOffset, 8)
  }

  /** "bplist00". */
  const HEADER: seq<byte> := MAGIC + [0x30]

  /** The sizes of what is written for a list of objects. */
  function Layout(h: Heap, objtable: map<Ref, nat>, xs: seq<Ref>): (t: Trailer)
    requires |xs| < TWO64 && CanWrite(h, objtable, xs)
    requires 8 + |ObjectsBytes(h, objtable, ByteCount(|xs|), xs)| < TWO64
  {
    var refSize := ByteCount(|xs|);
    var end := 8 + |ObjectsBytes(h, objtable, refSize, xs)|;
    Trailer(ByteCount(end), refSize, |xs|, 0, end)
  }

  function Offsets(h: Heap, objtable: map<Ref, nat>, size: nat, xs: seq<Ref>): (offsets: seq<nat>)
    requires CanWrite(h, objtable, xs)
    ensures |offsets| == |xs|
  {
    seq(|xs|, i requires 0 <= i < |xs| => ObjectOffset(h, objtable, size, xs, i))
  }

  /** The whole file for a list of objects, the first of which is the top one. */
  function FileBytes(h: Heap, objtable: map<Ref, nat>, xs: seq<Ref>): (s: seq<byte>)
    requires |xs| < TWO64 && CanWrite(h, objtable, xs)
    requires 8 + |ObjectsBytes(h, objtable, ByteCount(|xs|), xs)| < TWO64
  {
    var t := Layout(h, objtable, xs);
    HEADER
    + ObjectsBytes(h, objtable, t.objectRefSize, xs)
    + TableBytes(Offsets(h, objtable, t.objectRefSize, xs), t.offsetIntSize)
    + TrailerBytes(t)
  }

  /** Fewer than 2^32 objects, and a file that fits into a CFData, whose length is a CFIndex. */
  ghost predicate FitsInFile(h: Heap, objtable: map<Ref, nat>, xs: seq<Ref>) {
    && 0 < |xs| < TWO32
    && (CanWrite(h, objtable, xs) ==>
          && 8 + |ObjectsBytes(h, objtable, ByteCount(|xs|), xs)| <= LONG_MAX
          && |FileBytes(h, objtable, xs)| <= LONG_MAX)
  }
}
