/** The outer structure of a binary property list: trailer, offset table and object references. */
module FileFormat {
  import opened Bytes

  const TRAILER_SIZE: nat := 32

  /** The offset a bad reference resolves to. */
  const MAX_OFFSET: nat := TWO64 - 1

  datatype Trailer = Trailer(
    offsetIntSize: byte,
    objectRefSize: byte,
    numObjects: nat,
    topObject: nat,
    offsetTableOffset: nat)
  {
    /** The sizes are in range, add up to the length of the data, and can hold what they have to. */
    ghost predicate Fits(datalen: nat) {
      && 1 <= offsetIntSize && 1 <= objectRefSize
      && 1 <= numObjects <= LONG_MAX
      && topObject < numObjects
      && 9 <= offsetTableOffset <= LONG_MAX
      && datalen == offsetTableOffset + ByteSize(numObjects, offsetIntSize) + TRAILER_SIZE
      && (objectRefSize < 8 ==> numObjects < Pow256(objectRefSize))
      && (offsetIntSize < 8 ==> offsetTableOffset < Pow256(offsetIntSize))
    }
  }

  datatype Document = Document(bytes: seq<byte>, trailer: Trailer) {
    /** Where entry `i` of the offset table starts. */
    function EntryPosition(i: nat): (pos: nat)
      requires trailer.Fits(|bytes|) && i < trailer.numObjects
      ensures trailer.offsetTableOffset <= pos
      ensures pos + trailer.offsetIntSize <= |bytes| - TRAILER_SIZE
    {
      MulMonotone(i + 1, trailer.numObjects, trailer.offsetIntSize);
      MulSuccessor(i, trailer.offsetIntSize);
      trailer.offsetTableOffset + ByteSize(i, trailer.offsetIntSize)
    }

    /** Entry `i` of the offset table: the offset of object number `i`. */
    function OffsetOf(i: nat): nat
      requires trailer.Fits(|bytes|) && i < trailer.numObjects
    {
      SizedInt(bytes[EntryPosition(i)..EntryPosition(i) + trailer.offsetIntSize])
    }

    /** The header of the format, of which the last character of the version is not looked at. */
    ghost predicate HasMagic() {
      && 7 <= |bytes|
      && bytes[..7] == MAGIC
    }

    /** What an accepted document guarantees. */
    ghost predicate Valid() {
      && |bytes| < TWO64
      && trailer.Fits(|bytes|)
      && (forall i :: 0 <= i < trailer.numObjects ==> OffsetOf(i) < trailer.offsetTableOffset)
      && 8 <= OffsetOf(trailer.topObject)
    }

    /** The offset of the object that the reference at `pos` names. */
    function OffsetOfRefAt(pos: nat): (offset: nat)
      requires Valid()
      ensures offset < trailer.offsetTableOffset || offset == MAX_OFFSET
    {
      if pos < 8 || trailer.offsetTableOffset < pos + trailer.objectRefSize then MAX_OFFSET
      else
        var ref := SizedInt(bytes[pos..pos + trailer.objectRefSize]);
        if trailer.numObjects <= ref then MAX_OFFSET else OffsetOf(ref)
    }
  }

  /** The characters "bplist0". */
  const MAGIC: seq<byte> := [0x62, 0x70, 0x6C, 0x69, 0x73, 0x74, 0x30]

  /** The trailer as it is stored: six unused bytes, two sizes, three 8-byte integers. */
  function TrailerOf(bytes: seq<byte>): Trailer
    requires TRAILER_SIZE <= |bytes|
  {
    var t := bytes[|bytes| - TRAILER_SIZE..];
    Trailer(t[6], t[7], SizedInt(t[8..16]), SizedInt(t[16..24]), SizedInt(t[24..32]))
  }

  /** The size of `count` integers of `size` bytes each. */
  function ByteSize(count: nat, size: nat): nat {
    count * size
  }

  lemma MulMonotone(a: nat, b: nat, k: nat)
    requires a <= b
    ensures ByteSize(a, k) <= ByteSize(b, k)
  {
  }

  lemma MulSuccessor(a: nat, k: nat)
    ensures ByteSize(a + 1, k) == ByteSize(a, k) + k
  {
  }

  /** 64-bit addition and multiplication with an overflow flag. */
  datatype Checked = Checked(value: nat, overflow: bool)

  function CheckedAdd(x: nat, y: nat): (r: Checked)
    requires x < TWO64 && y < TWO64
    ensures r.overflow <==> x + y >= TWO64
    ensures !r.overflow ==> r.value == x + y
    ensures r.value < TWO64
  {
    Checked((x + y) % TWO64, TWO64 - 1 - y < x)
  }

  function CheckedMul(x: nat, y: nat): (r: Checked)
    requires x < TWO64 && y < TWO64
    ensures r.overflow <==> x * y >= TWO64
    ensures !r.overflow ==> r.value == x * y
    ensures r.value < TWO64
  {
    if x == 0 then Checked(0, false)
    else
      DivLess(TWO64 - 1, x, y);
      Checked((x * y) % TWO64, (TWO64 - 1) / x < y)
  }

  lemma {:induction false} DivLess(a: nat, x: nat, y: nat)
    requires x > 0
    ensures a / x < y <==> a < x * y
  {
    var q := a / x;
    assert a == x * q + a % x;
    if q < y {
      MulMonotone(q + 1, y, x);
      assert (q + 1) * x == x * q + x && y * x == x * y;
    } else {
      MulMonotone(y, q, x);
      assert q * x == x * q && y * x == x * y;
    }
  }

  /** The checks made on the trailer before the offset table is looked at, in the source's order. */
  predicate TrailerIsSound(t: Trailer, datalen: nat)
    requires TRAILER_SIZE + 8 + 1 <= datalen < TWO64
    requires t.numObjects < TWO64 && t.offsetTableOffset < TWO64
    ensures TrailerIsSound(t, datalen) <==> t.Fits(datalen)
  {
    var tableSize := CheckedMul(t.numObjects, t.offsetIntSize);
    assert 1 <= t.numObjects && 1 <= t.offsetIntSize ==> 1 <= t.numObjects * t.offsetIntSize;
    && !(LONG_MAX < t.numObjects) && !(LONG_MAX < t.offsetTableOffset)
    && !(t.numObjects < 1) && !(t.numObjects <= t.topObject)
    && !(t.offsetTableOffset < 9) && !(datalen - TRAILER_SIZE <= t.offsetTableOffset)
    && !(t.offsetIntSize < 1) && !(t.objectRefSize < 1)
    && !tableSize.overflow && !(tableSize.value < 1)
    && (var sum1 := CheckedAdd(8, t.offsetTableOffset - 8);
        var sum2 := CheckedAdd(sum1.value, tableSize.value);
        var sum3 := CheckedAdd(sum2.value, TRAILER_SIZE);
        && !sum1.overflow && !sum2.overflow && !sum3.overflow
        && datalen == sum3.value)
    && !(t.objectRefSize < 8 && Pow256(t.objectRefSize) <= t.numObjects)
    && !(t.offsetIntSize < 8 && Pow256(t.offsetIntSize) <= t.offsetTableOffset)
  }

  /** The scan of the offset table: every entry points into the object table. */
  method OffsetsInRange(d: Document) returns (ok: bool)
    requires d.trailer.Fits(|d.bytes|)
    ensures ok <==> forall i :: 0 <= i < d.trailer.numObjects ==> d.OffsetOf(i) < d.trailer.offsetTableOffset
  {
    var maxOffset := d.trailer.offsetTableOffset - 1;
    var pos: nat := d.trailer.offsetTableOffset;
    for idx := 0 to d.trailer.numObjects
      invariant pos == d.trailer.offsetTableOffset + ByteSize(idx, d.trailer.offsetIntSize)
      invariant forall i :: 0 <= i < idx ==> d.OffsetOf(i) <= maxOffset
    {
      assert pos == d.EntryPosition(idx);
      var entry := GetSizedInt(d.bytes, pos, d.trailer.offsetIntSize);
      if maxOffset < entry {
        assert d.OffsetOf(idx) == entry;
        return false;
      }
      MulSuccessor(idx, d.trailer.offsetIntSize);
      pos := pos + d.trailer.offsetIntSize;
    }
    return true;
  }

  datatype TopLevelInfo = TopLevelInfo(marker: byte, offset: nat, trailer: Trailer)

  /** Whether data is a binary property list, and what its trailer and top object are. */
  method GetTopLevelInfo(bytes: seq<byte>) returns (info: Option<TopLevelInfo>)
    requires |bytes| < TWO64
    ensures info.Some? <==>
            && TRAILER_SIZE + 8 + 1 <= |bytes|
            && Document(bytes, TrailerOf(bytes)).HasMagic()
            && Document(bytes, TrailerOf(bytes)).Valid()
    ensures info.Some? ==>
              var d := Document(bytes, TrailerOf(bytes));
              && info.value.trailer == d.trailer
              && info.value.offset == d.OffsetOf(d.trailer.topObject) < |bytes|
              && info.value.marker == bytes[info.value.offset]
  {
    if |bytes| < TRAILER_SIZE + 8 + 1 {
      return None;
    }
    if bytes[..7] != MAGIC {
      return None;
    }
    var t := TrailerOf(bytes);
    if !TrailerIsSound(t, |bytes|) {
      return None;
    }
    var d := Document(bytes, t);
    var inRange := OffsetsInRange(d);
    if !inRange {
      return None;
    }
    var pos := t.offsetTableOffset + ByteSize(t.topObject, t.offsetIntSize);
    assert pos == d.EntryPosition(t.topObject);
    var offset := GetSizedInt(bytes, pos, t.offsetIntSize);
    if offset < 8 || t.offsetTableOffset <= offset {
      return None;
    }
    return Some(TopLevelInfo(bytes[offset], offset, t));
  }

  /** Following the reference at `pos` through the offset table. */
  method GetOffsetOfRefAt(d: Document, pos: nat) returns (offset: nat)
    requires d.Valid()
    ensures offset == d.OffsetOfRefAt(pos)
  {
    var t := d.trailer;
    if pos < 8 || t.offsetTableOffset < pos + t.objectRefSize {
      return MAX_OFFSET;
    }
    var ref := GetSizedInt(d.bytes, pos, t.objectRefSize);
    if t.numObjects <= ref {
      return MAX_OFFSET;
    }
    offset := GetSizedInt(d.bytes, d.EntryPosition(ref), t.offsetIntSize);
  }
}
