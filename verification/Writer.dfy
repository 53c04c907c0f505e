/** The writer: flatten, number, and stream the objects through the buffer. */
module Writer {
  import opened Bytes
  import opened PropertyList
  import opened FileFormat
  import opened ObjectHeap
  import opened Flatten
  import opened Encoding
  import opened WriteBuffer

  method AppendInt(buf: Buffer, bigint: nat)
    requires buf.Valid() && bigint < TWO64
    modifies buf, buf.buffer
    ensures buf.Valid()
    ensures buf.Output() == old(buf.Output()) + IntBytes(bigint)
  {
    var nbytes, marker: byte;
    if bigint <= 0xff {
      nbytes, marker := 1, 0x10;
    } else if bigint <= 0xffff {
      nbytes, marker := 2, 0x11;
    } else if bigint <= 0xffff_ffff {
      nbytes, marker := 4, 0x12;
    } else {
      nbytes, marker := 8, 0x13;
    }
    buf.Write([marker]);
    buf.Write(BigEndian(bigint, nbytes));
  }

  method AppendUid(buf: Buffer, number: nat)
    requires buf.Valid() && number < TWO64
    modifies buf, buf.buffer
    ensures buf.Valid()
    ensures buf.Output() == old(buf.Output()) + UidBytes(number)
  {
    var nbytes: byte := if number <= 0xff then 1 else if number <= 0xffff then 2 else if number <= 0xffff_ffff then 4 else 8;
    buf.Write([0x80 + (nbytes - 1)]);
    buf.Write(BigEndian(number, nbytes));
  }

  /** A marker with the length in its low half, or followed by the length. */
  method AppendLead(buf: Buffer, marker: byte, count: nat)
    requires buf.Valid() && marker <= 0xF0 && count < TWO64
    modifies buf, buf.buffer
    ensures buf.Valid()
    ensures buf.Output() == old(buf.Output()) + Lead(marker, count)
  {
    hide IntBytes;
    buf.Write([marker + (if count < 15 then count else 0xF)]);
    if 15 <= count {
      AppendInt(buf, count);
    }
  }

  /** The loop over the objects contained in an array or a dictionary. */
  method AppendRefs(buf: Buffer, objtable: map<Ref, nat>, size: nat, list: seq<Ref>)
    requires buf.Valid() && forall x :: x in list ==> x in objtable
    modifies buf, buf.buffer
    ensures buf.Valid()
    ensures buf.Output() == old(buf.Output()) + RefBytes(objtable, size, list)
  {
    for idx := 0 to |list|
      invariant buf.Valid()
      invariant buf.Output() == old(buf.Output()) + RefBytes(objtable, size, list[..idx])
    {
      assert list[..idx + 1][..idx] == list[..idx];
      buf.Write(BigEndian(objtable[list[idx]], size));
    }
    assert list[..|list|] == list;
  }

  /** A marker and its bytes. */
  method AppendFixed(buf: Buffer, marker: byte, bytes: seq<byte>)
    requires buf.Valid()
    modifies buf, buf.buffer
    ensures buf.Valid()
    ensures buf.Output() == old(buf.Output()) + ([marker] + bytes)
  {
    buf.Write([marker]);
    buf.Write(bytes);
  }

  /** A marker, a length and the bytes. */
  method AppendBlock(buf: Buffer, marker: byte, count: nat, bytes: seq<byte>)
    requires buf.Valid() && marker <= 0xF0 && count < TWO64
    modifies buf, buf.buffer
    ensures buf.Valid()
    ensures buf.Output() == old(buf.Output()) + (Lead(marker, count) + bytes)
  {
    AppendLead(buf, marker, count);
    buf.Write(bytes);
  }

  method AppendSimple(buf: Buffer, v: PList)
    requires buf.Valid() && Simple(v).IsSound() && !v.Null?
    modifies buf, buf.buffer
    ensures buf.Valid()
    ensures buf.Output() == old(buf.Output()) + SimpleBytes(v)
  {
    hide Lead, IntBytes, UidBytes, BigEndian, UnicodeBytes, AsciiBytes;
    match v
    case Bool(b) => buf.Write([if b then 0x09 else 0x08]);
    case Int(bits) => AppendInt(buf, bits);
    case Int128(high, low) => AppendFixed(buf, 0x14, BigEndian(high, 8) + BigEndian(low, 8));
    case Real32(bits) => AppendFixed(buf, 0x22, BigEndian(bits, 4));
    case Real64(bits) => AppendFixed(buf, 0x23, BigEndian(bits, 8));
    case Date(bits) => AppendFixed(buf, 0x33, BigEndian(bits, 8));
    case Data(bytes) => AppendBlock(buf, 0x40, |bytes|, bytes);
    case String(chars) =>
      if IsAscii(chars) {
        AppendBlock(buf, 0x50, |chars|, AsciiBytes(chars));
      } else {
        AppendBlock(buf, 0x60, |chars|, UnicodeBytes(chars));
      }
    case UID(number) => AppendUid(buf, number);
  }

  /** One object, or nothing if its type cannot be written. */
  method AppendObject(buf: Buffer, o: Object, objtable: map<Ref, nat>, size: nat) returns (ok: bool)
    requires buf.Valid() && o.IsSound() && forall x :: x in o.Children() ==> x in objtable
    modifies buf, buf.buffer
    ensures buf.Valid()
    ensures ok == o.IsWritable()
    ensures ok <==> !o.Other? && !(o.Simple? && o.value.Null?)
    ensures ok ==> buf.Output() == old(buf.Output()) + ObjectBytes(o, objtable, size)
  {
    hide Lead, RefBytes, SimpleBytes;
    match o {
      case Simple(v) =>
        if v.Null? {
          return false;
        }
        AppendSimple(buf, v);
      case ArrayObject(items) =>
        AppendLead(buf, 0xA0, |items|);
        AppendRefs(buf, objtable, size, items);
      case DictObject(keys, values) =>
        AppendLead(buf, 0xD0, |keys|);
        AppendRefs(buf, objtable, size, keys + values);
      case Other =>
        return false;
    }
    return true;
  }

  /** The first object that cannot be written stops the writer. */
  ghost predicate AllWritable(h: Heap, xs: seq<Ref>) {
    forall x :: x in xs ==> x in h && h[x].IsWritable()
  }

  /** Writing the objects of the list, remembering where each one starts. */
  method WriteObjects(buf: Buffer, h: Heap, objlist: seq<Ref>, objtable: map<Ref, nat>, size: nat)
    returns (ok: bool, offsets: seq<nat>)
    requires buf.Valid() && buf.Output() == HEADER
    requires IsListed(h, objtable, objlist)
    modifies buf, buf.buffer
    ensures buf.Valid()
    ensures ok == AllWritable(h, objlist)
    ensures ok ==>
              && CanWrite(h, objtable, objlist)
              && buf.Output() == HEADER + ObjectsBytes(h, objtable, size, objlist)
              && offsets == Offsets(h, objtable, size, objlist)
  {
    hide ObjectsBytes, ObjectBytes, Offsets;
    NoOffsets(h, objtable, size);
    offsets := [];
    assert objlist[..0] == [];
    for idx := 0 to |objlist|
      invariant buf.Valid()
      invariant CanWrite(h, objtable, objlist[..idx])
      invariant buf.Output() == HEADER + ObjectsBytes(h, objtable, size, objlist[..idx])
      invariant offsets == Offsets(h, objtable, size, objlist[..idx])
    {
      var x := objlist[idx];
      offsets := offsets + [buf.written + buf.used];
      var done := AppendObject(buf, h[x], objtable, size);
      if !done {
        return false, offsets;
      }
      assert forall y :: y in objlist[..idx + 1] ==> y in objlist[..idx] || y == x;
      MoreObjects(h, objtable, size, objlist, idx);
      MoreOffsets(h, objtable, size, objlist, idx);
    }
    assert objlist[..|objlist|] == objlist;
    return true, offsets;
  }

  lemma NoOffsets(h: Heap, objtable: map<Ref, nat>, size: nat)
    ensures CanWrite(h, objtable, []) && ObjectsBytes(h, objtable, size, []) == [] && Offsets(h, objtable, size, []) == []
  {
  }

  lemma {:induction false} FewerObjects(h: Heap, objtable: map<Ref, nat>, xs: seq<Ref>, i: nat, k: nat)
    requires k <= i <= |xs| && CanWrite(h, objtable, xs[..i])
    ensures CanWrite(h, objtable, xs[..k]) && xs[..i][..k] == xs[..k]
  {
    assert xs[..k] <= xs[..i];
  }

  lemma {:induction false} MoreObjects(h: Heap, objtable: map<Ref, nat>, size: nat, xs: seq<Ref>, i: nat)
    requires i < |xs| && CanWrite(h, objtable, xs[..i + 1]) && CanWrite(h, objtable, xs[..i])
    ensures ObjectsBytes(h, objtable, size, xs[..i + 1]) ==
            ObjectsBytes(h, objtable, size, xs[..i]) + ObjectBytes(h[xs[i]], objtable, size)
  {
    hide ObjectBytes;
    assert xs[..i + 1][..i] == xs[..i];
  }

  /** One more object: its offset is the length of what was written before it. */
  lemma {:induction false} MoreOffsets(h: Heap, objtable: map<Ref, nat>, size: nat, xs: seq<Ref>, i: nat)
    requires i < |xs| && CanWrite(h, objtable, xs[..i + 1]) && CanWrite(h, objtable, xs[..i])
    ensures Offsets(h, objtable, size, xs[..i + 1]) ==
            Offsets(h, objtable, size, xs[..i]) + [8 + |ObjectsBytes(h, objtable, size, xs[..i])|]
  {
    hide ObjectsBytes, CanWrite;
    var before, after := Offsets(h, objtable, size, xs[..i]), Offsets(h, objtable, size, xs[..i + 1]);
    forall k | 0 <= k <= i
      ensures after[k] == if k < i then before[k] else 8 + |ObjectsBytes(h, objtable, size, xs[..i])|
    {
      FewerObjects(h, objtable, xs, i + 1, k);
      FewerObjects(h, objtable, xs, i, k);
    }
  }

  /** The loop over the offset table. */
  method AppendTable(buf: Buffer, offsets: seq<nat>, size: nat)
    requires buf.Valid()
    modifies buf, buf.buffer
    ensures buf.Valid()
    ensures buf.Output() == old(buf.Output()) + TableBytes(offsets, size)
  {
    for idx := 0 to |offsets|
      invariant buf.Valid()
      invariant buf.Output() == old(buf.Output()) + TableBytes(offsets[..idx], size)
    {
      assert offsets[..idx + 1][..idx] == offsets[..idx];
      buf.Write(BigEndian(offsets[idx], size));
    }
    assert offsets[..|offsets|] == offsets;
  }

  /** The end of the file: offset table and trailer. */
  method FinishFile(buf: Buffer, h: Heap, objtable: map<Ref, nat>, objlist: seq<Ref>, refSize: byte, offsets: seq<nat>)
    returns (length: nat)
    requires buf.Valid() && CanWrite(h, objtable, objlist) && FitsInFile(h, objtable, objlist)
    requires refSize == ByteCount(|objlist|) && offsets == Offsets(h, objtable, refSize, objlist)
    requires buf.Output() == HEADER + ObjectsBytes(h, objtable, refSize, objlist)
    modifies buf, buf.buffer
    ensures buf.Valid() && buf.stream == FileBytes(h, objtable, objlist) && 0 < length == |buf.stream|
  {
    hide ObjectsBytes, TableBytes, TrailerBytes, Offsets, ByteCount, CanWrite;
    var offsetTableOffset := buf.written + buf.used;
    var offsetIntSize := ComputeByteCount(offsetTableOffset);
    var trailer := Trailer(offsetIntSize, refSize, |objlist|, 0, offsetTableOffset);
    AppendTable(buf, offsets, offsetIntSize);
    buf.Write(TrailerBytes(trailer));
    buf.Flush();
    length := offsetTableOffset + ByteSize(|objlist|, offsetIntSize) + TRAILER_SIZE;
  }

  /** The list contains an object that cannot be written if and only if the root reaches null or an object of another type. */
  lemma {:induction false} RefusedIff(h: Heap, rank: map<Ref, nat>, root: Ref)
    requires IsAcyclic(h, rank) && root in h && |FlattenRoot(h, rank, root).objlist| <= TWO32
    ensures !AllWritable(h, FlattenRoot(h, rank, root).objlist) <==>
            exists x :: Reaches(h, root, x) && x in h && (h[x].Other? || (h[x].Simple? && h[x].value.Null?))
  {
    hide FlattenObject, IsAcyclic;
    var xs := FlattenRoot(h, rank, root).objlist;
    FlattenIsComplete(h, rank, root);
    FlattenLists(h, rank, root);
    ReachesItself(h, root);
    FlattenListsReachable(h, rank, root, root, FlatState([], map[], {}));
    forall x | Reaches(h, root, x)
      ensures x in xs && x in h
    {
    }
    assert forall x :: x in xs ==> Reaches(h, root, x);
    assert forall x :: x in h ==> (!h[x].IsWritable() <==> h[x].Other? || (h[x].Simple? && h[x].value.Null?));
  }

  /** Writing a property list: the number of bytes written, or 0 if some object cannot be written. */
  method BinaryPlistWrite(h: Heap, ghost rank: map<Ref, nat>, plist: Ref) returns (length: nat, stream: seq<byte>)
    requires IsAcyclic(h, rank) && plist in h
    requires var st := FlattenRoot(h, rank, plist);
             FitsInFile(h, st.objtable, st.objlist)
    ensures var st := FlattenRoot(h, rank, plist);
            && (length == 0 <==> !AllWritable(h, st.objlist))
            && (length == 0 <==>
                  exists x :: Reaches(h, plist, x) && x in h && (h[x].Other? || (h[x].Simple? && h[x].value.Null?)))
            && (length > 0 ==>
                  && CanWrite(h, st.objtable, st.objlist)
                  && stream == FileBytes(h, st.objtable, st.objlist)
                  && length == |stream|)
  {
    hide ObjectsBytes, Offsets, ByteCount, IsListed, FlattenObject, IsAcyclic, CanWrite, AllWritable, FileBytes, Reaches;
    RefusedIff(h, rank, plist);
    var lists := new FlatLists();
    lists.FlattenPlist(h, rank, plist);
    FlattenLists(h, rank, plist);
    var buf := new Buffer();
    buf.Write(HEADER);
    var refSize := ComputeByteCount(|lists.objlist|);
    var done, offsets := WriteObjects(buf, h, lists.objlist, lists.objtable, refSize);
    if !done {
      return 0, buf.stream;
    }
    length := FinishFile(buf, h, lists.objtable, lists.objlist, refSize, offsets);
    stream := buf.stream;
  }
}
