/** Writing a property list and reading it back. */
module RoundTrip {
  import opened Bytes
  import opened PropertyList
  import opened FileFormat
  import opened Objects
  import opened ObjectGraph
  import opened ObjectHeap
  import opened Flatten
  import opened Encoding
  import opened ReadBack
  import opened FileLayout
  import opened Writer
  import opened Reader

  /** The property list that an object stands for. */
  ghost function ValueOf(h: Heap, rank: map<Ref, nat>, x: Ref): (v: PList)
    requires IsAcyclic(h, rank) && x in h
    ensures h[x].Simple? ==> v == h[x].value
    decreases rank[x]
  {
    match h[x]
    case Simple(v) => v
    case ArrayObject(items) =>
      assert items == h[x].Children();
      Array(seq(|items|, i requires 0 <= i < |items| => ValueOf(h, rank, items[i])))
    case DictObject(keys, values) =>
      assert forall k :: k in keys || k in values ==> k in h[x].Children();
      Dict(seq(|keys|, i requires 0 <= i < |keys| => ValueOf(h, rank, keys[i])),
           seq(|values|, i requires 0 <= i < |values| => ValueOf(h, rank, values[i])))
    case Other => Null
  }

  /** What is left of a property list in a file: 128-bit integers lose their high half. */
  ghost function Stored(v: PList): (s: PList)
    ensures IsPrimitive(v) ==> s == Lossy(v)
    decreases v
  {
    match v
    case Array(items) => Array(seq(|items|, i requires 0 <= i < |items| => Stored(items[i])))
    case Set(members) => Set(seq(|members|, i requires 0 <= i < |members| => Stored(members[i])))
    case Dict(keys, values) =>
      Dict(seq(|keys|, i requires 0 <= i < |keys| => Stored(keys[i])),
           seq(|values|, i requires 0 <= i < |values| => Stored(values[i])))
    case _ => Lossy(v)
  }

  /** No 128-bit integer with a high half. */
  ghost predicate NoWideIntegers(v: PList)
    decreases v
  {
    match v
    case Int128(high, _) => high == 0
    case Array(items) => forall i :: 0 <= i < |items| ==> NoWideIntegers(items[i])
    case Set(members) => forall i :: 0 <= i < |members| ==> NoWideIntegers(members[i])
    case Dict(keys, values) =>
      && (forall i :: 0 <= i < |keys| ==> NoWideIntegers(keys[i]))
      && (forall i :: 0 <= i < |values| ==> NoWideIntegers(values[i]))
    case _ => true
  }

  /** Storing changes nothing exactly when there are no such integers. */
  lemma {:induction false} StoredIsExactIff(v: PList)
    ensures Stored(v) == v <==> NoWideIntegers(v)
    decreases v
  {
    match v
    case Array(items) => AllStoredExactIff(v, items);
    case Set(members) => AllStoredExactIff(v, members);
    case Dict(keys, values) => AllStoredExactIff(v, keys); AllStoredExactIff(v, values);
    case _ =>
  }

  lemma {:induction false} AllStoredExactIff(v: PList, vs: seq<PList>)
    requires forall i :: 0 <= i < |vs| ==> vs[i] < v
    ensures seq(|vs|, i requires 0 <= i < |vs| => Stored(vs[i])) == vs <==> forall i :: 0 <= i < |vs| ==> NoWideIntegers(vs[i])
    decreases v, 0
  {
    var stored := seq(|vs|, i requires 0 <= i < |vs| => Stored(vs[i]));
    forall i | 0 <= i < |vs|
      ensures stored[i] == vs[i] <==> NoWideIntegers(vs[i])
    {
      StoredIsExactIff(vs[i]);
    }
    if forall i :: 0 <= i < |vs| ==> NoWideIntegers(vs[i]) {
      assert stored == vs;
    }
  }

  /** An object that can be stored: its type has a binary form, and a dictionary has simple keys that stay distinct in the file. */
  ghost predicate IsStorable(eq: Equality, h: Heap, x: Ref) {
    && x in h
    && (match h[x]
        case Simple(v) => v.Bool? || v.Int? || v.Int128? || v.Real32? || v.Real64? || v.Date? || v.Data? || v.String? || v.UID?
        case ArrayObject(_) => true
        case DictObject(_, _) => true
        case Other => false)
    && (h[x].DictObject? ==>
          && (forall k :: k in h[x].keys ==> k in h && h[k].Simple?)
          && DistinctKeys(eq, StoredKeys(h, h[x].keys)))
  }

  ghost function StoredKeys(h: Heap, keys: seq<Ref>): (vs: seq<PList>)
    requires forall k :: k in keys ==> k in h && h[k].Simple?
    ensures |vs| == |keys|
  {
    seq(|keys|, i requires 0 <= i < |keys| => Lossy(h[keys[i]].value))
  }

  /** Reference `i` in the bytes of a container. */
  lemma {:induction false} RefStands(objtable: map<Ref, nat>, size: nat, refs: seq<Ref>, i: nat)
    requires (forall x :: x in refs ==> x in objtable) && i < |refs|
    ensures ByteSize(i, size) + size <= |RefBytes(objtable, size, refs)|
    ensures RefBytes(objtable, size, refs)[ByteSize(i, size)..ByteSize(i, size) + size] == BigEndian(objtable[refs[i]], size)
  {
    hide BigEndian;
    var n := |refs| - 1;
    MulSuccessor(n, size);
    if i < n {
      RefStands(objtable, size, refs[..n], i);
    }
  }

  /** Reference `i` of a container leads to the offset of the object with that number. */
  lemma {:induction false} RefIsReadBack(d: Document, first: nat, objtable: map<Ref, nat>, refs: seq<Ref>, i: nat)
    requires (forall x :: x in refs ==> x in objtable && objtable[x] < d.trailer.numObjects) && i < |refs|
    requires d.trailer.objectRefSize in {1, 2, 4}
    requires Holds(d, first, RefBytes(objtable, d.trailer.objectRefSize, refs))
    requires d.trailer.numObjects < Pow256(d.trailer.objectRefSize)
    ensures d.OffsetOfRefAt(RefPosition(d, first, i)) == d.OffsetOf(objtable[refs[i]])
  {
    hide BigEndian, SizedInt, RefBytes, ByteSize, Document.OffsetOf, Pow256;
    var size := d.trailer.objectRefSize;
    RefStands(objtable, size, refs, i);
    var at := ByteSize(i, size);
    SubSlice(d.bytes, first, RefBytes(objtable, size, refs), at, at + size);
    SizedIntOfBigEndian(objtable[refs[i]], size);
  }

  /** The numbers of the objects are numbers of this file. */
  ghost predicate NumbersFit(d: Document, objtable: map<Ref, nat>) {
    && d.trailer.objectRefSize in {1, 2, 4}
    && d.trailer.numObjects < Pow256(d.trailer.objectRefSize)
    && (forall x :: x in objtable ==> objtable[x] < d.trailer.numObjects)
  }

  /** The offsets of numbered objects. */
  ghost function Numbered(d: Document, objtable: map<Ref, nat>, xs: seq<Ref>): (offsets: seq<nat>)
    requires d.Valid() && NumbersFit(d, objtable) && forall x :: x in xs ==> x in objtable
    ensures |offsets| == |xs|
  {
    seq(|xs|, i requires 0 <= i < |xs| => d.OffsetOf(objtable[xs[i]]))
  }

  lemma {:induction false} RefsAreReadBack(d: Document, first: nat, objtable: map<Ref, nat>, refs: seq<Ref>)
    requires d.Valid() && NumbersFit(d, objtable) && forall x :: x in refs ==> x in objtable
    requires Holds(d, first, RefBytes(objtable, d.trailer.objectRefSize, refs))
    ensures ResolveRefs(d, first, |refs|) == Numbered(d, objtable, refs)
  {
    hide RefBytes, RefPosition, Document.OffsetOf, Document.OffsetOfRefAt;
    var offsets, numbered := ResolveRefs(d, first, |refs|), Numbered(d, objtable, refs);
    forall i | 0 <= i < |refs|
      ensures offsets[i] == numbered[i]
    {
      RefIsReadBack(d, first, objtable, refs, i);
    }
  }

  /** The references of a container are found behind its marker and length. */
  lemma {:induction false} RefsAreFound(d: Document, off: nat, marker: byte, count: nat, refs: seq<byte>, n: nat)
    requires marker in {0xA0, 0xD0} && count <= LONG_MAX && n == (if marker == 0xD0 then 2 * count else count)
    requires |refs| == ByteSize(n, d.trailer.objectRefSize)
    requires Holds(d, off, Lead(marker, count) + refs)
    ensures off < |d.bytes| && d.bytes[off] / 16 == marker / 16
    ensures RefsAt(d, off) == Some(Read(n, off + |Lead(marker, count)|))
  {
    hide Lead, LengthAt, ByteSize, BigEndian;
    HoldsParts(d, off, Lead(marker, count), refs);
    LengthIsReadBack(d, off, marker, count);
  }

  lemma {:induction false} ContainerHeaderIsReadBack(d: Document, off: nat, marker: byte, count: nat, refs: seq<byte>, n: nat)
    requires marker in {0xA0, 0xD0} && count <= LONG_MAX && n == (if marker == 0xD0 then 2 * count else count)
    requires |refs| == ByteSize(n, d.trailer.objectRefSize) && 8 * n < TWO64
    requires Holds(d, off, Lead(marker, count) + refs)
    ensures HeaderAt(d, off) == Refs(if marker == 0xA0 then ArrayKind else DictKind, off + |Lead(marker, count)|, n)
  {
    hide Lead, RefsAt, ByteSize, FixedHeader, BlockHeader;
    RefsAreFound(d, off, marker, count, refs, n);
    assert HeaderAt(d, off) == ContainerHeader(d, off);
  }

  /** A container is read back as the references to the objects it contains. */
  lemma {:induction false} ContainerIsReadBack(d: Document, off: nat, o: Object, objtable: map<Ref, nat>)
    requires o.IsSound() && (o.ArrayObject? || o.DictObject?)
    requires d.Valid() && NumbersFit(d, objtable) && forall x :: x in o.Children() ==> x in objtable
    requires Holds(d, off, ObjectBytes(o, objtable, d.trailer.objectRefSize))
    ensures NodeAt(d, off) ==
            Branch(if o.ArrayObject? then ArrayKind else DictKind, Numbered(d, objtable, o.Children()))
  {
    hide RefBytes, Lead, HeaderAt, Numbered, ResolveRefs, Document.Valid;
    var marker: byte, count := if o.ArrayObject? then 0xA0 else 0xD0, if o.ArrayObject? then |o.items| else |o.keys|;
    var refs := RefBytes(objtable, d.trailer.objectRefSize, o.Children());
    ContainerHeaderIsReadBack(d, off, marker, count, refs, |o.Children()|);
    HoldsParts(d, off, Lead(marker, count), refs);
    RefsAreReadBack(d, off + |Lead(marker, count)|, objtable, o.Children());
  }

  /** A list of storable objects in which every number is that of its object. */
  ghost predicate IsNumbered(eq: Equality, h: Heap, objtable: map<Ref, nat>, xs: seq<Ref>) {
    && (forall i :: 0 <= i < |xs| ==> IsStorable(eq, h, xs[i]) && xs[i] in objtable)
    && (forall x :: x in objtable ==> objtable[x] < |xs| && xs[objtable[x]] == x)
  }

  /** What is built from the stored children of a container is the stored container. */
  lemma {:induction false} BuildStored(eq: Equality, h: Heap, rank: map<Ref, nat>, x: Ref, kids: seq<PList>)
    requires IsAcyclic(h, rank) && IsStorable(eq, h, x) && !h[x].Simple?
    requires |kids| == |h[x].Children()|
    requires forall i :: 0 <= i < |kids| ==> kids[i] == Stored(ValueOf(h, rank, h[x].Children()[i]))
    ensures Build(eq, if h[x].ArrayObject? then ArrayKind else DictKind, kids) == Stored(ValueOf(h, rank, x))
  {
    hide IsAcyclic, AddPairs, DistinctKeys, Stored;
    var v, stored := ValueOf(h, rank, x), Stored(ValueOf(h, rank, x));
    match h[x]
    case ArrayObject(items) =>
      StoredArray(v);
      assert stored.items == kids;
    case DictObject(keys, values) =>
      IsSoundIn(h, rank, x);
      StoredDictionary(v);
      var n := |keys|;
      var ks, vs := kids[..n], kids[n..2 * n];
      assert stored.keys == ks && stored.values == vs;
      StoredKeysAre(h, rank, x);
      assert ks == StoredKeys(h, keys);
      AddDistinctPairs(eq, ks, vs);
  }

  lemma {:induction false} StoredKeysAre(h: Heap, rank: map<Ref, nat>, x: Ref)
    requires IsAcyclic(h, rank) && x in h && h[x].DictObject?
    requires forall k :: k in h[x].keys ==> k in h && h[k].Simple?
    ensures forall i :: 0 <= i < |h[x].keys| ==> Stored(ValueOf(h, rank, h[x].keys[i])) == StoredKeys(h, h[x].keys)[i]
  {
    hide Stored;
    forall i | 0 <= i < |h[x].keys|
      ensures Stored(ValueOf(h, rank, h[x].keys[i])) == StoredKeys(h, h[x].keys)[i]
    {
      StoredSimple(h, rank, h[x].keys[i]);
    }
  }

  lemma {:induction false} StoredArray(v: PList)
    requires v.Array?
    ensures Stored(v).Array? && |Stored(v).items| == |v.items|
    ensures forall i :: 0 <= i < |v.items| ==> Stored(v).items[i] == Stored(v.items[i])
  {
  }

  lemma {:induction false} StoredDictionary(v: PList)
    requires v.Dict?
    ensures Stored(v).Dict? && |Stored(v).keys| == |v.keys| && |Stored(v).values| == |v.values|
    ensures forall i :: 0 <= i < |v.keys| ==> Stored(v).keys[i] == Stored(v.keys[i])
    ensures forall i :: 0 <= i < |v.values| ==> Stored(v).values[i] == Stored(v.values[i])
  {
  }

  lemma IsSoundIn(h: Heap, rank: map<Ref, nat>, x: Ref)
    requires IsAcyclic(h, rank) && x in h
    ensures h[x].IsSound()
  {
  }

  /** Every object of a written file means, at its offset, what it stands for. */
  lemma {:induction false} ObjectMeans(eq: Equality, h: Heap, rank: map<Ref, nat>, objtable: map<Ref, nat>, xs: seq<Ref>,
                                       g: Graph, n: nat)
    requires IsAcyclic(h, rank) && Writable(h, objtable, xs) && IsNumbered(eq, h, objtable, xs) && n < |xs|
    requires FileOf(h, objtable, xs).Valid() && IsGraphOf(g, FileOf(h, objtable, xs))
    ensures Meaning(eq, g, FileOf(h, objtable, xs).OffsetOf(n)) == Some(Stored(ValueOf(h, rank, xs[n])))
    decreases rank[xs[n]]
  {
    hide IsAcyclic, FileBytes, ObjectBytes, Document.OffsetOf, Build, NodeAt, Stored;
    var d := FileOf(h, objtable, xs);
    var x, off := xs[n], d.OffsetOf(n);
    MeaningUnfolds(eq, g, off);
    NodeIsReadBack(eq, h, rank, objtable, xs, g, n);
    if h[x].Simple? {
      StoredSimple(h, rank, x);
    } else {
      var children, keys := g(off).children, g(off).KeyCount();
      var refs := h[x].Children();
      forall i | 0 <= i < |refs|
        ensures refs[i] in h && Meaning(eq, g, children[i]) == Some(Stored(ValueOf(h, rank, refs[i])))
        ensures !BadChild(eq, g, children, keys, i)
      {
        ChildIsSmaller(h, rank, x, i);
        ObjectMeans(eq, h, rank, objtable, xs, g, objtable[refs[i]]);
        if i < keys {
          assert refs[i] in h[x].keys;
          StoredSimple(h, rank, refs[i]);
        }
      }
      BuildStored(eq, h, rank, x, KidsMeaning(eq, g, children, keys).value);
    }
  }

  lemma {:induction false} StoredSimple(h: Heap, rank: map<Ref, nat>, x: Ref)
    requires IsAcyclic(h, rank) && x in h && h[x].Simple?
    ensures Stored(ValueOf(h, rank, x)) == Lossy(h[x].value) && IsPrimitive(Lossy(h[x].value))
  {
    assert h[x].IsSound();
  }

  lemma ChildIsSmaller(h: Heap, rank: map<Ref, nat>, x: Ref, i: nat)
    requires IsAcyclic(h, rank) && x in h && i < |h[x].Children()|
    ensures h[x].Children()[i] in h && 0 <= rank[h[x].Children()[i]] < rank[x]
  {
  }

  /** The node at the offset of an object. */
  lemma {:induction false} NodeIsReadBack(eq: Equality, h: Heap, rank: map<Ref, nat>, objtable: map<Ref, nat>, xs: seq<Ref>,
                                          g: Graph, n: nat)
    requires IsAcyclic(h, rank) && Writable(h, objtable, xs) && IsNumbered(eq, h, objtable, xs) && n < |xs|
    requires FileOf(h, objtable, xs).Valid() && IsGraphOf(g, FileOf(h, objtable, xs))
    ensures var d := FileOf(h, objtable, xs);
            var o := h[xs[n]];
            g(d.OffsetOf(n)) ==
            if o.Simple? then Leaf(Lossy(o.value))
            else Branch(if o.ArrayObject? then ArrayKind else DictKind, Numbered(d, objtable, o.Children()))
  {
    hide IsAcyclic, FileBytes, Document.OffsetOf;
    var d := FileOf(h, objtable, xs);
    var o, off := h[xs[n]], d.OffsetOf(n);
    ObjectIsHeld(h, objtable, xs, n);
    assert g(off) == NodeAt(d, off);
    if o.Simple? {
      SimpleIsReadBack(d, off, o.value);
    } else {
      ContainerIsReadBack(d, off, o, objtable);
    }
  }

  /** Every object that the root reaches can be stored. */
  ghost predicate IsStorableFrom(eq: Equality, h: Heap, root: Ref) {
    forall x :: Reaches(h, root, x) ==> IsStorable(eq, h, x)
  }

  lemma {:induction false} StorableCanBeWritten(eq: Equality, h: Heap, rank: map<Ref, nat>, root: Ref)
    requires IsAcyclic(h, rank) && root in h && IsStorableFrom(eq, h, root)
    requires |FlattenRoot(h, rank, root).objlist| <= TWO32
    ensures var st := FlattenRoot(h, rank, root);
            && CanWrite(h, st.objtable, st.objlist)
            && IsNumbered(eq, h, st.objtable, st.objlist)
            && |st.objlist| > 0 && st.objlist[0] == root
  {
    hide FlattenObject, IsStorable, IsAcyclic;
    var st := FlattenRoot(h, rank, root);
    FlattenIsComplete(h, rank, root);
    FlattenLists(h, rank, root);
    ReachesItself(h, root);
    FlattenListsReachable(h, rank, root, root, FlatState([], map[], {}));
    forall x | x in st.objlist
      ensures h[x].IsWritable()
    {
      StorableIsWritable(eq, h, x);
    }
  }

  lemma StorableIsWritable(eq: Equality, h: Heap, x: Ref)
    requires IsStorable(eq, h, x)
    ensures x in h && h[x].IsWritable()
  {
  }

  /**
    The theorem. The file written for a property list is accepted by the validator, with its top object
    right behind the header, and what the reader finds there is the property list, in which only the
    high halves of 128-bit integers are lost.
   */
  lemma {:induction false} WrittenReadsBack(eq: Equality, h: Heap, rank: map<Ref, nat>, root: Ref)
    requires IsAcyclic(h, rank) && root in h && IsStorableFrom(eq, h, root)
    requires FitsInFile(h, FlattenRoot(h, rank, root).objtable, FlattenRoot(h, rank, root).objlist)
    ensures var st := FlattenRoot(h, rank, root);
            Writable(h, st.objtable, st.objlist)
    ensures var st := FlattenRoot(h, rank, root);
            var d := FileOf(h, st.objtable, st.objlist);
            && d.Valid() && d.HasMagic() && |d.bytes| >= TRAILER_SIZE + 8 + 1 && TrailerOf(d.bytes) == d.trailer
            && d.OffsetOf(d.trailer.topObject) == 8
            && Meaning(eq, GraphOf(d), 8) == Some(Stored(ValueOf(h, rank, root)))
  {
    hide FlattenObject, IsAcyclic, CanWrite, FitsInFile, IsNumbered, ObjectsBytes, FileBytes, Document.Valid;
    hide Document.OffsetOf, GraphOf;
    var st := FlattenRoot(h, rank, root);
    FitsBounds(h, st.objtable, st.objlist);
    StorableCanBeWritten(eq, h, rank, root);
    WrittenFileIsValid(h, st.objtable, st.objlist);
    ValidIsLongEnough(FileOf(h, st.objtable, st.objlist));
    TrailerIsReadBack(h, st.objtable, st.objlist);
    ObjectMeans(eq, h, rank, st.objtable, st.objlist, GraphOf(FileOf(h, st.objtable, st.objlist)), 0);
  }

  lemma ValidIsLongEnough(d: Document)
    requires d.Valid()
    ensures |d.bytes| >= TRAILER_SIZE + 8 + 1
  {
  }

  lemma FitsBounds(h: Heap, objtable: map<Ref, nat>, xs: seq<Ref>)
    requires FitsInFile(h, objtable, xs)
    ensures 0 < |xs| < TWO32
  {
  }

  /** The same of the methods that write and read. */
  method WriteThenParse(eq: Equality, h: Heap, ghost rank: map<Ref, nat>, root: Ref, option: Mutability)
    returns (length: nat, plist: Option<PList>)
    requires IsAcyclic(h, rank) && root in h && IsStorableFrom(eq, h, root)
    requires FitsInFile(h, FlattenRoot(h, rank, root).objtable, FlattenRoot(h, rank, root).objlist)
    ensures length > 0 && plist == Some(Stored(ValueOf(h, rank, root)))
  {
    hide FlattenObject, IsAcyclic, IsNumbered, ObjectsBytes, FileBytes, Document.Valid, Document.OffsetOf, GraphOf, Stored, ValueOf;
    var stream;
    length, stream := BinaryPlistWrite(h, rank, root);
    WrittenReadsBack(eq, h, rank, root);
    var isBinary;
    isBinary, plist := TryParse(eq, stream, option);
  }
}
