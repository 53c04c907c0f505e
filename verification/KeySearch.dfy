/** Finding an element of an array, or a value of a dictionary, in the bytes, without parsing the container. */
module KeySearch {
  import opened Bytes
  import opened PropertyList
  import opened FileFormat
  import opened Objects
  import opened ObjectGraph
  import opened Reader

  /** Whether the references of an object of the given marker class can be looked at, and where they are. */
  function RefsOf(d: Document, startOffset: nat, class_: nat): (r: Option<Read>)
    requires d.Valid()
    ensures r.Some? ==> RefPosition(d, r.value.next, r.value.value) <= d.trailer.offsetTableOffset
  {
    if startOffset < 8 || d.trailer.offsetTableOffset <= startOffset then None
    else if d.bytes[startOffset] / 16 != class_ then None
    else RefsAt(d, startOffset)
  }

  /** The offset of element `idx` of the array at `startOffset`. */
  method GetOffsetForValueFromArray(d: Document, ghost g: Graph, startOffset: nat, idx: int) returns (offset: Option<nat>)
    requires IsGraphOf(g, d)
    ensures g(startOffset).Branch? && g(startOffset).kind.ArrayKind? ==>
              var children := g(startOffset).children;
              offset == if 0 <= idx < |children| then Some(children[idx]) else None
    ensures offset.Some? ==> RefsOf(d, startOffset, 0xA).Some? && 0 <= idx < RefsOf(d, startOffset, 0xA).value.value
  {
    hide Document.Valid, RefsAt, Document.OffsetOfRefAt;
    assert g(startOffset) == NodeAt(d, startOffset);
    var refs := RefsOf(d, startOffset, 0xA);
    if refs.None? {
      return None;
    }
    if idx < 0 || refs.value.value <= idx {
      return None;
    }
    var off := GetOffsetOfRefAt(d, RefPosition(d, refs.value.next, idx));
    return Some(off);
  }

  /** The element lookup agrees with parsing the array. */
  lemma {:induction false} ArrayElement(eq: Equality, g: Graph, startOffset: nat, idx: nat)
    requires g(startOffset).Branch? && g(startOffset).kind.ArrayKind? && idx < |g(startOffset).children|
    requires Meaning(eq, g, startOffset).Some?
    ensures var v := Meaning(eq, g, startOffset).value;
            v.Array? && idx < |v.items| && Meaning(eq, g, g(startOffset).children[idx]) == Some(v.items[idx])
  {
    MeaningUnfolds(eq, g, startOffset);
  }

  /** The outcome of looking at one key of a dictionary. `Outside` is a key reference that is out of range: there the
      search reads the marker at the sentinel offset without asking, which is no byte of the data. */
  datatype KeyTest = Match | NoMatch | Abort | Outside

  /** The outcome of a search; it is undefined if it reads outside the data. */
  datatype Outcome<+T> = Found(value: T) | NotFound | Undefined

  /**
    The bytes that a string key is compared with: those of the C string that it gives out, or, if it gives out none
    and is short, those that its conversion left in a buffer of 16 bytes.
   */
  function KeyBuffer(key: PList, cString: Option<seq<byte>>, copied: seq<byte>): (buffer: Option<seq<byte>>)
    requires |copied| == 16 && (key.String? && cString.Some? ==> |cString.value| == |key.chars|)
    ensures buffer.Some? ==> key.String? && |buffer.value| == |key.chars|
  {
    if !key.String? then None
    else if cString.Some? then cString
    else if |key.chars| < 16 then Some(copied[..|key.chars|])
    else None
  }

  /** The comparison of the bytes of an ASCII string object with the bytes of the key. */
  function TestBytes(d: Document, off: nat, buffer: seq<byte>): (test: KeyTest)
    requires d.Valid() && off < d.trailer.offsetTableOffset
    ensures test != Outside
  {
    var low := d.bytes[off] % 16;
    var read := if low == 0xF && |buffer| >= 0xF then ReadInt(d, off + 1) else Some(Read(low, off + 1));
    if read.None? || LONG_MAX < read.value.value then Abort
    else
      var Read(len, ptr) := read.value;
      if len != |buffer| then NoMatch
      else if d.trailer.offsetTableOffset <= ptr + len then Abort
      else if d.bytes[ptr..ptr + len] == buffer then Match
      else NoMatch
  }

  /** A key is compared in the bytes if there are bytes of the key and the object is an ASCII string, else parsed. */
  ghost function TestKey(eq: Equality, d: Document, g: Graph, key: PList, buffer: Option<seq<byte>>, off: nat)
    : (test: KeyTest)
    requires d.Valid()
    ensures test == Outside <==> d.trailer.offsetTableOffset <= off
  {
    if d.trailer.offsetTableOffset <= off then Outside
    else if buffer.Some? && d.bytes[off] / 16 == 0x5 then TestBytes(d, off, buffer.value)
    else
      var v := Meaning(eq, g, off);
      if v.None? || !IsPrimitive(v.value) then Abort
      else if eq(key, v.value) then Match
      else NoMatch
  }

  /** The number of the key with which the linear search succeeds, when it starts with key number `i`. */
  ghost function SearchFrom(eq: Equality, d: Document, g: Graph, key: PList, buffer: Option<seq<byte>>, keys: seq<nat>, i: nat)
    : (found: Outcome<nat>)
    requires d.Valid() && i <= |keys|
    ensures found.Found? ==> i <= found.value < |keys|
    decreases |keys| - i
  {
    if i == |keys| then NotFound
    else
      match TestKey(eq, d, g, key, buffer, keys[i])
      case Match => Found(i)
      case Abort => NotFound
      case Outside => Undefined
      case NoMatch => SearchFrom(eq, d, g, key, buffer, keys, i + 1)
  }

  /** The search leaves the data if and only if a key reference out of range is reached, no key before it deciding. */
  lemma {:induction false} UndefinedIff(eq: Equality, d: Document, g: Graph, key: PList, buffer: Option<seq<byte>>,
                                        keys: seq<nat>, i: nat)
    requires d.Valid() && i <= |keys|
    ensures SearchFrom(eq, d, g, key, buffer, keys, i) == Undefined <==>
            exists m :: i <= m < |keys| && d.trailer.offsetTableOffset <= keys[m]
                        && forall j :: i <= j < m ==> TestKey(eq, d, g, key, buffer, keys[j]) == NoMatch
    decreases |keys| - i
  {
    hide Document.Valid, TestKey;
    if i < |keys| {
      UndefinedIff(eq, d, g, key, buffer, keys, i + 1);
    }
  }

  /** The offsets of the keys of the dictionary at `startOffset`. */
  function KeyOffsets(d: Document, startOffset: nat): seq<nat>
    requires d.Valid()
  {
    var refs := RefsOf(d, startOffset, 0xD);
    if refs.None? then [] else ResolveRefs(d, refs.value.next, refs.value.value / 2)
  }

  /** The offsets of its values, in the order of the keys. */
  function ValueOffsets(d: Document, startOffset: nat): (offsets: seq<nat>)
    requires d.Valid()
    ensures |offsets| == |KeyOffsets(d, startOffset)|
  {
    var refs := RefsOf(d, startOffset, 0xD);
    if refs.None? then []
    else
      var n := refs.value.value / 2;
      ResolveRefs(d, RefPosition(d, refs.value.next, n), n)
  }

  /** The key and value offsets that the search of the dictionary at `startOffset` gives. */
  ghost function SearchResult(eq: Equality, d: Document, g: Graph, startOffset: nat, key: PList, buffer: Option<seq<byte>>)
    : Outcome<(nat, nat)>
    requires d.Valid()
  {
    var keys, values := KeyOffsets(d, startOffset), ValueOffsets(d, startOffset);
    if !IsPrimitive(key) then NotFound
    else
      match SearchFrom(eq, d, g, key, buffer, keys, 0)
      case Found(i) => Found((keys[i], values[i]))
      case NotFound => NotFound
      case Undefined => Undefined
  }

  /** The body of the loop: the fast comparison, or parsing the key without a table and without a path set. */
  method TestOneKey(eq: Equality, d: Document, ghost g: Graph, key: PList, buffer: Option<seq<byte>>, off: nat)
    returns (test: KeyTest)
    requires IsGraphOf(g, d)
    ensures test == TestKey(eq, d, g, key, buffer, off)
  {
    hide TestBytes, NodeAt;
    if d.trailer.offsetTableOffset <= off {
      return Outside;
    }
    if buffer.Some? && d.bytes[off] / 16 == 0x5 {
      return TestBytes(d, off, buffer.value);
    }
    var keyInData := CreateObject(eq, d, g, off, Immutable, null, null, 0, []);
    if keyInData.None? || !IsPrimitive(keyInData.value) {
      return Abort;
    }
    return if eq(key, keyInData.value) then Match else NoMatch;
  }

  /** The value of key number `i` stands as far behind the key as all keys are long. */
  lemma ValuePosition(d: Document, first: nat, n: nat, i: nat)
    ensures RefPosition(d, first, i) + RefPosition(d, 0, n) == RefPosition(d, RefPosition(d, first, n), i)
  {
  }

  /** The linear search of `count` key references from `first` on; also the position of the one that was found. */
  method SearchKeys(eq: Equality, d: Document, ghost g: Graph, key: PList, buffer: Option<seq<byte>>, first: nat, count: nat)
    returns (found: Outcome<(nat, nat)>)
    requires IsGraphOf(g, d)
    ensures var keys := ResolveRefs(d, first, count);
            found == match SearchFrom(eq, d, g, key, buffer, keys, 0)
                     case Found(i) => Found((keys[i], RefPosition(d, first, i)))
                     case NotFound => NotFound
                     case Undefined => Undefined
  {
    hide Document.Valid, TestKey, NodeAt, Document.OffsetOfRefAt;
    ghost var keys := ResolveRefs(d, first, count);
    var pos: nat := first;
    for idx := 0 to count
      invariant pos == RefPosition(d, first, idx)
      invariant SearchFrom(eq, d, g, key, buffer, keys, 0) == SearchFrom(eq, d, g, key, buffer, keys, idx)
    {
      var off := GetOffsetOfRefAt(d, pos);
      assert off == keys[idx];
      var test := TestOneKey(eq, d, g, key, buffer, off);
      if test == Outside {
        return Undefined;
      }
      if test == Abort {
        return NotFound;
      }
      if test == Match {
        return Found((off, pos));
      }
      MulSuccessor(idx, d.trailer.objectRefSize);
      pos := pos + d.trailer.objectRefSize;
    }
    return NotFound;
  }

  /** The search of a dictionary for a key. */
  method GetOffsetForValueFromDictionary(eq: Equality, d: Document, ghost g: Graph, startOffset: nat, key: PList,
                                         cString: Option<seq<byte>>, copied: seq<byte>)
    returns (found: Outcome<(nat, nat)>)
    requires IsGraphOf(g, d)
    requires |copied| == 16 && (key.String? && cString.Some? ==> |cString.value| == |key.chars|)
    ensures found == SearchResult(eq, d, g, startOffset, key, KeyBuffer(key, cString, copied))
  {
    hide Document.Valid, RefsAt, SearchFrom, Document.OffsetOfRefAt;
    if !IsPrimitive(key) {
      return NotFound;
    }
    var refs := RefsOf(d, startOffset, 0xD);
    if refs.None? {
      NoKeys(eq, d, g, key, KeyBuffer(key, cString, copied));
      return NotFound;
    }
    var buffer := KeyBuffer(key, cString, copied);
    var cnt := refs.value.value / 2;
    var totalKeySize := RefPosition(d, 0, cnt);
    var hit := SearchKeys(eq, d, g, key, buffer, refs.value.next, cnt);
    if !hit.Found? {
      return if hit.NotFound? then NotFound else Undefined;
    }
    ghost var i := SearchFrom(eq, d, g, key, buffer, KeyOffsets(d, startOffset), 0).value;
    ValuePosition(d, refs.value.next, cnt, i);
    var voffset := GetOffsetOfRefAt(d, hit.value.1 + totalKeySize);
    assert voffset == ValueOffsets(d, startOffset)[i];
    return Found((hit.value.0, voffset));
  }

  lemma NoKeys(eq: Equality, d: Document, g: Graph, key: PList, buffer: Option<seq<byte>>)
    requires d.Valid()
    ensures SearchFrom(eq, d, g, key, buffer, [], 0) == NotFound
  {
  }
}
