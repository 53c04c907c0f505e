/** The recursive reader, with its memo table and its path set, against the meaning of the object graph. */
module Reader {
  import opened Bytes
  import opened PropertyList
  import opened FileFormat
  import opened Objects
  import opened ObjectGraph
  import opened Cycles

  datatype Mutability = Immutable | MutableContainers | MutableContainersAndLeaves

  /** The depth from which on the offsets of the containers being parsed are tracked. */
  const TRACKED_DEPTH: nat := 16

  /** The `objects` dictionary: parsed objects by byte offset. */
  class ObjectTable {
    var entries: map<nat, PList>

    constructor ()
      ensures entries == map[]
    {
      entries := map[];
    }
  }

  /** The `set` of offsets on the path down to the object being parsed. */
  class OffsetSet {
    var offsets: set<nat>

    constructor ()
      ensures offsets == {}
    {
      offsets := {};
    }
  }

  /** Every remembered object is what its offset means. */
  ghost predicate TableIsRight(eq: Equality, g: Graph, entries: map<nat, PList>) {
    forall offset :: offset in entries ==> Meaning(eq, g, offset) == Some(entries[offset])
  }

  /** Whether a parsed value may be remembered; null and the booleans never are. */
  predicate IsCacheable(v: PList, option: Mutability) {
    match v
    case Null => false
    case Bool(_) => false
    case Data(_) => !option.MutableContainersAndLeaves?
    case String(_) => !option.MutableContainersAndLeaves?
    case Array(_) => option.Immutable?
    case Set(_) => option.Immutable?
    case Dict(_, _) => option.Immutable?
    case _ => true
  }

  /** The path set exists from depth 17 on and holds exactly the ancestors from depth 16 on. */
  ghost predicate Tracks(path: OffsetSet?, depth: nat, ancestors: seq<nat>)
    reads path
  {
    && |ancestors| == depth
    && (path == null <==> depth <= TRACKED_DEPTH)
    && (path != null ==>
          && path.offsets == Elements(ancestors[TRACKED_DEPTH..])
          && NoRepeats(ancestors[TRACKED_DEPTH..]))
  }

  lemma {:induction false} GraphIsBounded(d: Document, g: Graph)
    requires IsGraphOf(g, d)
    ensures Bounded(g, d.trailer.offsetTableOffset)
    ensures forall offset: nat :: g(offset) != Bad ==> 8 <= offset
  {
    forall offset: nat | g(offset) != Bad
      ensures 8 <= offset < d.trailer.offsetTableOffset
    {
      assert g(offset) == NodeAt(d, offset);
    }
  }

  /** An object of a document parses if and only if what it reaches is sound and acyclic. */
  lemma {:induction false} ObjectParsesIffAcyclic(eq: Equality, d: Document, g: Graph, offset: nat)
    requires IsGraphOf(g, d)
    ensures Meaning(eq, g, offset).Some? <==> SoundFrom(g, offset) && AcyclicFrom(g, offset)
  {
    GraphIsBounded(d, g);
    ParsesIffAcyclic(eq, g, offset, d.trailer.offsetTableOffset);
  }

  /** Tracked ancestors are distinct offsets of the object table, so the depth is bounded. */
  lemma {:induction false} DepthIsBounded(d: Document, g: Graph, ancestors: seq<nat>, offset: nat)
    requires IsGraphOf(g, d) && IsPath(g, ancestors + [offset])
    requires |ancestors| > TRACKED_DEPTH ==> NoRepeats(ancestors[TRACKED_DEPTH..])
    ensures |ancestors| <= 16 + (d.trailer.offsetTableOffset - 8)
  {
    if |ancestors| > TRACKED_DEPTH {
      var p, tracked := ancestors + [offset], ancestors[TRACKED_DEPTH..];
      GraphIsBounded(d, g);
      forall x | x in Elements(tracked)
        ensures 8 <= x < d.trailer.offsetTableOffset
      {
        var i :| 0 <= i < |tracked| && tracked[i] == x;
        assert Edge(g, p[TRACKED_DEPTH + i], p[TRACKED_DEPTH + i + 1]);
      }
      Distinct(tracked);
      SetOfRange(Elements(tracked), 8, d.trailer.offsetTableOffset);
    }
  }

  /** An object that is among its own ancestors cannot be parsed. */
  lemma {:induction false} AncestorNeverParses(eq: Equality, g: Graph, ancestors: seq<nat>, offset: nat)
    requires IsPath(g, ancestors + [offset]) && offset in ancestors
    ensures Meaning(eq, g, offset).None?
  {
    if Parses(eq, g, offset) {
      var p := ancestors + [offset];
      var i :| 0 <= i < |ancestors| && ancestors[i] == offset;
      var fuel: nat :| Denote(eq, g, offset, fuel).Some?;
      SubPath(g, p, i, |ancestors|);
      CycleNeverParses(eq, g, p[i..|ancestors| + 1], fuel);
    }
  }

  /** Going one level deeper adds one offset to the tracked ancestors. */
  lemma {:induction false} TrackOneMore(ancestors: seq<nat>, offset: nat)
    requires |ancestors| >= TRACKED_DEPTH && NoRepeats(ancestors[TRACKED_DEPTH..])
    requires offset !in Elements(ancestors[TRACKED_DEPTH..])
    ensures Elements((ancestors + [offset])[TRACKED_DEPTH..]) == Elements(ancestors[TRACKED_DEPTH..]) + {offset}
    ensures NoRepeats((ancestors + [offset])[TRACKED_DEPTH..])
  {
    var before := ancestors[TRACKED_DEPTH..];
    assert (ancestors + [offset])[TRACKED_DEPTH..] == before + [offset];
    assert (before + [offset])[..|before|] == before;
  }

  /** The switch over the marker, and the range checks of every kind of object. */
  method ReadHeader(d: Document, ghost g: Graph, offset: nat) returns (h: Header)
    requires IsGraphOf(g, d)
    ensures match h
            case Unreadable => g(offset) == Bad
            case Scalar(v) => g(offset) == Leaf(v)
            case Refs(kind, first, count) => g(offset) == Branch(kind, ResolveRefs(d, first, count))
    ensures h.Refs? ==> RefPosition(d, h.first, h.count) <= d.trailer.offsetTableOffset
  {
    hide Document.Valid, ResolveRefs, FixedHeader, BlockHeader, ContainerHeader;
    assert g(offset) == NodeAt(d, offset);
    h := HeaderAt(d, offset);
  }

  /**
    Parsing the object at `startOffset`. Whatever the table has remembered so far, however deep the
    object is, and however the references of the document loop: the result is the meaning of the offset.
   */
  method CreateObject(eq: Equality, d: Document, ghost g: Graph, startOffset: nat, option: Mutability,
                      objects: ObjectTable?, path: OffsetSet?, curDepth: nat, ghost ancestors: seq<nat>)
    returns (plist: Option<PList>)
    requires IsGraphOf(g, d)
    requires objects != null ==> TableIsRight(eq, g, objects.entries)
    requires IsPath(g, ancestors + [startOffset])
    requires Tracks(path, curDepth, ancestors)
    requires curDepth <= TRACKED_DEPTH + (d.trailer.offsetTableOffset - 8)
    modifies objects, path
    ensures plist == Meaning(eq, g, startOffset)
    ensures objects != null ==> TableIsRight(eq, g, objects.entries)
    ensures path != null && plist.Some? ==> path.offsets == old(path.offsets)
    decreases TRACKED_DEPTH + (d.trailer.offsetTableOffset - 8) - curDepth
  {
    hide Document.Valid, NodeAt, HeaderAt, KidsMeaning, AddPairs, AddMembers, IsPath, IsGraphOf;
    GraphIsValid(g, d);
    if objects != null && startOffset in objects.entries {
      return Some(objects.entries[startOffset]);
    }
    if path != null && startOffset in path.offsets {
      AncestorNeverParses(eq, g, ancestors, startOffset);
      return None;
    }
    MeaningUnfolds(eq, g, startOffset);
    var value;
    var header := ReadHeader(d, g, startOffset);
    match header {
      case Unreadable =>
        return None;
      case Scalar(v) =>
        value := v;
      case Refs(kind, first, count) =>
        var tracked := path;
        if path == null && TRACKED_DEPTH - 1 < curDepth {
          tracked := new OffsetSet();
        }
        if tracked != null {
          TrackOneMore(ancestors, startOffset);
          tracked.offsets := tracked.offsets + {startOffset};
        }
        var kids := CreateKids(eq, d, g, startOffset, kind, first, count, option, objects, tracked, curDepth, ancestors);
        if kids.None? {
          return None;
        }
        if tracked != null {
          tracked.offsets := tracked.offsets - {startOffset};
        }
        value := Build(eq, kind, kids.value);
    }
    if objects != null && IsCacheable(value, option) {
      objects.entries := objects.entries[startOffset := value];
    }
    return Some(value);
  }

  /** The loop over the references of a container, one level deeper. */
  method CreateKids(eq: Equality, d: Document, ghost g: Graph, startOffset: nat, kind: Kind, first: nat, count: nat,
                    option: Mutability, objects: ObjectTable?, path: OffsetSet?, curDepth: nat, ghost ancestors: seq<nat>)
    returns (list: Option<seq<PList>>)
    requires IsGraphOf(g, d) && g(startOffset) == Branch(kind, ResolveRefs(d, first, count))
    requires RefPosition(d, first, count) <= d.trailer.offsetTableOffset
    requires objects != null ==> TableIsRight(eq, g, objects.entries)
    requires IsPath(g, ancestors + [startOffset])
    requires Tracks(path, curDepth + 1, ancestors + [startOffset])
    requires curDepth <= TRACKED_DEPTH + (d.trailer.offsetTableOffset - 8)
    modifies objects, path
    ensures var node := g(startOffset);
            list == KidsMeaning(eq, g, node.children, node.KeyCount())
    ensures objects != null ==> TableIsRight(eq, g, objects.entries)
    ensures path != null && list.Some? ==> path.offsets == old(path.offsets)
    decreases TRACKED_DEPTH + (d.trailer.offsetTableOffset - 8) - curDepth, 0
  {
    hide Document.Valid, NodeAt, HeaderAt, Document.OffsetOfRefAt, KidsMeaning, Elements, TableIsRight, ResolveRefs, IsGraphOf;
    GraphIsValid(g, d);
    ghost var children := g(startOffset).children;
    var keys := if kind.DictKind? then count / 2 else 0;
    var kids := [];
    var pos: nat := first;
    for idx := 0 to count
      invariant pos == RefPosition(d, first, idx)
      invariant KidsMeaning(eq, g, children[..idx], keys) == Some(kids)
      invariant objects != null ==> TableIsRight(eq, g, objects.entries)
      invariant Tracks(path, curDepth + 1, ancestors + [startOffset])
    {
      var offset := GetOffsetOfRefAt(d, pos);
      ResolvedRef(d, first, count, idx);
      ExtendPath(g, ancestors + [startOffset], offset);
      DepthIsBounded(d, g, ancestors + [startOffset], offset);
      var kid := CreateObject(eq, d, g, offset, option, objects, path, curDepth + 1, ancestors + [startOffset]);
      if kid.None? || (idx < keys && !IsPrimitive(kid.value)) {
        assert BadChild(eq, g, children, keys, idx);
        return None;
      }
      assert children[..idx + 1][..idx] == children[..idx];
      KidsPrefix(eq, g, children[..idx + 1], keys);
      kids := kids + [kid.value];
      MulSuccessor(idx, d.trailer.objectRefSize);
      pos := pos + d.trailer.objectRefSize;
    }
    assert children[..count] == children;
    return Some(kids);
  }

  /** A whole document: nothing if it is not one, else its property list, or no list if it is corrupt. */
  method TryParse(eq: Equality, bytes: seq<byte>, option: Mutability) returns (isBinary: bool, plist: Option<PList>)
    requires |bytes| < TWO64
    ensures isBinary <==>
            && TRAILER_SIZE + 8 + 1 <= |bytes|
            && Document(bytes, TrailerOf(bytes)).HasMagic()
            && Document(bytes, TrailerOf(bytes)).Valid()
    ensures isBinary ==>
              var d := Document(bytes, TrailerOf(bytes));
              plist == Meaning(eq, GraphOf(d), d.OffsetOf(d.trailer.topObject))
    ensures !isBinary ==> plist == None
  {
    var info := GetTopLevelInfo(bytes);
    if info.None? {
      return false, None;
    }
    var d := Document(bytes, info.value.trailer);
    var objects := new ObjectTable();
    plist := CreateObject(eq, d, GraphOf(d), info.value.offset, option, objects, null, 0, []);
    isBinary := true;
  }
}
