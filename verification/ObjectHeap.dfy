/** The objects given to the writer: a finite graph of objects that may be shared but do not contain themselves. */
module ObjectHeap {
  import opened Bytes
  import opened PropertyList

  /** An object's address. */
  type Ref = nat

  /** Types that have no binary form are `Other`; so, in effect, is null. */
  datatype Object =
    | Simple(value: PList)
    | ArrayObject(items: seq<Ref>)
    | DictObject(keys: seq<Ref>, values: seq<Ref>)
    | Other
  {
    /** The contained objects, a dictionary's keys before its values. */
    function Children(): seq<Ref> {
      match this
      case ArrayObject(items) => items
      case DictObject(keys, values) => keys + values
      case _ => []
    }

    /** Strings, numbers, dates and data are made unique; booleans and containers are not. */
    predicate IsUniqued() {
      && Simple?
      && (value.String? || value.Int? || value.Int128? || value.Real32? || value.Real64? || value.Date? || value.Data?)
    }

    predicate IsWritable() {
      match this
      case Simple(v) => !v.Null?
      case Other => false
      case _ => true
    }

    /** Values have the width of their types, lengths are CFIndex values, lists of contained objects fit into memory. */
    ghost predicate IsSound() {
      match this
      case Simple(v) =>
        (match v
         case Int(bits) => bits < TWO64
         case Int128(high, low) => high < TWO64 && low < TWO64
         case Real32(bits) => bits < 0x1_0000_0000
         case Real64(bits) => bits < TWO64
         case Date(bits) => bits < TWO64
         case UID(number) => number < 0x1_0000_0000
         case Data(bytes) => |bytes| <= LONG_MAX
         case String(chars) => |chars| <= LONG_MAX
         case Array(_) => false
         case Set(_) => false
         case Dict(_, _) => false
         case _ => true)
      case ArrayObject(items) => 8 * |items| <= LONG_MAX
      case DictObject(keys, values) => |keys| == |values| && 16 * |keys| <= LONG_MAX
      case Other => true
    }
  }

  type Heap = map<Ref, Object>

  /** No object contains itself: ranks go down from containers to what they contain. */
  ghost predicate IsAcyclic(h: Heap, rank: map<Ref, nat>) {
    && rank.Keys == h.Keys
    && (forall x :: x in h ==> h[x].IsSound())
    && (forall x, c :: x in h && c in h[x].Children() ==> c in h && rank[c] < rank[x])
  }

  /** A way from an object down into what it contains. */
  ghost predicate IsChain(h: Heap, p: seq<Ref>) {
    && p != []
    && (forall i :: 0 <= i < |p| ==> p[i] in h)
    && (forall i :: 0 < i < |p| ==> p[i] in h[p[i - 1]].Children())
  }

  ghost predicate Reaches(h: Heap, x: Ref, y: Ref) {
    exists p :: IsChain(h, p) && p[0] == x && p[|p| - 1] == y
  }

  lemma {:induction false} ReachesItself(h: Heap, x: Ref)
    requires x in h
    ensures Reaches(h, x, x)
  {
    assert IsChain(h, [x]);
  }

  lemma {:induction false} ReachesChild(h: Heap, x: Ref, y: Ref, c: Ref)
    requires Reaches(h, x, y) && c in h && c in h[y].Children()
    ensures Reaches(h, x, c)
  {
    var p :| IsChain(h, p) && p[0] == x && p[|p| - 1] == y;
    var q := p + [c];
    assert forall i :: 0 < i < |q| ==> q[i] in h[q[i - 1]].Children();
    assert IsChain(h, q);
  }
}
