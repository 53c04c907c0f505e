/** How one object of the object table is read: its header, and where its references are. */
module Objects {
  import opened Bytes
  import opened PropertyList
  import opened FileFormat
  import opened ObjectGraph

  /** A length or an integer, and the position after it. */
  datatype Read = Read(value: nat, next: nat)

  /** What stands at an offset: nothing readable, a finished value, or `count` references from `first` on. */
  datatype Header = Unreadable | Scalar(value: PList) | Refs(kind: Kind, first: nat, count: nat)

  /** An integer object, as it is used for long lengths. Its size reaches the loop that reads it as one byte. */
  function ReadInt(d: Document, ptr: nat): (r: Option<Read>)
    requires d.Valid()
    ensures r.Some? ==> ptr < r.value.next <= d.trailer.offsetTableOffset && r.value.value < TWO64
  {
    var end := d.trailer.offsetTableOffset - 1;
    if end < ptr then None
    else
      var marker := d.bytes[ptr];
      if marker / 16 != 0x1 then None
      else
        var cnt := Pow2(marker % 16);
        if end < ptr + 1 + cnt - 1 then None
        else Some(Read(SizedInt(d.bytes[ptr + 1..ptr + 1 + cnt % 256]), ptr + 1 + cnt))
  }

  /** So an integer of 256 bytes or more is read as 0: what is read is the integer in all of its bytes, modulo 2^64, if and
      only if they are fewer or that is 0. */
  lemma {:induction false} ReadIntIsRightIff(d: Document, ptr: nat)
    requires d.Valid() && ReadInt(d, ptr).Some?
    ensures var n := Pow2(d.bytes[ptr] % 16);
            var all := SizedInt(d.bytes[ptr + 1..ptr + 1 + n]);
            ReadInt(d, ptr).value.value == (if n < 256 then all else 0)
            && (ReadInt(d, ptr).value.value == all <==> n < 256 || all == 0)
  {
    hide SizedInt;
    var n := d.bytes[ptr] % 16;
    Pow2Wraps(n);
    assert d.bytes[ptr + 1..ptr + 1 + 0] == [];
    NothingIsZero();
  }

  lemma NothingIsZero()
    ensures SizedInt([]) == 0
  {
  }

  lemma {:induction false} Pow2Wraps(n: nat)
    ensures Pow2(n) % 256 == if n < 8 then Pow2(n) else 0
    ensures n < 8 <==> Pow2(n) < 256
  {
    if 8 < n {
      Pow2Wraps(n - 1);
    } else {
      assert Pow2(1) == 2 && Pow2(2) == 4 && Pow2(3) == 8 && Pow2(4) == 16;
      assert Pow2(5) == 32 && Pow2(6) == 64 && Pow2(7) == 128 && Pow2(8) == 256;
    }
  }

  /** The length of a variable-sized object: the low half of its marker, or an integer after it. */
  function LengthAt(d: Document, offset: nat): (r: Option<Read>)
    requires d.Valid() && offset < d.trailer.offsetTableOffset
    ensures r.Some? ==> offset < r.value.next <= d.trailer.offsetTableOffset && r.value.value <= LONG_MAX
  {
    var low := d.bytes[offset] % 16;
    if low != 0xF then Some(Read(low, offset + 1))
    else
      var r := ReadInt(d, offset + 1);
      if r.None? || LONG_MAX < r.value.value then None else r
  }

  /** Whether `size` bytes from `ptr` on lie inside the object table. */
  predicate FitsAt(d: Document, ptr: nat, size: nat) {
    ptr + size <= d.trailer.offsetTableOffset
  }

  /** The references of an array, set or dictionary (keys, then values), if they lie inside the table. */
  function RefsAt(d: Document, offset: nat): (r: Option<Read>)
    requires d.Valid() && offset < d.trailer.offsetTableOffset
    ensures r.Some? ==> RefPosition(d, r.value.next, r.value.value) <= d.trailer.offsetTableOffset
    ensures r.Some? ==> offset < r.value.next
  {
    var length := LengthAt(d, offset);
    if length.None? then None
    else
      var cnt := if d.bytes[offset] / 16 == 0xD then length.value.value * 2 else length.value.value;
      if FitsAt(d, length.value.next, ByteSize(cnt, d.trailer.objectRefSize)) then Some(Read(cnt, length.value.next)) else None
  }

  /** Bytes pairwise to UTF-16 code units. */
  function Units(bytes: seq<byte>): (units: seq<unichar>)
    requires |bytes| % 2 == 0
    ensures |units| == |bytes| / 2
  {
    seq(|bytes| / 2, i requires 0 <= i < |bytes| / 2 => bytes[2 * i] as int * 256 + bytes[2 * i + 1])
  }

  /** Objects of fixed size. */
  function FixedHeader(d: Document, offset: nat): (h: Header)
    requires d.Valid() && 8 <= offset < d.trailer.offsetTableOffset
    ensures !h.Refs?
    ensures h.Scalar? ==> IsPrimitive(h.value)
  {
    var marker := d.bytes[offset];
    var ptr := offset + 1;
    match marker / 16
    case 0x0 =>
      if marker == 0x00 then Scalar(Null)
      else if marker == 0x08 then Scalar(Bool(false))
      else if marker == 0x09 then Scalar(Bool(true))
      else Unreadable
    case 0x1 =>
      var cnt := Pow2(marker % 16);
      if !FitsAt(d, ptr, cnt) || 16 < cnt then Unreadable
      else
        var v := SizedInt(d.bytes[ptr..ptr + cnt]);
        Scalar(if 8 < cnt then Int128(0, v) else Int(v))
    case 0x2 =>
      if marker == 0x22 && FitsAt(d, ptr, 4) then Scalar(Real32(SizedInt(d.bytes[ptr..ptr + 4])))
      else if marker == 0x23 && FitsAt(d, ptr, 8) then Scalar(Real64(SizedInt(d.bytes[ptr..ptr + 8])))
      else Unreadable
    case 0x3 =>
      if marker == 0x33 && FitsAt(d, ptr, 8) then Scalar(Date(SizedInt(d.bytes[ptr..ptr + 8])))
      else Unreadable
    case 0x8 =>
      var cnt := marker % 16 + 1;
      if !FitsAt(d, ptr, cnt) then Unreadable
      else
        var v := SizedInt(d.bytes[ptr..ptr + cnt]);
        if 0xFFFF_FFFF < v then Unreadable else Scalar(UID(v))
    case _ => Unreadable
  }

  /** Data and strings. An ASCII string is read byte by byte: every byte is a character. */
  function BlockHeader(d: Document, offset: nat): (h: Header)
    requires d.Valid() && 8 <= offset < d.trailer.offsetTableOffset
    ensures !h.Refs?
    ensures h.Scalar? ==> IsPrimitive(h.value)
  {
    var marker := d.bytes[offset];
    var length := LengthAt(d, offset);
    if length.None? then Unreadable
    else
      var Read(cnt, ptr) := length.value;
      match marker / 16
      case 0x4 => if FitsAt(d, ptr, cnt) then Scalar(Data(d.bytes[ptr..ptr + cnt])) else Unreadable
      case 0x5 => if FitsAt(d, ptr, cnt) then Scalar(String(Chars(d.bytes[ptr..ptr + cnt]))) else Unreadable
      case 0x6 => if FitsAt(d, ptr, 2 * cnt) then Scalar(String(Units(d.bytes[ptr..ptr + 2 * cnt]))) else Unreadable
      case _ => Unreadable
  }

  function Chars(bytes: seq<byte>): (chars: seq<unichar>)
    ensures |chars| == |bytes|
    ensures forall i :: 0 <= i < |bytes| ==> chars[i] == bytes[i]
  {
    seq(|bytes|, i requires 0 <= i < |bytes| => bytes[i])
  }

  /** Containers: the list of pointers to the children must be allocatable as well. */
  function ContainerHeader(d: Document, offset: nat): (h: Header)
    requires d.Valid() && 8 <= offset < d.trailer.offsetTableOffset
    ensures !h.Scalar?
    ensures h.Refs? ==> RefPosition(d, h.first, h.count) <= d.trailer.offsetTableOffset
  {
    var kind := match d.bytes[offset] / 16 case 0xA => ArrayKind case 0xC => SetKind case _ => DictKind;
    var refs := RefsAt(d, offset);
    if refs.None? || TWO64 <= refs.value.value * 8 then Unreadable
    else Refs(kind, refs.value.next, refs.value.value)
  }

  /** The object at an offset. */
  function HeaderAt(d: Document, offset: nat): (h: Header)
    requires d.Valid()
    ensures h != Unreadable ==> 8 <= offset < d.trailer.offsetTableOffset
    ensures h.Scalar? ==> IsPrimitive(h.value)
    ensures h.Refs? ==> RefPosition(d, h.first, h.count) <= d.trailer.offsetTableOffset
  {
    if offset < 8 || d.trailer.offsetTableOffset <= offset then Unreadable
    else if d.bytes[offset] / 16 in {0xA, 0xC, 0xD} then ContainerHeader(d, offset)
    else if d.bytes[offset] / 16 in {0x4, 0x5, 0x6} then BlockHeader(d, offset)
    else FixedHeader(d, offset)
  }

  /** Where reference `i` of a container stands whose references start at `first`. */
  function RefPosition(d: Document, first: nat, i: nat): nat {
    first + ByteSize(i, d.trailer.objectRefSize)
  }

  /** The offsets that `count` references from position `first` on resolve to. */
  function ResolveRefs(d: Document, first: nat, count: nat): (offsets: seq<nat>)
    requires d.Valid()
    ensures |offsets| == count
  {
    seq(count, i requires 0 <= i < count => d.OffsetOfRefAt(RefPosition(d, first, i)))
  }

  lemma ResolvedRef(d: Document, first: nat, count: nat, i: nat)
    requires d.Valid() && i < count
    ensures ResolveRefs(d, first, count)[i] == d.OffsetOfRefAt(RefPosition(d, first, i))
  {
  }

  /** The object at an offset, as a node of the object graph. */
  ghost function NodeAt(d: Document, offset: nat): (node: Node)
    requires d.Valid()
    ensures node != Bad ==> 8 <= offset < d.trailer.offsetTableOffset
  {
    match HeaderAt(d, offset)
    case Unreadable => Bad
    case Scalar(v) => Leaf(v)
    case Refs(kind, first, count) => Branch(kind, ResolveRefs(d, first, count))
  }

  /** The object graph of a document. */
  ghost predicate IsGraphOf(g: Graph, d: Document) {
    d.Valid() && forall offset: nat {:trigger NodeAt(d, offset)} :: g(offset) == NodeAt(d, offset)
  }

  lemma GraphIsValid(g: Graph, d: Document)
    requires IsGraphOf(g, d)
    ensures d.Valid()
  {
  }

  ghost function GraphOf(d: Document): (g: Graph)
    requires d.Valid()
    ensures IsGraphOf(g, d)
  {
    (offset: nat) => if d.Valid() then NodeAt(d, offset) else Bad
  }
}
