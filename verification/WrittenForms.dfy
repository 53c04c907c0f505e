/** Of the forms that could be read the writer takes the shortest. */
module WrittenForms {
  import opened Bytes
  import opened PropertyList
  import opened ObjectHeap
  import opened Encoding

  /** Whether `size` bytes are the fewest of 1, 2, 4 and 8 that hold the number. */
  ghost predicate IsLeastSize(v: nat, size: nat) {
    || (size == 1 && v < 0x100)
    || (size == 2 && 0x100 <= v < 0x1_0000)
    || (size == 4 && 0x1_0000 <= v < 0x1_0000_0000)
    || (size == 8 && 0x1_0000_0000 <= v < 0x1_0000_0000_0000_0000)
  }

  lemma LeastSize(v: nat)
    requires v < TWO64
    ensures IsLeastSize(v, ByteCount(v))
  {
    hide Pow256;
    Pow256Values();
  }

  /** A count below 15 is in the marker, any other in an integer object of the least size. */
  lemma {:induction false} LeadIsShort(marker: byte, n: nat)
    requires marker <= 0xF0 && n < TWO64
    ensures n < 15 ==> Lead(marker, n) == [marker + n]
    ensures 15 <= n ==> |Lead(marker, n)| >= 2 && IsLeastSize(n, |Lead(marker, n)| - 2)
  {
    hide BigEndian, ByteCount;
    LeastSize(n);
  }

  /** Integers and UIDs take the least size; a string takes one byte a character if and only if it is ASCII. */
  lemma {:induction false} LeavesAreShort(v: PList)
    requires Simple(v).IsSound() && !v.Null?
    ensures v.Int? ==> IsLeastSize(v.bits, |SimpleBytes(v)| - 1)
    ensures v.UID? ==> IsLeastSize(v.number, |SimpleBytes(v)| - 1)
    ensures v.String? && (forall i :: 0 <= i < |v.chars| ==> v.chars[i] < 0x80) ==>
              |SimpleBytes(v)| == |Lead(0x50, |v.chars|)| + |v.chars| && SimpleBytes(v)[0] / 16 == 5
    ensures v.String? && (exists i :: 0 <= i < |v.chars| && 0x80 <= v.chars[i]) ==>
              |SimpleBytes(v)| == |Lead(0x60, |v.chars|)| + 2 * |v.chars| && SimpleBytes(v)[0] / 16 == 6
  {
    hide BigEndian, ByteCount, AsciiBytes, UnicodeBytes;
    match v
    case Int(bits) => LeastSize(bits);
    case UID(number) => LeastSize(number);
    case String(chars) =>
      LeadMarker(0x50, |chars|);
      LeadMarker(0x60, |chars|);
    case _ =>
  }

  lemma LeadMarker(marker: byte, n: nat)
    requires marker <= 0xF0 && marker % 16 == 0 && n < TWO64
    ensures Lead(marker, n)[0] / 16 == marker / 16
  {
  }

  /** References and offsets take the least size for the number of objects and for the end of the objects. */
  lemma {:induction false} SizesAreLeast(h: Heap, objtable: map<Ref, nat>, xs: seq<Ref>)
    requires |xs| < TWO64 && CanWrite(h, objtable, xs) && 8 + |ObjectsBytes(h, objtable, ByteCount(|xs|), xs)| < TWO64
    ensures var t := Layout(h, objtable, xs);
            && IsLeastSize(|xs|, t.objectRefSize)
            && IsLeastSize(8 + |ObjectsBytes(h, objtable, t.objectRefSize, xs)|, t.offsetIntSize)
  {
    hide ObjectsBytes, ByteCount, CanWrite;
    LeastSize(|xs|);
    LeastSize(8 + |ObjectsBytes(h, objtable, ByteCount(|xs|), xs)|);
  }
}
