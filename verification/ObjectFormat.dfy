/** The object formats as the source documents them, and that the reader takes exactly these. */
module ObjectFormat {
  import opened Bytes
  import opened PropertyList
  import opened FileFormat
  import opened Objects
  import opened ObjectGraph

  /** Big-endian bytes as a number. */
  function Value(s: seq<byte>): (v: nat) {
    if s == [] then 0 else s[0] * Pow256(|s| - 1) + Value(s[1..])
  }

  /** An integer object where it holds a length: 2^k bytes after 0001 kkkk. 256 bytes and more are not looked at. */
  ghost predicate IsLength(e: seq<byte>, n: nat) {
    exists k: nat :: k < 16 && IsLengthOf(e, k, n)
  }

  ghost predicate IsLengthOf(e: seq<byte>, k: nat, n: nat)
    requires k < 16
  {
    |e| == 1 + Pow2(k) && e[0] == 0x10 + k && n == if k < 8 then Value(e[1..]) % 0x1_0000_0000_0000_0000 else 0
  }

  /** A marker with a count: in its low half, or 1111 and an integer object. */
  ghost predicate IsLead(e: seq<byte>, class_: nat, n: nat) {
    || (n < 15 && |e| == 1 && e[0] == class_ + n)
    || (2 <= |e| && e[0] == class_ + 15 && IsLength(e[1..], n) && n <= 0x7FFF_FFFF_FFFF_FFFF)
  }

  /** A marker with a count of elements of some size, and the elements. */
  ghost predicate IsBlock(e: seq<byte>, class_: nat, n: nat, elements: seq<byte>) {
    exists m :: 0 <= m <= |e| && IsLead(e[..m], class_, n) && e[m..] == elements
  }

  /** A marker and a number in a number of bytes. */
  ghost predicate IsNumber(e: seq<byte>, marker: byte, size: nat, v: nat) {
    |e| == 1 + size && e[0] == marker && v == Value(e[1..])
  }

  /** The bytes of a string: one for a character, or two. */
  ghost predicate Spells(bytes: seq<byte>, chars: seq<unichar>, wide: bool) {
    if wide then
      |bytes| == 2 * |chars| && forall i :: 0 <= i < |chars| ==> chars[i] == bytes[2 * i] as int * 256 + bytes[2 * i + 1]
    else
      |bytes| == |chars| && forall i :: 0 <= i < |chars| ==> chars[i] == bytes[i]
  }

  /** The objects without references. */
  ghost predicate IsLeaf(e: seq<byte>, v: PList) {
    match v
    case Null => |e| == 1 && e[0] == 0x00
    case Bool(b) => |e| == 1 && e[0] == if b then 0x09 else 0x08
    case Int(bits) =>
      IsNumber(e, 0x10, 1, bits) || IsNumber(e, 0x11, 2, bits) || IsNumber(e, 0x12, 4, bits) || IsNumber(e, 0x13, 8, bits)
    case Int128(high, low) => |e| == 17 && e[0] == 0x14 && high == 0 && low == Value(e[9..])
    case Real32(bits) => IsNumber(e, 0x22, 4, bits)
    case Real64(bits) => IsNumber(e, 0x23, 8, bits)
    case Date(bits) => IsNumber(e, 0x33, 8, bits)
    case Data(bytes) => IsBlock(e, 0x40, |bytes|, bytes)
    case String(chars) =>
      || (exists bytes :: IsBlock(e, 0x50, |chars|, bytes) && Spells(bytes, chars, false))
      || (exists bytes :: IsBlock(e, 0x60, |chars|, bytes) && Spells(bytes, chars, true))
    case UID(number) =>
      && 2 <= |e| <= 17 && e[0] == 0x80 + (|e| - 2)
      && number == Value(e[1..]) % 0x1_0000_0000_0000_0000 <= 0xFFFF_FFFF
    case _ => false
  }

  /** The high half of the markers of containers. */
  function ClassOf(kind: Kind): nat {
    match kind case ArrayKind => 0xA0 case SetKind => 0xC0 case DictKind => 0xD0
  }

  lemma {:induction false} ValueAtEnd(s: seq<byte>)
    requires s != []
    ensures Value(s) == Value(s[..|s| - 1]) * 256 + s[|s| - 1]
  {
    var n := |s| - 1;
    if n > 0 {
      ValueAtEnd(s[1..]);
      assert s[1..][..n - 1] == s[..n][1..] && s[1..][n - 1] == s[n];
      Scale(s[0], n - 1);
    } else {
      assert s[1..] == [] && s[..0] == [];
    }
  }

  lemma Scale(x: nat, n: nat)
    ensures x * Pow256(n + 1) == x * Pow256(n) * 256
  {
    var p := Pow256(n);
    assert x * (256 * p) == x * p * 256;
  }

  /** The loop of the reader gives the number modulo 2^64. */
  lemma {:induction false} SizedIntIsValue(s: seq<byte>)
    ensures SizedInt(s) == Value(s) % 0x1_0000_0000_0000_0000
  {
    if s != [] {
      SizedIntIsValue(s[..|s| - 1]);
      ValueAtEnd(s);
      Wraps(Value(s[..|s| - 1]), s[|s| - 1]);
    }
  }

  lemma Wraps(v: nat, low: nat)
    ensures (v % 0x1_0000_0000_0000_0000 * 256 + low) % 0x1_0000_0000_0000_0000 == (v * 256 + low) % 0x1_0000_0000_0000_0000
  {
    var q := v / 0x1_0000_0000_0000_0000;
    var r := v % 0x1_0000_0000_0000_0000;
    assert v * 256 + low == (r * 256 + low) + 256 * q * 0x1_0000_0000_0000_0000;
    AddsMultiple(r * 256 + low, 256 * q);
  }

  lemma AddsMultiple(x: nat, q: nat)
    ensures (x + q * 0x1_0000_0000_0000_0000) % 0x1_0000_0000_0000_0000 == x % 0x1_0000_0000_0000_0000
  {
  }

  /** Up to eight bytes nothing wraps. */
  lemma {:induction false} ValueFits(s: seq<byte>)
    ensures Value(s) < Pow256(|s|)
  {
    if s != [] {
      ValueFits(s[..|s| - 1]);
      ValueAtEnd(s);
    }
  }

  lemma {:induction false} ShortValue(s: seq<byte>)
    requires |s| <= 8
    ensures SizedInt(s) == Value(s)
  {
    SizedIntIsValue(s);
    ValueFits(s);
    Pow256Values();
    Pow256Monotone(|s|, 8);
  }

  /** A length in an integer object. */
  lemma {:induction false} ReadIntIff(d: Document, ptr: nat, n: nat, m: nat)
    requires d.Valid()
    ensures ReadInt(d, ptr) == Some(Read(n, ptr + m)) <==>
            ptr + m <= d.trailer.offsetTableOffset && IsLength(d.bytes[ptr..ptr + m], n)
  {
    if ReadInt(d, ptr) == Some(Read(n, ptr + m)) {
      ReadIntIsLength(d, ptr);
    }
    if ptr + m <= d.trailer.offsetTableOffset && IsLength(d.bytes[ptr..ptr + m], n) {
      LengthIsRead(d, ptr, n, m);
    }
  }

  lemma {:induction false} ReadIntIsLength(d: Document, ptr: nat)
    requires d.Valid() && ReadInt(d, ptr).Some?
    ensures var Read(n, next) := ReadInt(d, ptr).value;
            ptr <= next <= d.trailer.offsetTableOffset && IsLength(d.bytes[ptr..next], n)
  {
    hide SizedInt, Value, Pow2;
    var Read(n, next) := ReadInt(d, ptr).value;
    var k := d.bytes[ptr] % 16;
    var e := d.bytes[ptr..next];
    ReadIntIsRightIff(d, ptr);
    Pow2Wraps(k);
    SizedIntIsValue(d.bytes[ptr + 1..ptr + 1 + Pow2(k)]);
    assert e[1..] == d.bytes[ptr + 1..ptr + 1 + Pow2(k)];
    assert IsLengthOf(e, k, n);
  }

  lemma {:induction false} LengthIsRead(d: Document, ptr: nat, n: nat, m: nat)
    requires d.Valid() && ptr + m <= d.trailer.offsetTableOffset && IsLength(d.bytes[ptr..ptr + m], n)
    ensures ReadInt(d, ptr) == Some(Read(n, ptr + m))
  {
    hide SizedInt, Value, Pow2;
    var e := d.bytes[ptr..ptr + m];
    var k: nat :| k < 16 && IsLengthOf(e, k, n);
    assert e[0] == d.bytes[ptr];
    Halved(k);
    assert ReadInt(d, ptr).Some?;
    ReadIntIsRightIff(d, ptr);
    Pow2Wraps(k);
    SizedIntIsValue(e[1..]);
    assert e[1..] == d.bytes[ptr + 1..ptr + 1 + Pow2(k)];
  }

  lemma Halved(k: nat)
    requires k < 16
    ensures (0x10 + k) / 16 == 1 && (0x10 + k) % 16 == k
  {
  }

  /** A marker with a count. */
  lemma {:induction false} LeadIff(d: Document, off: nat, class_: nat, n: nat, m: nat)
    requires d.Valid() && off < d.trailer.offsetTableOffset && class_ in {0x40, 0x50, 0x60, 0xA0, 0xC0, 0xD0}
    ensures d.bytes[off] / 16 == class_ / 16 && LengthAt(d, off) == Some(Read(n, off + m)) <==>
            off + m <= d.trailer.offsetTableOffset && IsLead(d.bytes[off..off + m], class_, n)
  {
    hide ReadInt, IsLength;
    var marker := d.bytes[off];
    if 1 <= m && off + m <= d.trailer.offsetTableOffset {
      var e := d.bytes[off..off + m];
      assert e[0] == marker;
      Slices(d.bytes, off, m, 1);
      ReadIntIff(d, off + 1, n, m - 1);
      if n < 16 {
        LowHalf(marker, class_, n);
      }
      LowHalf(marker, class_, 15);
    }
  }

  lemma LowHalf(marker: byte, class_: nat, low: nat)
    requires class_ % 16 == 0 && low < 16
    ensures marker == class_ + low <==> marker / 16 == class_ / 16 && marker % 16 == low
  {
  }

  /** The first `n` bytes from an offset on, inside the object table, are such an object. */
  ghost predicate LeafIn(d: Document, off: nat, n: nat, v: PList)
    requires d.Valid()
  {
    off + n <= d.trailer.offsetTableOffset && IsLeaf(d.bytes[off..off + n], v)
  }

  ghost predicate LeafStands(d: Document, off: nat, v: PList)
    requires d.Valid()
  {
    exists n: nat :: LeafIn(d, off, n, v)
  }

  lemma {:induction false} NumberIff(d: Document, off: nat, marker: byte, size: nat, v: nat)
    requires d.Valid() && off < d.trailer.offsetTableOffset && size <= 8
    ensures off + 1 + size <= d.trailer.offsetTableOffset && IsNumber(d.bytes[off..off + 1 + size], marker, size, v) <==>
            FitsAt(d, off + 1, size) && d.bytes[off] == marker && SizedInt(d.bytes[off + 1..off + 1 + size]) == v
  {
    hide SizedInt, Value;
    if FitsAt(d, off + 1, size) {
      var e := d.bytes[off..off + 1 + size];
      assert e[1..] == d.bytes[off + 1..off + 1 + size];
      ShortValue(e[1..]);
    }
  }

  lemma Powers()
    ensures Pow2(0) == 1 && Pow2(1) == 2 && Pow2(2) == 4 && Pow2(3) == 8 && Pow2(4) == 16
    ensures forall k: nat :: k > 4 ==> Pow2(k) > 16
  {
    assert Pow2(1) == 2 && Pow2(2) == 4 && Pow2(3) == 8 && Pow2(4) == 16;
    forall k: nat | k > 4
      ensures Pow2(k) > 16
    {
      Larger(k);
    }
  }

  lemma {:induction false} Larger(k: nat)
    requires k > 4
    ensures Pow2(k) > 16
  {
    if k == 5 {
      assert Pow2(1) == 2 && Pow2(2) == 4 && Pow2(3) == 8 && Pow2(4) == 16;
    } else {
      Larger(k - 1);
    }
  }

  /** The forms of integers have 1, 2, 4 and 8 bytes. */
  lemma {:induction false} IntIff(d: Document, off: nat, bits: nat)
    requires d.Valid() && 8 <= off < d.trailer.offsetTableOffset
    ensures FixedHeader(d, off) == Scalar(Int(bits)) <==> LeafStands(d, off, Int(bits))
  {
    hide SizedInt, IsNumber, Pow2;
    NumberIff(d, off, 0x10, 1, bits);
    NumberIff(d, off, 0x11, 2, bits);
    NumberIff(d, off, 0x12, 4, bits);
    NumberIff(d, off, 0x13, 8, bits);
    Powers();
    if FixedHeader(d, off) == Scalar(Int(bits)) {
      assert LeafIn(d, off, 1 + Pow2(d.bytes[off] % 16), Int(bits));
    }
    if LeafStands(d, off, Int(bits)) {
      var n: nat :| LeafIn(d, off, n, Int(bits));
      NumberSize(d.bytes[off..off + n], bits);
    }
  }

  lemma NumberSize(e: seq<byte>, bits: nat)
    requires IsLeaf(e, Int(bits))
    ensures |e| in {2, 3, 5, 9}
    ensures IsNumber(e, if |e| == 2 then 0x10 else if |e| == 3 then 0x11 else if |e| == 5 then 0x12 else 0x13, |e| - 1, bits)
  {
  }

  /** Real numbers and dates. */
  lemma {:induction false} RealIff(d: Document, off: nat, bits: nat, marker: byte, size: nat, v: PList)
    requires d.Valid() && 8 <= off < d.trailer.offsetTableOffset
    requires (v == Real32(bits) && marker == 0x22 && size == 4) || (v == Real64(bits) && marker == 0x23 && size == 8)
             || (v == Date(bits) && marker == 0x33 && size == 8)
    ensures FixedHeader(d, off) == Scalar(v) <==> LeafStands(d, off, v)
  {
    hide SizedInt, Pow2;
    NumberIff(d, off, marker, size, bits);
    if FixedHeader(d, off) == Scalar(v) {
      assert LeafIn(d, off, 1 + size, v);
    }
    if LeafStands(d, off, v) {
      var n: nat :| LeafIn(d, off, n, v);
      assert n == 1 + size;
    }
  }

  lemma {:induction false} ConstantIff(d: Document, off: nat, v: PList)
    requires d.Valid() && 8 <= off < d.trailer.offsetTableOffset && (v.Null? || v.Bool?)
    ensures FixedHeader(d, off) == Scalar(v) <==> LeafStands(d, off, v)
  {
    hide SizedInt, Pow2;
    if FixedHeader(d, off) == Scalar(v) {
      assert LeafIn(d, off, 1, v);
    }
  }

  lemma {:induction false} UidIff(d: Document, off: nat, number: nat)
    requires d.Valid() && 8 <= off < d.trailer.offsetTableOffset
    ensures FixedHeader(d, off) == Scalar(UID(number)) <==> LeafStands(d, off, UID(number))
  {
    hide SizedInt, Pow2, Value;
    var cnt := d.bytes[off] % 16 + 1;
    if FitsAt(d, off + 1, cnt) {
      var e := d.bytes[off..off + 1 + cnt];
      assert e[1..] == d.bytes[off + 1..off + 1 + cnt];
      SizedIntIsValue(e[1..]);
    }
    if FixedHeader(d, off) == Scalar(UID(number)) {
      assert LeafIn(d, off, 1 + cnt, UID(number));
    }
    if LeafStands(d, off, UID(number)) {
      var n: nat :| LeafIn(d, off, n, UID(number));
      assert n == 1 + cnt;
    }
  }

  lemma {:induction false} ValueOfBoth(a: seq<byte>, b: seq<byte>)
    ensures Value(a + b) == Value(a) * Pow256(|b|) + Value(b)
  {
    if b == [] {
      assert a + b == a;
    } else {
      var n := |b| - 1;
      ValueOfBoth(a, b[..n]);
      ValueAtEnd(b);
      ValueAtEnd(a + b);
      assert (a + b)[..|a + b| - 1] == a + b[..n];
      Scale(Value(a), n);
    }
  }

  /** Of sixteen bytes the last eight count. */
  lemma {:induction false} LastEight(s: seq<byte>)
    requires |s| == 16
    ensures SizedInt(s) == Value(s[8..])
  {
    hide SizedInt, Value, Pow256;
    assert s == s[..8] + s[8..];
    SizedIntIsValue(s);
    ValueOfBoth(s[..8], s[8..]);
    ValueFits(s[8..]);
    Pow256Values();
    AddsMultiple(Value(s[8..]), Value(s[..8]));
  }

  lemma {:induction false} WideIff(d: Document, off: nat, high: nat, low: nat)
    requires d.Valid() && 8 <= off < d.trailer.offsetTableOffset
    ensures FixedHeader(d, off) == Scalar(Int128(high, low)) <==> LeafStands(d, off, Int128(high, low))
  {
    hide SizedInt, Pow2, Value;
    Powers();
    if FitsAt(d, off + 1, 16) {
      var e := d.bytes[off..off + 17];
      assert e[1..] == d.bytes[off + 1..off + 17] && e[1..][8..] == e[9..];
      LastEight(e[1..]);
    }
    if FixedHeader(d, off) == Scalar(Int128(high, low)) {
      assert d.bytes[off] == 0x14;
      assert LeafIn(d, off, 17, Int128(high, low));
    }
    if LeafStands(d, off, Int128(high, low)) {
      var n: nat :| LeafIn(d, off, n, Int128(high, low));
    }
  }

  /** What a marker with a count and enough elements is read as. */
  lemma {:induction false} BlockStands(d: Document, off: nat, class_: nat, size: nat)
    requires d.Valid() && off < d.trailer.offsetTableOffset && class_ in {0x40, 0x50, 0x60}
    requires d.bytes[off] / 16 == class_ / 16 && LengthAt(d, off).Some? && FitsAt(d, LengthAt(d, off).value.next, size)
    ensures var Read(n, ptr) := LengthAt(d, off).value;
            off < ptr && IsBlock(d.bytes[off..ptr + size], class_, n, d.bytes[ptr..ptr + size])
  {
    hide IsLead, LengthAt;
    var Read(n, ptr) := LengthAt(d, off).value;
    var e := d.bytes[off..ptr + size];
    LeadIff(d, off, class_, n, ptr - off);
    Slices(d.bytes, off, ptr + size - off, ptr - off);
  }

  lemma {:induction false} BlockIsRead(d: Document, off: nat, k: nat, class_: nat, n: nat, elements: seq<byte>)
    requires d.Valid() && off < d.trailer.offsetTableOffset && class_ in {0x40, 0x50, 0x60}
    requires off + k <= d.trailer.offsetTableOffset && IsBlock(d.bytes[off..off + k], class_, n, elements)
    ensures d.bytes[off] / 16 == class_ / 16 && LengthAt(d, off).Some?
    ensures var Read(len, ptr) := LengthAt(d, off).value;
            len == n && FitsAt(d, ptr, |elements|) && d.bytes[ptr..ptr + |elements|] == elements
  {
    hide IsLead, LengthAt;
    var e := d.bytes[off..off + k];
    var m :| 0 <= m <= |e| && IsLead(e[..m], class_, n) && e[m..] == elements;
    Slices(d.bytes, off, k, m);
    LeadIff(d, off, class_, n, m);
  }

  lemma Slices(s: seq<byte>, at: nat, k: nat, m: nat)
    requires at + k <= |s| && m <= k
    ensures s[at..at + k][..m] == s[at..at + m] && s[at..at + k][m..] == s[at + m..at + k]
  {
  }

  lemma {:induction false} DataIff(d: Document, off: nat, bytes: seq<byte>)
    requires d.Valid() && 8 <= off < d.trailer.offsetTableOffset
    ensures BlockHeader(d, off) == Scalar(Data(bytes)) <==> LeafStands(d, off, Data(bytes))
  {
    hide IsBlock, LengthAt;
    if BlockHeader(d, off) == Scalar(Data(bytes)) {
      var Read(n, ptr) := LengthAt(d, off).value;
      BlockStands(d, off, 0x40, n);
      assert LeafIn(d, off, ptr + n - off, Data(bytes));
    }
    if LeafStands(d, off, Data(bytes)) {
      var k: nat :| LeafIn(d, off, k, Data(bytes));
      BlockIsRead(d, off, k, 0x40, |bytes|, bytes);
    }
  }

  lemma {:induction false} StringIff(d: Document, off: nat, chars: seq<unichar>)
    requires d.Valid() && 8 <= off < d.trailer.offsetTableOffset
    ensures BlockHeader(d, off) == Scalar(String(chars)) <==> LeafStands(d, off, String(chars))
  {
    hide IsBlock, LengthAt, Units, Chars;
    if BlockHeader(d, off) == Scalar(String(chars)) {
      StringStands(d, off, chars);
    }
    if LeafStands(d, off, String(chars)) {
      var k: nat :| LeafIn(d, off, k, String(chars));
      StringIsRead(d, off, k, chars);
    }
  }

  lemma {:induction false} SpelledNarrow(bytes: seq<byte>, chars: seq<unichar>)
    ensures Spells(bytes, chars, false) <==> Chars(bytes) == chars
  {
  }

  lemma {:induction false} SpelledWide(bytes: seq<byte>, chars: seq<unichar>)
    ensures Spells(bytes, chars, true) <==> |bytes| % 2 == 0 && Units(bytes) == chars
  {
    if |bytes| % 2 == 0 && |bytes| == 2 * |chars| {
      forall i | 0 <= i < |chars|
        ensures Units(bytes)[i] == bytes[2 * i] as int * 256 + bytes[2 * i + 1]
      {
      }
    }
  }

  /** The reader of strings, case by case. */
  lemma {:induction false} StringHeader(d: Document, off: nat)
    requires d.Valid() && 8 <= off < d.trailer.offsetTableOffset && LengthAt(d, off).Some?
    ensures var Read(n, ptr) := LengthAt(d, off).value;
            && (d.bytes[off] / 16 == 5 ==>
                  BlockHeader(d, off) == if FitsAt(d, ptr, n) then Scalar(String(Chars(d.bytes[ptr..ptr + n]))) else Unreadable)
            && (d.bytes[off] / 16 == 6 ==>
                  BlockHeader(d, off) ==
                  if FitsAt(d, ptr, 2 * n) then Scalar(String(Units(d.bytes[ptr..ptr + 2 * n]))) else Unreadable)
  {
    hide LengthAt, Units, Chars;
  }

  lemma {:induction false} StringMarker(d: Document, off: nat)
    requires d.Valid() && 8 <= off < d.trailer.offsetTableOffset
    ensures BlockHeader(d, off).Scalar? ==> LengthAt(d, off).Some?
    ensures BlockHeader(d, off).Scalar? && BlockHeader(d, off).value.String? ==> d.bytes[off] / 16 in {5, 6}
  {
    hide LengthAt, Units, Chars;
  }

  lemma StringIn(d: Document, off: nat, k: nat, chars: seq<unichar>, bytes: seq<byte>, wide: bool)
    requires d.Valid() && off + k <= d.trailer.offsetTableOffset
    requires IsBlock(d.bytes[off..off + k], if wide then 0x60 else 0x50, |chars|, bytes) && Spells(bytes, chars, wide)
    ensures LeafStands(d, off, String(chars))
  {
    hide IsBlock, Spells;
    assert LeafIn(d, off, k, String(chars));
  }

  lemma {:induction false} StringStands(d: Document, off: nat, chars: seq<unichar>)
    requires d.Valid() && 8 <= off < d.trailer.offsetTableOffset && BlockHeader(d, off) == Scalar(String(chars))
    ensures LeafStands(d, off, String(chars))
  {
    hide IsBlock, LengthAt, BlockHeader, Spells, Chars, Units, LeafStands;
    StringMarker(d, off);
    StringHeader(d, off);
    var Read(n, ptr) := LengthAt(d, off).value;
    if d.bytes[off] / 16 == 5 {
      NarrowStands(d, off, chars, n, ptr);
    } else {
      WideStands(d, off, chars, n, ptr);
    }
  }

  lemma {:induction false} NarrowStands(d: Document, off: nat, chars: seq<unichar>, n: nat, ptr: nat)
    requires d.Valid() && off < d.trailer.offsetTableOffset && LengthAt(d, off) == Some(Read(n, ptr))
    requires d.bytes[off] / 16 == 5 && FitsAt(d, ptr, n) && Chars(d.bytes[ptr..ptr + n]) == chars
    ensures LeafStands(d, off, String(chars))
  {
    hide IsBlock, LengthAt, Spells, Chars, LeafStands;
    BlockStands(d, off, 0x50, n);
    SpelledNarrow(d.bytes[ptr..ptr + n], chars);
    StringIn(d, off, ptr + n - off, chars, d.bytes[ptr..ptr + n], false);
  }

  lemma {:induction false} WideStands(d: Document, off: nat, chars: seq<unichar>, n: nat, ptr: nat)
    requires d.Valid() && off < d.trailer.offsetTableOffset && LengthAt(d, off) == Some(Read(n, ptr))
    requires d.bytes[off] / 16 == 6 && FitsAt(d, ptr, 2 * n) && Units(d.bytes[ptr..ptr + 2 * n]) == chars
    ensures LeafStands(d, off, String(chars))
  {
    hide IsBlock, LengthAt, Spells, Units, LeafStands;
    BlockStands(d, off, 0x60, 2 * n);
    SpelledWide(d.bytes[ptr..ptr + 2 * n], chars);
    StringIn(d, off, ptr + 2 * n - off, chars, d.bytes[ptr..ptr + 2 * n], true);
  }

  lemma {:induction false} StringIsRead(d: Document, off: nat, k: nat, chars: seq<unichar>)
    requires d.Valid() && 8 <= off < d.trailer.offsetTableOffset && LeafIn(d, off, k, String(chars))
    ensures BlockHeader(d, off) == Scalar(String(chars))
  {
    hide IsBlock, LengthAt, BlockHeader, Spells, Chars, Units;
    var e := d.bytes[off..off + k];
    if bytes :| IsBlock(e, 0x50, |chars|, bytes) && Spells(bytes, chars, false) {
      SpelledNarrow(bytes, chars);
      BlockIsRead(d, off, k, 0x50, |chars|, bytes);
    } else {
      var bytes :| IsBlock(e, 0x60, |chars|, bytes) && Spells(bytes, chars, true);
      SpelledWide(bytes, chars);
      BlockIsRead(d, off, k, 0x60, |chars|, bytes);
    }
    StringHeader(d, off);
  }

  /** The theorem: what the reader takes for an object without references is exactly what the documented formats describe. */
  lemma {:induction false} LeafIff(d: Document, off: nat, v: PList)
    requires d.Valid()
    ensures HeaderAt(d, off) == Scalar(v) <==> 8 <= off && LeafStands(d, off, v)
  {
    hide FixedHeader, BlockHeader, ContainerHeader, LeafStands;
    if 8 <= off < d.trailer.offsetTableOffset {
      match v
      case Null => ConstantIff(d, off, v);
      case Bool(_) => ConstantIff(d, off, v);
      case Int(bits) => IntIff(d, off, bits);
      case Int128(high, low) => WideIff(d, off, high, low);
      case Real32(bits) => RealIff(d, off, bits, 0x22, 4, v);
      case Real64(bits) => RealIff(d, off, bits, 0x23, 8, v);
      case Date(bits) => RealIff(d, off, bits, 0x33, 8, v);
      case UID(number) => UidIff(d, off, number);
      case Data(bytes) => DataIff(d, off, bytes);
      case String(chars) => StringIff(d, off, chars);
      case _ =>
    }
    if LeafStands(d, off, v) {
      LeafClass(d, off, v);
    }
    if 8 <= off < d.trailer.offsetTableOffset {
      HeaderClass(d, off);
    }
  }

  lemma HeaderClass(d: Document, off: nat)
    requires d.Valid() && 8 <= off < d.trailer.offsetTableOffset
    ensures FixedHeader(d, off).Scalar? ==> var v := FixedHeader(d, off).value; IsPrimitive(v) && !v.Data? && !v.String?
    ensures BlockHeader(d, off).Scalar? ==> var v := BlockHeader(d, off).value; v.Data? || v.String?
  {
    hide LengthAt, SizedInt, Pow2, Units, Chars;
  }

  /** The marker tells objects of fixed size from the others. */
  lemma {:induction false} LeafClass(d: Document, off: nat, v: PList)
    requires d.Valid() && LeafStands(d, off, v)
    ensures off < d.trailer.offsetTableOffset
    ensures d.bytes[off] / 16 in {0x4, 0x5, 0x6} <==> v.Data? || v.String?
    ensures d.bytes[off] / 16 !in {0xA, 0xC, 0xD} && IsPrimitive(v)
  {
    hide IsLeaf;
    var n: nat :| LeafIn(d, off, n, v);
    LeafMarker(d.bytes[off..off + n], v);
  }

  lemma {:induction false} LeafMarker(e: seq<byte>, v: PList)
    requires IsLeaf(e, v)
    ensures e != [] && (e[0] / 16 in {0x4, 0x5, 0x6} <==> v.Data? || v.String?) && e[0] / 16 !in {0xA, 0xC, 0xD} && IsPrimitive(v)
  {
    hide IsBlock, Value, Spells;
    match v
    case Data(bytes) => BlockMarker(e, 0x40, |bytes|, bytes);
    case String(chars) =>
      if bytes :| IsBlock(e, 0x50, |chars|, bytes) && Spells(bytes, chars, false) {
        BlockMarker(e, 0x50, |chars|, bytes);
      } else {
        var bytes :| IsBlock(e, 0x60, |chars|, bytes) && Spells(bytes, chars, true);
        BlockMarker(e, 0x60, |chars|, bytes);
      }
    case _ =>
  }

  lemma BlockMarker(e: seq<byte>, class_: nat, n: nat, elements: seq<byte>)
    requires IsBlock(e, class_, n, elements) && class_ in {0x40, 0x50, 0x60}
    ensures e != [] && e[0] / 16 == class_ / 16
  {
    hide IsLength;
    var m :| 0 <= m <= |e| && IsLead(e[..m], class_, n) && e[m..] == elements;
    assert e[..m][0] == e[0];
  }

  /** Containers: a marker with a count, and as many references (twice as many in a dictionary), all inside the table. */
  ghost predicate IsContainer(d: Document, off: nat, kind: Kind, first: nat, count: nat)
    requires d.Valid()
  {
    && 8 <= off < first <= d.trailer.offsetTableOffset
    && first + count * d.trailer.objectRefSize <= d.trailer.offsetTableOffset
    && count * 8 < 0x1_0000_0000_0000_0000
    && exists n: nat :: IsLead(d.bytes[off..first], ClassOf(kind), n) && count == if kind.DictKind? then 2 * n else n
  }

  lemma {:induction false} ContainerIff(d: Document, off: nat, kind: Kind, first: nat, count: nat)
    requires d.Valid()
    ensures HeaderAt(d, off) == Refs(kind, first, count) <==> IsContainer(d, off, kind, first, count)
  {
    hide FixedHeader, BlockHeader, ContainerHeader, IsContainer;
    if 8 <= off < d.trailer.offsetTableOffset && ContainerHeader(d, off) == Refs(kind, first, count) {
      if d.bytes[off] / 16 in {0xA, 0xC, 0xD} {
        ContainerStands(d, off, kind, first, count);
      }
    }
    if IsContainer(d, off, kind, first, count) {
      ContainerIsRead(d, off, kind, first, count);
    }
  }

  lemma {:induction false} ContainerStands(d: Document, off: nat, kind: Kind, first: nat, count: nat)
    requires d.Valid() && 8 <= off < d.trailer.offsetTableOffset && d.bytes[off] / 16 in {0xA, 0xC, 0xD}
    requires ContainerHeader(d, off) == Refs(kind, first, count)
    ensures IsContainer(d, off, kind, first, count)
  {
    hide IsLead, LengthAt, ByteSize;
    var Read(n, ptr) := LengthAt(d, off).value;
    LeadIff(d, off, ClassOf(kind), n, ptr - off);
    Product(count, d.trailer.objectRefSize);
  }

  lemma Product(count: nat, size: nat)
    ensures ByteSize(count, size) == count * size
  {
  }

  lemma {:induction false} ContainerIsRead(d: Document, off: nat, kind: Kind, first: nat, count: nat)
    requires d.Valid() && IsContainer(d, off, kind, first, count)
    ensures 8 <= off < d.trailer.offsetTableOffset && d.bytes[off] / 16 in {0xA, 0xC, 0xD}
    ensures ContainerHeader(d, off) == Refs(kind, first, count)
  {
    hide IsLead, LengthAt, ByteSize, RefsAt, ContainerHeader;
    var n: nat :| IsLead(d.bytes[off..first], ClassOf(kind), n) && count == if kind.DictKind? then 2 * n else n;
    LeadIff(d, off, ClassOf(kind), n, first - off);
    MarkerOf(d.bytes[off], kind);
    FitsAsProduct(d, first, count);
    RefsAreRead(d, off, kind, n, first);
  }

  lemma FitsAsProduct(d: Document, first: nat, count: nat)
    ensures first + ByteSize(count, d.trailer.objectRefSize) <= d.trailer.offsetTableOffset <==>
            first + count * d.trailer.objectRefSize <= d.trailer.offsetTableOffset
  {
    Product(count, d.trailer.objectRefSize);
  }

  lemma MarkerOf(marker: byte, kind: Kind)
    ensures marker / 16 == ClassOf(kind) / 16 <==>
            marker / 16 == (match kind case ArrayKind => 0xA case SetKind => 0xC case DictKind => 0xD)
  {
  }

  lemma {:induction false} RefsAreRead(d: Document, off: nat, kind: Kind, n: nat, first: nat)
    requires d.Valid() && 8 <= off < d.trailer.offsetTableOffset && LengthAt(d, off) == Some(Read(n, first))
    requires d.bytes[off] / 16 == (match kind case ArrayKind => 0xA case SetKind => 0xC case DictKind => 0xD)
    requires var count := if kind.DictKind? then 2 * n else n;
             count * 8 < TWO64 && first + ByteSize(count, d.trailer.objectRefSize) <= d.trailer.offsetTableOffset
    ensures ContainerHeader(d, off) == Refs(kind, first, if kind.DictKind? then 2 * n else n)
  {
    hide LengthAt, ByteSize;
  }

  /** A reference leads to the table entry with its number, and one that is out of range, or stands outside, to no object. */
  lemma {:induction false} ReferenceIs(d: Document, pos: nat)
    requires d.Valid()
    ensures var size := d.trailer.objectRefSize;
            var stands := 8 <= pos && pos + size <= d.trailer.offsetTableOffset;
            var number := if stands then Value(d.bytes[pos..pos + size]) % 0x1_0000_0000_0000_0000 else 0;
            d.OffsetOfRefAt(pos) ==
            if stands && number < d.trailer.numObjects then d.OffsetOf(number) else 0xFFFF_FFFF_FFFF_FFFF
  {
    hide SizedInt, Value, Document.OffsetOf;
    var size := d.trailer.objectRefSize;
    if 8 <= pos && pos + size <= d.trailer.offsetTableOffset {
      SizedIntIsValue(d.bytes[pos..pos + size]);
    }
  }
}
