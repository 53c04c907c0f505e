/** Reading what was written, object by object. */
module ReadBack {
  import opened Bytes
  import opened PropertyList
  import opened FileFormat
  import opened Objects
  import opened ObjectHeap
  import opened Encoding

  /** The bytes `e` stand at `off`, inside the object table. */
  ghost predicate Holds(d: Document, off: nat, e: seq<byte>) {
    && d.Valid()
    && 8 <= off
    && off + |e| <= d.trailer.offsetTableOffset
    && d.bytes[off..off + |e|] == e
  }

  lemma {:induction false} HoldsParts(d: Document, off: nat, a: seq<byte>, b: seq<byte>)
    requires Holds(d, off, a + b)
    ensures Holds(d, off, a) && Holds(d, off + |a|, b)
  {
    var s := d.bytes[off..off + |a + b|];
    assert s[..|a|] == a && s[|a|..] == b;
    assert d.bytes[off..off + |a|] == s[..|a|];
    assert d.bytes[off + |a|..off + |a| + |b|] == s[|a|..];
  }

  lemma {:induction false} HoldsFirst(d: Document, off: nat, marker: byte, rest: seq<byte>)
    requires Holds(d, off, [marker] + rest)
    ensures off < |d.bytes| && off < d.trailer.offsetTableOffset && d.bytes[off] == marker && Holds(d, off + 1, rest)
  {
    HoldsParts(d, off, [marker], rest);
    assert d.bytes[off] == d.bytes[off..off + 1][0];
  }

  /** A number stored big-endian is read back. */
  lemma {:induction false} HoldsInteger(d: Document, off: nat, v: nat, n: nat)
    requires Holds(d, off, BigEndian(v, n)) && n <= 8 && v < Pow256(n)
    ensures FitsAt(d, off, n) && SizedInt(d.bytes[off..off + n]) == v
  {
    hide SizedInt, BigEndian, Document.Valid, Pow256;
    SizedIntOfBigEndian(v, n);
  }

  lemma {:induction false} IntIsReadBack(d: Document, off: nat, v: nat)
    requires v < TWO64 && Holds(d, off, IntBytes(v))
    ensures ReadInt(d, off) == Some(Read(v, off + |IntBytes(v)|))
    ensures d.bytes[off] / 16 == 1 && Pow2(d.bytes[off] % 16) == ByteCount(v)
    ensures Holds(d, off + 1, BigEndian(v, ByteCount(v)))
  {
    hide SizedInt, BigEndian, Document.Valid, ByteCount;
    var n := ByteCount(v);
    var k := Log2(n);
    HoldsFirst(d, off, 0x10 + k, BigEndian(v, n));
    assert (0x10 + k) % 16 == k && (0x10 + k) / 16 == 1;
    HoldsInteger(d, off + 1, v, n);
  }

  lemma Halves(marker: nat, low: nat)
    requires marker % 16 == 0 && low < 16
    ensures (marker + low) % 16 == low && (marker + low) / 16 == marker / 16
  {
  }

  lemma {:induction false} LengthIsReadBack(d: Document, off: nat, marker: byte, count: nat)
    requires marker in {0x40, 0x50, 0x60, 0xA0, 0xD0} && count <= LONG_MAX
    requires Holds(d, off, Lead(marker, count))
    ensures d.bytes[off] / 16 == marker / 16
    ensures d.bytes[off] % 16 == if count < 15 then count else 15
    ensures LengthAt(d, off) == Some(Read(count, off + |Lead(marker, count)|))
  {
    hide IntBytes, LengthAt, Document.Valid;
    if count < 15 {
      assert Lead(marker, count) == [marker + count] + [];
      LengthAfterMarker(d, off, marker, count, []);
    } else {
      LengthAfterMarker(d, off, marker, 15, IntBytes(count));
      LongLength(d, off, count);
    }
  }

  lemma {:induction false} LengthAfterMarker(d: Document, off: nat, marker: byte, low: nat, rest: seq<byte>)
    requires marker in {0x40, 0x50, 0x60, 0xA0, 0xD0} && low < 16
    requires Holds(d, off, [marker + low] + rest)
    ensures off < |d.bytes| && d.bytes[off] / 16 == marker / 16 && d.bytes[off] % 16 == low
    ensures low < 15 ==> LengthAt(d, off) == Some(Read(low, off + 1))
    ensures Holds(d, off + 1, rest)
  {
    hide ReadInt, Document.Valid;
    Halves(marker, low);
    HoldsFirst(d, off, marker + low, rest);
  }

  lemma {:induction false} LongLength(d: Document, off: nat, count: nat)
    requires off < |d.bytes| && d.bytes[off] % 16 == 15 && count <= LONG_MAX
    requires Holds(d, off + 1, IntBytes(count))
    ensures LengthAt(d, off) == Some(Read(count, off + 1 + |IntBytes(count)|))
  {
    hide ReadInt, IntBytes, Document.Valid;
    IntIsReadBack(d, off + 1, count);
  }

  /** What reading gives back: 128-bit integers lose their high half. */
  function Lossy(v: PList): PList {
    if v.Int128? then Int128(0, v.low) else v
  }

  lemma {:induction false} IntegerObject(d: Document, off: nat, bits: nat)
    requires bits < TWO64 && Holds(d, off, IntBytes(bits))
    ensures HeaderAt(d, off) == Scalar(Int(bits))
  {
    hide SizedInt, BigEndian, Document.Valid, BlockHeader, ContainerHeader, IntBytes;
    IntIsReadBack(d, off, bits);
    Pow256Values();
    HoldsInteger(d, off + 1, bits, ByteCount(bits));
    assert HeaderAt(d, off) == FixedHeader(d, off);
  }

  /** Reals and dates. */
  lemma {:induction false} FixedObject(d: Document, off: nat, marker: byte, bits: nat, n: nat)
    requires (marker, n) in {(0x22, 4), (0x23, 8), (0x33, 8)} && bits < Pow256(n)
    requires Holds(d, off, [marker] + BigEndian(bits, n))
    ensures HeaderAt(d, off) == Scalar(if marker == 0x22 then Real32(bits) else if marker == 0x23 then Real64(bits) else Date(bits))
  {
    hide SizedInt, BigEndian, Document.Valid, BlockHeader, ContainerHeader, Pow256;
    HoldsFirst(d, off, marker, BigEndian(bits, n));
    HoldsInteger(d, off + 1, bits, n);
    assert HeaderAt(d, off) == FixedHeader(d, off);
  }

  lemma {:induction false} BoolObject(d: Document, off: nat, b: bool)
    requires Holds(d, off, [if b then 0x09 else 0x08])
    ensures HeaderAt(d, off) == Scalar(Bool(b))
  {
    hide SizedInt, Document.Valid, BlockHeader, ContainerHeader;
    assert [if b then 0x09 else 0x08] == [if b then 0x09 else 0x08] + [];
    HoldsFirst(d, off, if b then 0x09 else 0x08, []);
    assert HeaderAt(d, off) == FixedHeader(d, off);
  }

  lemma {:induction false} UidObject(d: Document, off: nat, number: nat)
    requires number < 0x1_0000_0000 && Holds(d, off, UidBytes(number))
    ensures HeaderAt(d, off) == Scalar(UID(number))
  {
    hide SizedInt, BigEndian, Document.Valid, BlockHeader, ContainerHeader;
    HoldsFirst(d, off, 0x80 + (ByteCount(number) - 1), BigEndian(number, ByteCount(number)));
    Pow256Values();
    HoldsInteger(d, off + 1, number, ByteCount(number));
    assert HeaderAt(d, off) == FixedHeader(d, off);
  }

  /** Appending bytes shifts what stands before them, modulo 2^64. */
  lemma {:induction false} LowBytes(a: seq<byte>, b: seq<byte>) returns (q: int)
    ensures SizedInt(a + b) == SizedInt(a) * Pow256(|b|) + SizedInt(b) - q * TWO64
  {
    hide SizedInt, Pow256;
    if b == [] {
      assert a + b == a;
      NoBytes(SizedInt(a));
      q := 0;
    } else {
      var n := |b| - 1;
      var q' := LowBytes(a, b[..n]);
      assert (a + b)[..|a + b| - 1] == a + b[..n] && (a + b)[|a + b| - 1] == b[n];
      var l := LastByte(a + b);
      var m := LastByte(b);
      OneByteMore(SizedInt(a), n);
      Carry(SizedInt(a) * Pow256(n), SizedInt(b[..n]), b[n], q', l, m);
      q := 256 * q' + l - m;
    }
  }

  lemma LastByte(s: seq<byte>) returns (q: int)
    requires s != []
    ensures SizedInt(s) == SizedInt(s[..|s| - 1]) * 256 + s[|s| - 1] - q * TWO64
  {
    q := (SizedInt(s[..|s| - 1]) * 256 + s[|s| - 1]) / TWO64;
  }

  lemma NoBytes(x: nat)
    ensures SizedInt([]) == 0 && x * Pow256(0) == x
  {
  }

  lemma OneByteMore(x: nat, n: nat)
    ensures x * Pow256(n + 1) == 256 * (x * Pow256(n))
  {
    var p := Pow256(n);
    assert x * (256 * p) == 256 * (x * p);
  }

  lemma Carry(u: int, v: int, low: int, q: int, m: int, n: int)
    ensures (u + v - q * TWO64) * 256 + low - m * TWO64 == 256 * u + (v * 256 + low - n * TWO64) - (256 * q + m - n) * TWO64
  {
  }

  /** Of 16 bytes only the last 8 count. */
  lemma {:induction false} WideInteger(high: nat, low: nat)
    requires low < TWO64
    ensures SizedInt(BigEndian(high, 8) + BigEndian(low, 8)) == low
  {
    hide SizedInt, BigEndian;
    var h, l := BigEndian(high, 8), BigEndian(low, 8);
    var q := LowBytes(h, l);
    Pow256Values();
    SizedIntOfBigEndian(low, 8);
    assert SizedInt(h + l) == (SizedInt(h) - q) * TWO64 + low;
  }

  lemma {:induction false} WideObject(d: Document, off: nat, high: nat, low: nat)
    requires high < TWO64 && low < TWO64
    requires Holds(d, off, [0x14] + (BigEndian(high, 8) + BigEndian(low, 8)))
    ensures HeaderAt(d, off) == Scalar(Int128(0, low))
  {
    hide SizedInt, BigEndian, Document.Valid, BlockHeader, ContainerHeader;
    HoldsFirst(d, off, 0x14, BigEndian(high, 8) + BigEndian(low, 8));
    WideInteger(high, low);
    assert Pow2(4) == 16;
    assert HeaderAt(d, off) == FixedHeader(d, off);
  }

  lemma {:induction false} DataObject(d: Document, off: nat, bytes: seq<byte>)
    requires |bytes| <= LONG_MAX && Holds(d, off, Lead(0x40, |bytes|) + bytes)
    ensures HeaderAt(d, off) == Scalar(Data(bytes))
  {
    hide LengthAt, Lead, Document.Valid, FixedHeader, ContainerHeader;
    HoldsParts(d, off, Lead(0x40, |bytes|), bytes);
    LengthIsReadBack(d, off, 0x40, |bytes|);
    assert HeaderAt(d, off) == BlockHeader(d, off);
  }

  lemma {:induction false} AsciiObject(d: Document, off: nat, chars: seq<unichar>)
    requires |chars| <= LONG_MAX && IsAscii(chars) && Holds(d, off, Lead(0x50, |chars|) + AsciiBytes(chars))
    ensures HeaderAt(d, off) == Scalar(String(chars))
  {
    hide LengthAt, Lead, Document.Valid, FixedHeader, ContainerHeader;
    HoldsParts(d, off, Lead(0x50, |chars|), AsciiBytes(chars));
    LengthIsReadBack(d, off, 0x50, |chars|);
    assert Chars(AsciiBytes(chars)) == chars;
    assert HeaderAt(d, off) == BlockHeader(d, off);
  }

  lemma {:induction false} UnitsObject(d: Document, off: nat, n: nat, units: seq<byte>)
    requires n <= LONG_MAX && |units| == 2 * n && Holds(d, off, Lead(0x60, n) + units)
    ensures HeaderAt(d, off) == Scalar(String(Units(units)))
  {
    hide LengthAt, Lead, Document.Valid, FixedHeader, ContainerHeader;
    HoldsParts(d, off, Lead(0x60, n), units);
    LengthIsReadBack(d, off, 0x60, n);
    assert HeaderAt(d, off) == BlockHeader(d, off);
  }

  lemma {:induction false} UnitsOfUnicodeBytes(chars: seq<unichar>)
    ensures Units(UnicodeBytes(chars)) == chars
  {
    hide UnicodeBytes, Units;
    var s := UnicodeBytes(chars);
    forall i | 0 <= i < |chars|
      ensures Units(s)[i] == chars[i]
    {
      BytesOfUnit(chars, i);
      UnitOfBytes(s, i);
    }
  }

  lemma BytesOfUnit(chars: seq<unichar>, i: nat)
    requires i < |chars|
    ensures UnicodeBytes(chars)[2 * i] == chars[i] / 256 && UnicodeBytes(chars)[2 * i + 1] == chars[i] % 256
  {
  }

  lemma UnitOfBytes(s: seq<byte>, i: nat)
    requires |s| % 2 == 0 && i < |s| / 2
    ensures Units(s)[i] == s[2 * i] as int * 256 + s[2 * i + 1]
  {
  }

  /** A value without contained objects is read back from its bytes. */
  lemma {:induction false} SimpleIsReadBack(d: Document, off: nat, v: PList)
    requires Simple(v).IsSound() && !v.Null?
    requires Holds(d, off, SimpleBytes(v))
    ensures HeaderAt(d, off) == Scalar(Lossy(v))
  {
    hide HeaderAt, Document.Valid, IntBytes, Lead, UidBytes, BigEndian;
    Pow256Values();
    match v
    case Bool(b) => BoolObject(d, off, b);
    case Int(bits) => IntegerObject(d, off, bits);
    case Int128(high, low) => WideObject(d, off, high, low);
    case Real32(bits) => FixedObject(d, off, 0x22, bits, 4);
    case Real64(bits) => FixedObject(d, off, 0x23, bits, 8);
    case Date(bits) => FixedObject(d, off, 0x33, bits, 8);
    case Data(bytes) => DataObject(d, off, bytes);
    case String(chars) =>
      if IsAscii(chars) {
        AsciiObject(d, off, chars);
      } else {
        UnitsObject(d, off, |chars|, UnicodeBytes(chars));
        UnitsOfUnicodeBytes(chars);
      }
    case UID(number) => UidObject(d, off, number);
  }
}
