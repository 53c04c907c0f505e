/** The bit vector: one loop over buckets that has to act on each bit. */
module BitVector {
  import opened BitBuckets

  /** The functions the loop is used with. */
  datatype Mapper = ZeroBits | OneBits | FlipBits | CountBits(value: bool)

  /** What a mapper does to a single bit. */
  function MapBit(mapper: Mapper, bit: bool): bool {
    match mapper
    case ZeroBits => false
    case OneBits => true
    case FlipBits => !bit
    case CountBits(_) => bit
  }

  function BitAt(buckets: seq<bv8>, k: nat): bool
    requires k < 8 * |buckets|
  {
    TestBit(buckets[k / 8], k % 8)
  }

  /** Bits are stored from the highest of a bucket down. */
  lemma BitIsDigit(buckets: seq<bv8>, k: nat)
    requires k < 8 * |buckets|
    ensures BitAt(buckets, k) <==> (buckets[k / 8] >> (7 - k % 8)) & 1 == 1
  {
    var b, i := buckets[k / 8], k % 8;
    assert TestBit(b, i) <==> (b >> (7 - i)) & 1 == 1 by {
      BitsOfBucket(b, i);
    }
  }

  lemma BitsOfBucket(b: bv8, i: nat)
    requires i < 8
    ensures TestBit(b, i) <==> (b >> (7 - i)) & 1 == 1
  {
    match i
    case 0 => case 1 => case 2 => case 3 => case 4 => case 5 => case 6 => case 7 =>
  }

  /** How many bits from `lo` up to `hi` are `value`. */
  function CountRange(buckets: seq<bv8>, value: bool, lo: nat, hi: nat): nat
    requires lo <= hi <= 8 * |buckets|
  {
    if lo == hi then 0 else CountRange(buckets, value, lo, hi - 1) + One(BitAt(buckets, hi - 1) == value)
  }

  /** `s` is `old` with the bits from `lo` up to `hi` mapped. */
  ghost predicate Mapped(s: seq<bv8>, old_: seq<bv8>, mapper: Mapper, lo: nat, hi: nat) {
    && |s| == |old_|
    && (forall k: nat :: k < 8 * |s| ==> BitAt(s, k) == if lo <= k < hi then MapBit(mapper, BitAt(old_, k)) else BitAt(old_, k))
  }

  lemma NothingMapped(s: seq<bv8>, mapper: Mapper, lo: nat)
    ensures Mapped(s, s, mapper, lo, lo)
  {
  }

  lemma NothingCounted(s: seq<bv8>, lo: nat)
    requires lo <= 8 * |s|
    ensures forall value :: CountRange(s, value, lo, lo) == 0
  {
  }

  /** Mapping goes on in bucket `b`, whose bits before `mid` are done. */
  lemma {:induction false} BucketMapped(s: seq<bv8>, old_: seq<bv8>, mapper: Mapper, lo: nat, mid: nat, hi: nat, b: nat, v: bv8)
    requires Mapped(s, old_, mapper, lo, mid) && b < |s|
    requires lo <= mid <= hi && 8 * b <= mid && hi <= 8 * b + 8
    requires forall i: nat :: i < 8 ==>
               TestBit(v, i) == if mid <= 8 * b + i < hi then MapBit(mapper, TestBit(s[b], i)) else TestBit(s[b], i)
    ensures Mapped(s[b := v], old_, mapper, lo, hi)
  {
    hide TestBit;
    var t := s[b := v];
    forall k: nat | k < 8 * |t|
      ensures BitAt(t, k) == if lo <= k < hi then MapBit(mapper, BitAt(old_, k)) else BitAt(old_, k)
    {
      assert k == 8 * (k / 8) + k % 8;
      assert BitAt(s, k) == if lo <= k < mid then MapBit(mapper, BitAt(old_, k)) else BitAt(old_, k);
      if k / 8 == b {
        assert TestBit(v, k % 8) == if mid <= k < hi then MapBit(mapper, TestBit(s[b], k % 8)) else TestBit(s[b], k % 8);
      }
    }
  }

  /** The bits of bucket `b` that are not yet mapped are those of before. */
  lemma {:induction false} StillThere(s: seq<bv8>, old_: seq<bv8>, mapper: Mapper, lo: nat, mid: nat, b: nat, i: nat)
    requires Mapped(s, old_, mapper, lo, mid) && b < |s| && i < 8 && mid <= 8 * b + i
    ensures TestBit(s[b], i) == BitAt(old_, 8 * b + i)
  {
    hide TestBit;
    var k := 8 * b + i;
    assert k / 8 == b && k % 8 == i;
    assert BitAt(s, k) == BitAt(old_, k);
  }

  /** Counting goes on with the bits under the mask. */
  lemma {:induction false} CountContinues(old_: seq<bv8>, value: bool, lo: nat, mid: nat, hi: nat, b: nat, bucket: bv8, mask: bv8)
    requires b < |old_| && lo <= mid <= hi && 8 * b <= mid && hi <= 8 * b + 8
    requires forall i: nat :: i < 8 ==> (TestBit(mask, i) <==> mid <= 8 * b + i < hi)
    requires forall i: nat :: i < 8 && mid <= 8 * b + i ==> TestBit(bucket, i) == BitAt(old_, 8 * b + i)
    ensures CountRange(old_, value, lo, hi) == CountRange(old_, value, lo, mid) + CountUnder(bucket, mask, value, 8)
  {
    hide TestBit, BitAt;
    for n := 0 to 8
      invariant var end := if 8 * b + n <= mid then mid else if hi <= 8 * b + n then hi else 8 * b + n;
                CountRange(old_, value, lo, end) == CountRange(old_, value, lo, mid) + CountUnder(bucket, mask, value, n)
    {
      assert TestBit(mask, n) <==> mid <= 8 * b + n < hi;
    }
  }

  lemma XorBit(a: bv8, i: nat)
    requires i < 8
    ensures TestBit(0xFF ^ a, i) <==> !TestBit(a, i)
    ensures TestBit(0xFF, i) && !TestBit(0, i)
  {
    match i
    case 0 => case 1 => case 2 => case 3 => case 4 => case 5 => case 6 => case 7 =>
  }

  /** Calling a mapper: the new bucket, of which only the bits under the mask matter, and the count. */
  method Call(mapper: Mapper, bucketValue: bv8, mask: bv8, count: nat) returns (newValue: bv8, newCount: nat)
    ensures forall i: nat :: i < 8 ==> TestBit(newValue, i) == MapBit(mapper, TestBit(bucketValue, i))
    ensures newCount == count + if mapper.CountBits? then CountUnder(bucketValue, mask, mapper.value, 8) else 0
  {
    hide TestBit;
    newCount := count;
    match mapper {
      case ZeroBits => newValue := 0;
      case OneBits => newValue := 0xFF;
      case FlipBits => newValue := 0xFF ^ bucketValue;
      case CountBits(value) =>
        newValue := bucketValue;
        var n := BitBuckets.CountBits(bucketValue, mask, value);
        newCount := count + n;
    }
    forall i: nat | i < 8
      ensures TestBit(newValue, i) == MapBit(mapper, TestBit(bucketValue, i))
    {
      XorBit(bucketValue, i);
    }
  }

  /** One bucket of the loop: the bits from `lo` up to `hi`, which it contains. For a whole bucket the merge is the
      new value itself. */
  method MapBucket(buckets: array<bv8>, b: nat, mask: bv8, mapper: Mapper, count: nat,
                   ghost old_: seq<bv8>, ghost from: nat, ghost lo: nat, ghost hi: nat)
    returns (newCount: nat)
    requires b < buckets.Length == |old_| && from <= lo <= hi && 8 * b <= lo && hi <= 8 * b + 8
    requires Mapped(buckets[..], old_, mapper, from, lo)
    requires forall i: nat :: i < 8 ==> (TestBit(mask, i) <==> lo <= 8 * b + i < hi)
    requires mapper.CountBits? ==> count == CountRange(old_, mapper.value, from, lo)
    modifies buckets
    ensures Mapped(buckets[..], old_, mapper, from, hi)
    ensures mapper.CountBits? ==> newCount == CountRange(old_, mapper.value, from, hi)
  {
    hide TestBit, Mapped, CountRange, BitAt;
    ghost var s := buckets[..];
    var newValue;
    newValue, newCount := Call(mapper, buckets[b], mask, count);
    if mapper.CountBits? {
      forall i: nat | i < 8 && lo <= 8 * b + i
        ensures TestBit(s[b], i) == BitAt(old_, 8 * b + i)
      {
        StillThere(s, old_, mapper, from, lo, b, i);
      }
      CountContinues(old_, mapper.value, from, lo, hi, b, s[b], mask);
    }
    var v := Merge(buckets[b], newValue, mask);
    forall i: nat | i < 8
      ensures TestBit(v, i) == if lo <= 8 * b + i < hi then MapBit(mapper, TestBit(s[b], i)) else TestBit(s[b], i)
    {
      MergeBit(buckets[b], newValue, mask, i);
    }
    BucketMapped(s, old_, mapper, from, lo, hi, b, v);
    buckets[b] := v;
    assert buckets[..] == s[b := v];
  }

  /** Ramping up to a bucket boundary, whole buckets, and ramping down. */
  method InternalMap(buckets: array<bv8>, location: nat, length: nat, mapper: Mapper) returns (count: nat)
    requires location + length <= 8 * buckets.Length
    modifies buckets
    ensures Mapped(buckets[..], old(buckets[..]), mapper, location, location + length)
    ensures mapper.CountBits? ==> count == CountRange(old(buckets[..]), mapper.value, location, location + length)
  {
    hide TestBit, Mapped, MapBit, CountRange, BitAt, Mask;
    NothingCounted(buckets[..], location);
    count := 0;
    ghost var was := buckets[..];
    NothingMapped(was, mapper, location);
    if length == 0 {
      return;
    }
    var bucketIdx, bitOfBucket := location / 8, location % 8;
    var rest: nat;
    var mask: bv8;
    if bitOfBucket + length < 8 {
      mask := Mask(bitOfBucket, bitOfBucket + length - 1);
      rest := 0;
    } else {
      mask := Mask(bitOfBucket, 7);
      rest := length - (8 - bitOfBucket);
    }
    ghost var at := location + length - rest;
    count := MapBucket(buckets, bucketIdx, mask, mapper, 0, was, location, location, at);
    bucketIdx := bucketIdx + 1;
    var nBuckets := rest / 8;
    rest := rest % 8;
    while 0 < nBuckets
      invariant at <= location + length && (at < location + length ==> at == 8 * bucketIdx)
      invariant location + length == at + 8 * nBuckets + rest && location <= at
      invariant Mapped(buckets[..], was, mapper, location, at)
      invariant mapper.CountBits? ==> count == CountRange(was, mapper.value, location, at)
    {
      nBuckets := nBuckets - 1;
      AllBits();
      count := MapBucket(buckets, bucketIdx, 0xFF, mapper, count, was, location, at, at + 8);
      at := at + 8;
      bucketIdx := bucketIdx + 1;
    }
    if 0 != rest {
      mask := Mask(0, rest - 1);
      count := MapBucket(buckets, bucketIdx, mask, mapper, count, was, location, at, at + rest);
    }
  }

  lemma AllBits()
    ensures forall i: nat :: i < 8 ==> TestBit(0xFF, i)
  {
    forall i: nat | i < 8
      ensures TestBit(0xFF, i)
    {
      XorBit(0, i);
    }
  }

  function RoundUpCapacity(capacity: nat): (c: nat)
    ensures capacity <= c && 64 <= c && c % 64 == 0
  {
    ((if capacity == 0 then 1 else capacity) + 63) / 64 * 64
  }

  /** The first bits of the buckets. */
  function BitsOf(buckets: seq<bv8>, count: nat): (s: seq<bool>)
    requires count <= 8 * |buckets|
    ensures |s| == count
  {
    seq(count, k requires 0 <= k < count => BitAt(buckets, k))
  }

  lemma BitsOneMore(s: seq<bool>, lo: nat, hi: nat, value: bool)
    requires lo < hi <= |s|
    ensures multiset(s[lo..hi])[value] == multiset(s[lo..hi - 1])[value] + if s[hi - 1] == value then 1 else 0
  {
    assert s[lo..hi] == s[lo..hi - 1] + [s[hi - 1]];
  }

  lemma {:induction false} CountRangeIsMultiplicity(buckets: seq<bv8>, count: nat, value: bool, lo: nat, hi: nat)
    requires lo <= hi <= count <= 8 * |buckets|
    ensures CountRange(buckets, value, lo, hi) == multiset(BitsOf(buckets, count)[lo..hi])[value]
  {
    hide BitAt;
    if lo < hi {
      CountRangeIsMultiplicity(buckets, count, value, lo, hi - 1);
      BitsOneMore(BitsOf(buckets, count), lo, hi, value);
    }
  }

  /** A sequence with the elements from `lo` up to `hi` mapped. */
  function MapSlice(bits: seq<bool>, lo: nat, hi: nat, mapper: Mapper): (s: seq<bool>)
    requires lo <= hi <= |bits|
    ensures |s| == |bits|
  {
    seq(|bits|, k requires 0 <= k < |bits| => if lo <= k < hi then MapBit(mapper, bits[k]) else bits[k])
  }

  lemma MappedBits(s: seq<bv8>, was: seq<bv8>, count: nat, lo: nat, hi: nat, mapper: Mapper)
    requires lo <= hi <= count <= 8 * |s| && Mapped(s, was, mapper, lo, hi)
    ensures BitsOf(s, count) == MapSlice(BitsOf(was, count), lo, hi, mapper)
  {
    hide BitAt, MapBit;
  }

  class MutableBitVector {
    var count: nat
    var capacity: nat
    var buckets: array<bv8>

    ghost predicate Valid()
      reads this
    {
      count <= capacity && buckets.Length == capacity / 8 + 1
    }

    /** The bits of the vector. */
    ghost function Bits(): (s: seq<bool>)
      requires Valid()
      reads this, buckets
      ensures |s| == count
    {
      BitsOf(buckets[..], count)
    }

    constructor (numBits: nat)
      ensures Valid() && fresh(buckets) && count == numBits
      ensures forall k :: 0 <= k < count ==> !Bits()[k]
    {
      hide TestBit, RoundUpCapacity;
      count := numBits;
      capacity := RoundUpCapacity(numBits);
      buckets := new bv8[RoundUpCapacity(numBits) / 8 + 1](_ => 0);
      new;
      forall k: nat | k < count
        ensures !BitAt(buckets[..], k)
      {
        XorBit(0, k % 8);
      }
    }

    /** A range of bits is mapped, and counted. */
    method MapRange(location: nat, length: nat, mapper: Mapper) returns (n: nat)
      requires Valid() && location + length <= count
      modifies buckets
      ensures Valid() && Bits() == MapSlice(old(Bits()), location, location + length, mapper)
      ensures mapper.CountBits? ==> n == multiset(old(Bits())[location..location + length])[mapper.value]
    {
      hide TestBit, MapBit, CountRange, BitAt;
      ghost var was := buckets[..];
      n := InternalMap(buckets, location, length, mapper);
      if mapper.CountBits? {
        CountRangeIsMultiplicity(was, count, mapper.value, location, location + length);
      }
      MappedBits(buckets[..], was, count, location, location + length, mapper);
    }

    /** The number of bits of one value in a range; the vector stays as it is. */
    method GetCountOfBit(location: nat, length: nat, value: bool) returns (n: nat)
      requires Valid() && location + length <= count
      modifies buckets
      ensures Valid() && Bits() == old(Bits())
      ensures n == multiset(Bits()[location..location + length])[value]
    {
      hide BitAt, TestBit;
      n := MapRange(location, length, CountBits(value));
      assert Bits() == old(Bits());
    }

    method SetBits(location: nat, length: nat, value: bool)
      requires Valid() && location + length <= count
      modifies buckets
      ensures Valid() && |Bits()| == |old(Bits())|
      ensures forall k :: 0 <= k < count ==> Bits()[k] == if location <= k < location + length then value else old(Bits()[k])
    {
      hide BitsOf;
      var _ := MapRange(location, length, if value then OneBits else ZeroBits);
    }

    method FlipBits(location: nat, length: nat)
      requires Valid() && location + length <= count
      modifies buckets
      ensures Valid() && |Bits()| == |old(Bits())|
      ensures forall k :: 0 <= k < count ==> Bits()[k] == (old(Bits()[k]) != (location <= k < location + length))
    {
      hide BitsOf;
      var _ := MapRange(location, length, Mapper.FlipBits);
    }

    /** New buckets for a new capacity; those that both have are copied, the others hold anything. */
    method Grow(numNewValues: nat)
      requires Valid()
      modifies this`capacity, this`buckets
      ensures Valid() && fresh(buckets) && Bits() == old(Bits()) && capacity == RoundUpCapacity(count + numNewValues)
    {
      hide TestBit, RoundUpCapacity;
      ghost var was := Bits();
      capacity := RoundUpCapacity(count + numNewValues);
      var newBuckets := new bv8[capacity / 8 + 1];
      var common := if buckets.Length < newBuckets.Length then buckets.Length else newBuckets.Length;
      forall i | 0 <= i < common {
        newBuckets[i] := buckets[i];
      }
      forall k: nat | k < count
        ensures BitAt(newBuckets[..], k) == was[k]
      {
      }
      buckets := newBuckets;
    }

    /** Changing the number of bits: what a growth exposes is zero, whatever a shrink left there. */
    method SetCount(newCount: nat)
      requires Valid()
      modifies this, buckets
      ensures Valid() && count == newCount && (buckets == old(buckets) || fresh(buckets))
      ensures Bits() == if newCount <= old(count) then old(Bits())[..newCount]
                        else old(Bits()) + seq(newCount - old(count), _ => false)
    {
      hide TestBit, RoundUpCapacity;
      var cnt := count;
      ghost var was := Bits();
      if cnt < newCount {
        Grow(newCount - cnt);
        ghost var grown := buckets[..];
        assert BitsOf(grown, cnt) == was;
        var _ := InternalMap(buckets, cnt, newCount - cnt, ZeroBits);
        forall k: nat | k < newCount
          ensures BitAt(buckets[..], k) == if k < cnt then was[k] else false
        {
          assert k < cnt ==> BitsOf(grown, cnt)[k] == BitAt(grown, k);
        }
      }
      count := newCount;
    }

    /** All bits: the last, fragmentary bucket through the mapper, the whole buckets at once. */
    method SetAllBits(value: bool)
      requires Valid()
      modifies buckets
      ensures Valid() && Bits() == seq(count, _ => value)
    {
      hide TestBit;
      var nBuckets := count / 8;
      var leftover := count - nBuckets * 8;
      if 0 < leftover {
        SetBits(nBuckets * 8, leftover, value);
      }
      ghost var s := buckets[..];
      forall i | 0 <= i < nBuckets {
        buckets[i] := if value then 0xFF else 0;
      }
      forall k: nat | k < count
        ensures BitAt(buckets[..], k) == value
      {
        XorBit(0, k % 8);
        if nBuckets * 8 <= k {
          assert BitsOf(s, count)[k] == BitAt(s, k) == BitAt(buckets[..], k);
        }
      }
    }
  }
}
