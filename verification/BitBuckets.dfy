/** One bucket of a bit vector: bits are numbered from the left, bit 0 is the most significant. */
module BitBuckets {
  const NIBBLE_BIT_COUNT: seq<nat> := [0, 1, 1, 2, 1, 2, 2, 3, 1, 2, 2, 3, 2, 3, 3, 4]

  predicate TestBit(bucket: bv8, i: nat)
    requires i < 8
  {
    match i
    case 0 => bucket & 0x80 != 0
    case 1 => bucket & 0x40 != 0
    case 2 => bucket & 0x20 != 0
    case 3 => bucket & 0x10 != 0
    case 4 => bucket & 0x08 != 0
    case 5 => bucket & 0x04 != 0
    case 6 => bucket & 0x02 != 0
    case 7 => bucket & 0x01 != 0
  }

  /** The bits from `bottomBit` to `topBit`. */
  function Mask(bottomBit: nat, topBit: nat): (m: bv8)
    requires bottomBit <= topBit < 8
    ensures forall i: nat :: i < 8 ==> (TestBit(m, i) <==> bottomBit <= i <= topBit)
  {
    var shiftL := 8 - topBit + bottomBit - 1;
    (0xFF << shiftL) >> bottomBit
  }

  /** The bits of `update` under the mask, and those of `bucket` elsewhere. */
  function Merge(bucket: bv8, update: bv8, mask: bv8): bv8 {
    (bucket & !mask) | (update & mask)
  }

  lemma MergeBit(bucket: bv8, update: bv8, mask: bv8, i: nat)
    requires i < 8
    ensures TestBit(Merge(bucket, update, mask), i) == if TestBit(mask, i) then TestBit(update, i) else TestBit(bucket, i)
  {
    match i
    case 0 => case 1 => case 2 => case 3 => case 4 => case 5 => case 6 => case 7 =>
  }

  function One(b: bool): nat {
    if b then 1 else 0
  }

  /** How many of the first `n` bits under the mask are `value`. */
  function CountUnder(bucket: bv8, mask: bv8, value: bool, n: nat): (count: nat)
    requires n <= 8
  {
    if n == 0 then 0
    else CountUnder(bucket, mask, value, n - 1) + One(TestBit(mask, n - 1) && TestBit(bucket, n - 1) == value)
  }

  /** The number of bits that are set, nibble by nibble. */
  method CountBits(bucketValue: bv8, bucketValueMask: bv8, value: bool) returns (count: nat)
    ensures count == CountUnder(bucketValue, bucketValueMask, value, 8)
  {
    var val := if value then bucketValue & bucketValueMask else !bucketValue & bucketValueMask;
    count := 0;
    ghost var all := val;
    for idx := 0 to 2
      invariant val == if idx == 0 then all else if idx == 1 then all >> 4 else 0
      invariant count == if idx == 0 then 0 else if idx == 1 then Nibble(all & 0xF) else Nibble(all & 0xF) + Nibble(all >> 4)
    {
      NibbleCount(val & 0xF);
      count := count + NIBBLE_BIT_COUNT[(val & 0xF) as int];
      val := val >> 4;
    }
    TwoNibbles(bucketValue, bucketValueMask, value, all);
  }

  /** The bits of a nibble, counted one by one. */
  ghost function Nibble(n: bv8): nat {
    One(n & 8 != 0) + One(n & 4 != 0) + One(n & 2 != 0) + One(n & 1 != 0)
  }

  lemma NibbleCount(n: bv8)
    requires n < 16
    ensures NIBBLE_BIT_COUNT[n as int] == Nibble(n)
  {
    match n
    case 0 => case 1 => case 2 => case 3 => case 4 => case 5 => case 6 => case 7 =>
    case 8 => case 9 => case 10 => case 11 => case 12 => case 13 => case 14 => case 15 =>
  }

  lemma AndBit(a: bv8, b: bv8, i: nat)
    requires i < 8
    ensures TestBit(a & b, i) <==> TestBit(a, i) && TestBit(b, i)
  {
    match i
    case 0 => case 1 => case 2 => case 3 => case 4 => case 5 => case 6 => case 7 =>
  }

  lemma NotBit(a: bv8, i: nat)
    requires i < 8
    ensures TestBit(!a, i) <==> !TestBit(a, i)
  {
    match i
    case 0 => case 1 => case 2 => case 3 => case 4 => case 5 => case 6 => case 7 =>
  }

  lemma NibbleBits(all: bv8)
    ensures Nibble(all >> 4) == One(TestBit(all, 0)) + One(TestBit(all, 1)) + One(TestBit(all, 2)) + One(TestBit(all, 3))
    ensures Nibble(all & 0xF) == One(TestBit(all, 4)) + One(TestBit(all, 5)) + One(TestBit(all, 6)) + One(TestBit(all, 7))
  {
  }

  lemma ChosenBit(bucket: bv8, mask: bv8, value: bool, all: bv8, i: nat)
    requires all == (if value then bucket & mask else !bucket & mask) && i < 8
    ensures TestBit(all, i) <==> TestBit(mask, i) && TestBit(bucket, i) == value
  {
    hide TestBit;
    AndBit(bucket, mask, i);
    NotBit(bucket, i);
    AndBit(!bucket, mask, i);
  }

  lemma TwoNibbles(bucket: bv8, mask: bv8, value: bool, all: bv8)
    requires all == if value then bucket & mask else !bucket & mask
    ensures CountUnder(bucket, mask, value, 8) == Nibble(all >> 4) + Nibble(all & 0xF)
  {
    hide TestBit, Nibble;
    for i := 0 to 8
      invariant CountUnder(bucket, mask, value, i) == CountSet(all, i)
    {
      ChosenBit(bucket, mask, value, all, i);
    }
    NibbleBits(all);
    FirstBits(all);
  }

  ghost function CountSet(all: bv8, n: nat): nat
    requires n <= 8
  {
    if n == 0 then 0 else CountSet(all, n - 1) + One(TestBit(all, n - 1))
  }

  lemma FirstBits(all: bv8)
    ensures CountSet(all, 8) == One(TestBit(all, 0)) + One(TestBit(all, 1)) + One(TestBit(all, 2)) + One(TestBit(all, 3))
                                + One(TestBit(all, 4)) + One(TestBit(all, 5)) + One(TestBit(all, 6)) + One(TestBit(all, 7))
  {
    hide TestBit, One;
    assert CountSet(all, 1) == One(TestBit(all, 0));
    assert CountSet(all, 2) == CountSet(all, 1) + One(TestBit(all, 1));
    assert CountSet(all, 3) == CountSet(all, 2) + One(TestBit(all, 2));
    assert CountSet(all, 4) == CountSet(all, 3) + One(TestBit(all, 3));
    assert CountSet(all, 5) == CountSet(all, 4) + One(TestBit(all, 4));
    assert CountSet(all, 6) == CountSet(all, 5) + One(TestBit(all, 5));
    assert CountSet(all, 7) == CountSet(all, 6) + One(TestBit(all, 6));
  }
}
