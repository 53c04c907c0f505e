/** Bytes, big-endian integers and the size function shared by the reader and the writer. */
module Bytes {
  type byte = x: int | 0 <= x < 256

  datatype Option<+T> = None | Some(value: T)

  const TWO64: nat := 0x1_0000_0000_0000_0000
  const TWO32: nat := 0x1_0000_0000
  const LONG_MAX: nat := 0x7fff_ffff_ffff_ffff

  /** 256^n. */
  function Pow256(n: nat): (p: nat)
    ensures p > 0
  {
    if n == 0 then 1 else 256 * Pow256(n - 1)
  }

  /** 2^n. */
  function Pow2(n: nat): (p: nat)
    ensures p > 0
  {
    if n == 0 then 1 else 2 * Pow2(n - 1)
  }

  /** The low `n` bytes of `v`, most significant byte first. */
  function BigEndian(v: nat, n: nat): (s: seq<byte>)
    ensures |s| == n
  {
    if n == 0 then [] else BigEndian(v / 256, n - 1) + [v % 256]
  }

  /** A big-endian integer of any length, of which only the low 64 bits are kept. */
  function SizedInt(s: seq<byte>): (v: nat)
    ensures v < TWO64
  {
    if s == [] then 0 else (SizedInt(s[..|s| - 1]) * 256 + s[|s| - 1]) % TWO64
  }

  lemma {:induction false} Pow256Values()
    ensures Pow256(1) == 0x100 && Pow256(2) == 0x1_0000 && Pow256(3) == 0x100_0000
    ensures Pow256(4) == 0x1_0000_0000 && Pow256(5) == 0x100_0000_0000
    ensures Pow256(6) == 0x1_0000_0000_0000 && Pow256(7) == 0x100_0000_0000_0000
    ensures Pow256(8) == TWO64
  {
    assert Pow256(2) == 256 * Pow256(1);
    assert Pow256(3) == 256 * Pow256(2);
    assert Pow256(4) == 256 * Pow256(3);
    assert Pow256(5) == 256 * Pow256(4);
    assert Pow256(6) == 256 * Pow256(5);
    assert Pow256(7) == 256 * Pow256(6);
  }

  lemma {:induction false} Pow256Monotone(m: nat, n: nat)
    requires m <= n
    ensures Pow256(m) <= Pow256(n)
  {
    if m < n {
      Pow256Monotone(m, n - 1);
    }
  }

  /** Reading back the low `n` bytes of a number that fits in them gives the number. */
  lemma {:induction false} SizedIntOfBigEndian(v: nat, n: nat)
    requires v < Pow256(n) && n <= 8
    ensures SizedInt(BigEndian(v, n)) == v
  {
    if n > 0 {
      var s := BigEndian(v, n);
      SizedIntOfBigEndian(v / 256, n - 1);
      assert s[..n - 1] == BigEndian(v / 256, n - 1);
      Pow256Values();
      Pow256Monotone(n, 8);
      assert v / 256 * 256 + v % 256 == v;
    }
  }

  /** The smallest size among 1, 2, 4 and 8 whose bytes can hold `count`. */
  ghost predicate IsByteCount(count: nat, size: nat)
  {
    && size in {1, 2, 4, 8}
    && count < Pow256(size)
    && (size > 1 ==> Pow256(size / 2) <= count)
  }

  function ByteCount(count: nat): (size: byte)
    requires count < TWO64
    ensures IsByteCount(count, size)
  {
    Pow256Values();
    if count < 0x100 then 1 else if count < 0x1_0000 then 2 else if count < 0x1_0000_0000 then 4 else 8
  }

  /** The two loops of the source: find the significant bytes, then round up to a power of two. */
  method ComputeByteCount(count: nat) returns (size: byte)
    requires count < TWO64
    ensures size == ByteCount(count)
  {
    Pow256Values();
    var n: nat := 0;
    while count / Pow256(n) != 0
      invariant n <= 8
      invariant n > 0 ==> Pow256(n - 1) <= count
      decreases 8 - n
    {
      n := n + 1;
    }
    while n != 1 && n != 2 && n != 4 && n != 8 && n <= 8
      invariant n <= 8
      invariant count < Pow256(n)
      invariant n > 1 ==> Pow256(if n <= 2 then 1 else if n <= 4 then 2 else 4) <= count
      decreases 8 - n
    {
      n := n + 1;
    }
    size := n;
  }

  /** The loop that reads a `size`-byte integer at `pos`. The size is a byte itself. */
  method GetSizedInt(data: seq<byte>, pos: nat, size: byte) returns (res: nat)
    requires pos + size <= |data|
    ensures res == SizedInt(data[pos..pos + size])
  {
    res := 0;
    for idx := 0 to size
      invariant res == SizedInt(data[pos..pos + idx])
    {
      assert data[pos..pos + idx + 1][..idx] == data[pos..pos + idx];
      res := (res * 256 + data[pos + idx]) % TWO64;
    }
  }
}
