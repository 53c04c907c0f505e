/** The mutable array: one deque of buckets, and one operation that splices. */
module DequeArray {
  import opened Bytes

  /** A pointer; 0 is NULL. */
  type Item = nat

  const TWO30: nat := 0x4000_0000

  /** The number of the highest bit that is set, counted from 1. */
  function Flsl(n: nat): (k: nat)
    ensures n < Pow2(k)
    ensures n > 0 ==> k > 0 && Pow2(k - 1) <= n
  {
    if n == 0 then 0 else 1 + Flsl(n / 2)
  }

  /** The next power of two above the requested capacity, at least 4. */
  function RoundUpCapacity(capacity: nat): (c: nat)
    ensures 4 <= c && capacity <= c <= 2 * capacity + 4
    ensures capacity < 4 ==> c == 4
    ensures 4 <= capacity ==> capacity < c <= 2 * capacity && exists k: nat :: c == Pow2(k)
  {
    if capacity < 4 then 4 else Pow2(Flsl(capacity))
  }

  /** What replacing a range of values means. */
  function Splice<T>(s: seq<T>, loc: nat, len: nat, values: seq<T>): (r: seq<T>)
    requires loc + len <= |s|
    ensures |r| == |s| - len + |values|
  {
    s[..loc] + values + s[loc + len..]
  }

  lemma SpliceIs<T>(s: seq<T>, loc: nat, len: nat, values: seq<T>)
    requires loc + len <= |s|
    ensures Splice(s, loc, len, values) == s[..loc] + values + s[loc + len..]
  {
  }

  /** Replacing back what was replaced restores the values. */
  lemma {:induction false} SpliceBack<T>(s: seq<T>, loc: nat, len: nat, values: seq<T>)
    requires loc + len <= |s|
    ensures Splice(Splice(s, loc, len, values), loc, |values|, s[loc..loc + len]) == s
  {
    var r := Splice(s, loc, len, values);
    assert r[..loc] == s[..loc] && r[loc + |values|..] == s[loc + len..];
  }

  /** The values that go in and the values that come out balance. */
  lemma {:induction false} SpliceBalances<T>(s: seq<T>, loc: nat, len: nat, values: seq<T>)
    requires loc + len <= |s|
    ensures multiset(Splice(s, loc, len, values)) + multiset(s[loc..loc + len]) == multiset(s) + multiset(values)
  {
    var a, b, c := s[..loc], s[loc..loc + len], s[loc + len..];
    assert s == a + b + c;
  }

  /** The storage of an array: a left index and as many buckets as its capacity. */
  class Deque {
    var leftIdx: nat
    const buckets: array<Item>

    constructor (leftIdx: nat, capacity: nat)
      ensures this.leftIdx == leftIdx && fresh(buckets) && buckets.Length == capacity
    {
      this.leftIdx := leftIdx;
      buckets := new Item[capacity];
    }
  }

  /** A sequence with some of its elements overwritten. */
  function Overwrite<T>(s: seq<T>, at: nat, values: seq<T>): (r: seq<T>)
    requires at + |values| <= |s|
    ensures |r| == |s|
  {
    s[..at] + values + s[at + |values|..]
  }

  lemma OverwriteIs<T>(s: seq<T>, at: nat, values: seq<T>, r: seq<T>)
    requires at + |values| <= |s| == |r|
    requires forall k :: 0 <= k < |s| ==> r[k] == if at <= k < at + |values| then values[k - at] else s[k]
    ensures r == Overwrite(s, at, values)
  {
  }

  /** The elements `x` stand at position `at`. */
  ghost predicate Stands<T>(s: seq<T>, at: nat, x: seq<T>) {
    at + |x| <= |s| && s[at..at + |x|] == x
  }

  /** What overwriting keeps: everything that does not overlap. */
  lemma {:induction false} OverwriteKeeps<T>(s: seq<T>, at: nat, values: seq<T>, pos: nat, x: seq<T>)
    requires at + |values| <= |s| && Stands(s, pos, x)
    requires pos + |x| <= at || at + |values| <= pos
    ensures Stands(Overwrite(s, at, values), pos, x)
  {
    var r := Overwrite(s, at, values);
    assert r[pos..pos + |x|] == s[pos..pos + |x|];
  }

  lemma {:induction false} OverwritePuts<T>(s: seq<T>, at: nat, values: seq<T>)
    requires at + |values| <= |s|
    ensures Stands(Overwrite(s, at, values), at, values)
  {
  }

  /** A memmove inside one block of buckets: the source is read before anything is overwritten. */
  method Move(buckets: array<Item>, to: nat, from: nat, count: nat)
    requires to + count <= buckets.Length && from + count <= buckets.Length
    modifies buckets
    ensures buckets[..] == Overwrite(old(buckets[..]), to, old(buckets[..])[from..from + count])
  {
    hide Overwrite;
    ghost var s := buckets[..];
    forall i | 0 <= i < count {
      buckets[to + i] := buckets[from + i];
    }
    OverwriteIs(s, to, s[from..from + count], buckets[..]);
  }

  /** The elements from `from` up to `end` are NULL. */
  ghost predicate Cleared(s: seq<Item>, from: nat, end: nat) {
    forall k :: from <= k < end && k < |s| ==> s[k] == 0
  }

  lemma ClearedNothing(s: seq<Item>, at: nat)
    ensures Cleared(s, at, at)
  {
  }

  lemma ClearedOneMore(s: seq<Item>, from: nat, end: nat)
    requires Cleared(s, from, end) && end < |s|
    ensures Cleared(s[end := 0], from, end + 1)
  {
  }

  /** A memset to NULL. */
  method Clear(buckets: array<Item>, from: nat, count: nat)
    requires from + count <= buckets.Length
    modifies buckets
    ensures buckets[..] == Overwrite(old(buckets[..]), from, seq(count, _ => 0))
    ensures Cleared(buckets[..], from, from + count)
  {
    forall i | from <= i < from + count {
      buckets[i] := 0;
    }
  }

  /** A memmove from elsewhere. */
  method CopyIn(buckets: array<Item>, to: nat, values: seq<Item>)
    requires to + |values| <= buckets.Length
    modifies buckets
    ensures buckets[..] == Overwrite(old(buckets[..]), to, values)
  {
    forall i | 0 <= i < |values| {
      buckets[to + i] := values[i];
    }
  }

  /** Moving `x` inside the buckets, and what else then still stands where it stood. */
  method MoveRegion(buckets: array<Item>, to: nat, from: nat, ghost x: seq<Item>, count: nat, ghost pos: nat,
                    ghost other: seq<Item>)
    requires count == |x| && to + count <= buckets.Length
    requires Stands(buckets[..], from, x) && Stands(buckets[..], pos, other)
    requires 0 < count && from != to ==> pos + |other| <= to || to + count <= pos
    modifies buckets
    ensures Stands(buckets[..], to, x) && Stands(buckets[..], pos, other)
  {
    ghost var s := buckets[..];
    if 0 < count {
      assert s[from..from + count] == x;
      Move(buckets, to, from, count);
      OverwritePuts(s, to, x);
      if from == to {
        assert buckets[..] == s;
      } else {
        OverwriteKeeps(s, to, x, pos, other);
      }
    }
  }

  /** Clearing the buckets between `from` and `end`, if there are any. */
  method ClearRegion(buckets: array<Item>, from: nat, end: nat, ghost p: nat, ghost x: seq<Item>, ghost q: nat, ghost y: seq<Item>)
    requires end <= buckets.Length
    requires Stands(buckets[..], p, x) && Stands(buckets[..], q, y)
    requires from < end ==> (p + |x| <= from || end <= p) && (q + |y| <= from || end <= q)
    modifies buckets
    ensures Stands(buckets[..], p, x) && Stands(buckets[..], q, y) && Cleared(buckets[..], from, end)
  {
    hide Overwrite, Stands;
    if from < end {
      ghost var s := buckets[..];
      Clear(buckets, from, end - from);
      OverwriteKeeps(s, from, seq(end - from, _ => 0), p, x);
      OverwriteKeeps(s, from, seq(end - from, _ => 0), q, y);
    }
  }

  /** The regions in front of (A) and behind (C) a replaced range of length `b`. */
  ghost predicate IsSplit(s: seq<Item>, leftIdx: nat, a: seq<Item>, b: nat, c: seq<Item>) {
    Stands(s, leftIdx, a) && Stands(s, leftIdx + |a| + b, c)
  }

  /** Sliding the values behind the replaced range (C), so that the gap gets its new size. */
  method MoveRightRegion(deque: Deque, ghost a: seq<Item>, b: nat, ghost c: seq<Item>, lenA: nat, lenC: nat, newCount: nat)
    requires lenA == |a| && lenC == |c| && IsSplit(deque.buckets[..], deque.leftIdx, a, b, c)
    requires deque.leftIdx + lenA + newCount + lenC <= deque.buckets.Length
    modifies deque.buckets
    ensures IsSplit(deque.buckets[..], deque.leftIdx, a, newCount, c)
    ensures Cleared(deque.buckets[..], deque.leftIdx + lenA + newCount + lenC, deque.leftIdx + lenA + b + lenC)
  {
    hide Cleared, Stands;
    SplitBounds(deque.buckets[..], deque.leftIdx, a, b, c);
    var oldC0, newC0 := deque.leftIdx + lenA + b, deque.leftIdx + lenA + newCount;
    MoveRegion(deque.buckets, newC0, oldC0, c, lenC, deque.leftIdx, a);
    ClearRegion(deque.buckets, newC0 + lenC, oldC0 + lenC, newC0, c, deque.leftIdx, a);
  }

  /** Sliding the values in front of the replaced range (A). */
  method MoveLeftRegion(deque: Deque, ghost a: seq<Item>, b: nat, ghost c: seq<Item>, lenA: nat, lenC: nat, newCount: nat)
    requires lenA == |a| && lenC == |c| && IsSplit(deque.buckets[..], deque.leftIdx, a, b, c)
    requires newCount <= deque.leftIdx + b
    modifies deque, deque.buckets
    ensures deque.leftIdx == old(deque.leftIdx) + b - newCount
    ensures IsSplit(deque.buckets[..], deque.leftIdx, a, newCount, c)
    ensures Cleared(deque.buckets[..], old(deque.leftIdx), deque.leftIdx)
  {
    hide Cleared, Stands;
    SplitBounds(deque.buckets[..], deque.leftIdx, a, b, c);
    var oldL := deque.leftIdx;
    var newL := oldL + b - newCount;
    deque.leftIdx := newL;
    MoveRegion(deque.buckets, newL, oldL, a, lenA, oldL + lenA + b, c);
    ClearRegion(deque.buckets, oldL, newL, newL, a, oldL + lenA + b, c);
  }

  /** Re-centring to the left: the left region moves first, or the right one would overwrite it. */
  method RecenterLeft(deque: Deque, ghost a: seq<Item>, b: nat, ghost c: seq<Item>, lenA: nat, lenC: nat, newCount: nat, newL: nat)
    requires lenA == |a| && lenC == |c| && IsSplit(deque.buckets[..], deque.leftIdx, a, b, c)
    requires newL + lenA + newCount + lenC <= deque.buckets.Length && b < newCount && newL < deque.leftIdx
    modifies deque.buckets
    ensures IsSplit(deque.buckets[..], newL, a, newCount, c)
    ensures Cleared(deque.buckets[..], newL + lenA + newCount + lenC, deque.leftIdx + lenA + b + lenC)
  {
    hide Cleared, Stands;
    SplitBounds(deque.buckets[..], deque.leftIdx, a, b, c);
    var oldL := deque.leftIdx;
    var oldC0, newC0 := oldL + lenA + b, newL + lenA + newCount;
    MoveRegion(deque.buckets, newL, oldL, a, lenA, oldC0, c);
    MoveRegion(deque.buckets, newC0, oldC0, c, lenC, newL, a);
    ClearRegion(deque.buckets, newC0 + lenC, oldC0 + lenC, newL, a, newC0, c);
  }

  /** Re-centring to the right: the right region moves first. */
  method RecenterRight(deque: Deque, ghost a: seq<Item>, b: nat, ghost c: seq<Item>, lenA: nat, lenC: nat, newCount: nat, newL: nat)
    requires lenA == |a| && lenC == |c| && IsSplit(deque.buckets[..], deque.leftIdx, a, b, c)
    requires newL + lenA + newCount + lenC <= deque.buckets.Length && b < newCount && deque.leftIdx <= newL
    modifies deque.buckets
    ensures IsSplit(deque.buckets[..], newL, a, newCount, c)
    ensures Cleared(deque.buckets[..], deque.leftIdx, newL)
  {
    hide Cleared, Stands;
    SplitBounds(deque.buckets[..], deque.leftIdx, a, b, c);
    var oldL := deque.leftIdx;
    var oldC0, newC0 := oldL + lenA + b, newL + lenA + newCount;
    MoveRegion(deque.buckets, newC0, oldC0, c, lenC, oldL, a);
    MoveRegion(deque.buckets, newL, oldL, a, lenA, newC0, c);
    ClearRegion(deque.buckets, oldL, newL, newL, a, newC0, c);
  }

  /** Moving both regions inside the same buckets, in the order in which neither overwrites the other. */
  method Recenter(deque: Deque, ghost a: seq<Item>, b: nat, ghost c: seq<Item>, lenA: nat, lenC: nat, newCount: nat, newL: nat)
    requires lenA == |a| && lenC == |c| && IsSplit(deque.buckets[..], deque.leftIdx, a, b, c)
    requires newL + lenA + newCount + lenC <= deque.buckets.Length && b < newCount
    modifies deque, deque.buckets
    ensures deque.leftIdx == newL
    ensures IsSplit(deque.buckets[..], newL, a, newCount, c)
    ensures newL < old(deque.leftIdx) ==>
              Cleared(deque.buckets[..], newL + lenA + newCount + lenC, old(deque.leftIdx) + lenA + b + lenC)
    ensures old(deque.leftIdx) <= newL ==> Cleared(deque.buckets[..], old(deque.leftIdx), newL)
  {
    hide Cleared, IsSplit;
    if newL < deque.leftIdx {
      RecenterLeft(deque, a, b, c, lenA, lenC, newCount, newL);
    } else {
      RecenterRight(deque, a, b, c, lenA, lenC, newCount, newL);
    }
    deque.leftIdx := newL;
  }

  /** Moving both regions to new buckets. */
  method Reallocate(deque: Deque, ghost a: seq<Item>, b: nat, ghost c: seq<Item>, lenA: nat, lenC: nat, newCount: nat,
                    newL: nat, capacity: nat)
    returns (newDeque: Deque)
    requires lenA == |a| && lenC == |c| && IsSplit(deque.buckets[..], deque.leftIdx, a, b, c)
    requires newL + lenA + newCount + lenC <= capacity
    ensures fresh(newDeque) && fresh(newDeque.buckets)
    ensures newDeque.leftIdx == newL && newDeque.buckets.Length == capacity
    ensures IsSplit(newDeque.buckets[..], newL, a, newCount, c)
  {
    hide Overwrite;
    var oldL := deque.leftIdx;
    var oldC0, newC0 := oldL + lenA + b, newL + lenA + newCount;
    newDeque := new Deque(newL, capacity);
    ghost var s := newDeque.buckets[..];
    assert deque.buckets[oldL..oldL + lenA] == a && deque.buckets[oldC0..oldC0 + lenC] == c;
    CopyIn(newDeque.buckets, newL, deque.buckets[oldL..oldL + lenA]);
    OverwritePuts(s, newL, a);
    ghost var t := newDeque.buckets[..];
    CopyIn(newDeque.buckets, newC0, deque.buckets[oldC0..oldC0 + lenC]);
    OverwriteKeeps(t, newC0, c, newL, a);
    OverwritePuts(t, newC0, c);
  }

  /** The loop over the values that go away: each is released once, and its bucket cleared. */
  method ReleaseRange(deque: Deque, location: nat, length: nat, ghost a: seq<Item>, ghost values: seq<Item>, ghost c: seq<Item>)
    returns (ghost gone: multiset<Item>)
    requires location == |a| && length == |values|
    requires Stands(deque.buckets[..], deque.leftIdx, a + values + c)
    modifies deque.buckets
    ensures IsSplit(deque.buckets[..], deque.leftIdx, a, length, c)
    ensures Cleared(deque.buckets[..], deque.leftIdx + location, deque.leftIdx + location + length)
    ensures gone == multiset(values)
  {
    hide Stands, Cleared;
    gone := multiset{};
    var first := deque.leftIdx + location;
    ClearedNothing(deque.buckets[..], first);
    StandsParts(deque.buckets[..], deque.leftIdx, a, values + c);
    StandsParts(deque.buckets[..], first, values, c);
    assert a + (values + c) == a + values + c;
    for idx := 0 to length
      invariant gone == multiset(values[..idx]) && Cleared(deque.buckets[..], first, first + idx)
      invariant Stands(deque.buckets[..], first + idx, values[idx..])
      invariant Stands(deque.buckets[..], deque.leftIdx, a) && Stands(deque.buckets[..], first + length, c)
    {
      ClearOne(deque.buckets[..], first + idx, values[idx..], deque.leftIdx, a, first + length, c);
      NextValue(values, idx);
      gone := gone + multiset{deque.buckets[first + idx]};
      ghost var before := deque.buckets[..];
      deque.buckets[first + idx] := 0;
      assert deque.buckets[..] == before[first + idx := 0];
      ClearedOneMore(before, first, first + idx);
    }
    assert values[..length] == values;
  }

  /** Clearing the first of the values that go away. */
  lemma {:induction false} ClearOne(s: seq<Item>, at: nat, values: seq<Item>, p: nat, a: seq<Item>, q: nat, c: seq<Item>)
    requires Stands(s, at, values) && Stands(s, p, a) && Stands(s, q, c)
    requires values != [] && p + |a| <= at && at + |values| <= q
    ensures at < |s| && s[at] == values[0]
    ensures var r := s[at := 0];
            Stands(r, at + 1, values[1..]) && Stands(r, p, a) && Stands(r, q, c)
  {
    var r := s[at := 0];
    assert s[at] == s[at..at + |values|][0];
    assert s[at + 1..at + |values|] == s[at..at + |values|][1..];
    assert r[at + 1..at + |values|] == s[at + 1..at + |values|];
    assert r[p..p + |a|] == s[p..p + |a|] && r[q..q + |c|] == s[q..q + |c|];
  }

  lemma NextValue(values: seq<Item>, idx: nat)
    requires idx < |values|
    ensures values[idx..][1..] == values[idx + 1..] && values[idx..][0] == values[idx]
    ensures multiset(values[..idx + 1]) == multiset(values[..idx]) + multiset{values[idx]}
  {
    assert values[..idx + 1] == values[..idx] + [values[idx]];
  }

  lemma {:induction false} StandsParts<T>(s: seq<T>, at: nat, x: seq<T>, y: seq<T>)
    ensures Stands(s, at, x + y) <==> Stands(s, at, x) && Stands(s, at + |x|, y)
  {
    if at + |x| + |y| <= |s| {
      var z := s[at..at + |x| + |y|];
      assert z[..|x|] == s[at..at + |x|] && z[|x|..] == s[at + |x|..at + |x| + |y|];
      if Stands(s, at, x) && Stands(s, at + |x|, y) {
        assert z == z[..|x|] + z[|x|..];
      }
    }
  }

  /** The values in front of a range and those behind it. */
  lemma {:induction false} SplitRegions(s: seq<Item>, leftIdx: nat, values: seq<Item>, location: nat, length: nat)
    requires location + length <= |values| && leftIdx + |values| <= |s| && s[leftIdx..leftIdx + |values|] == values
    ensures Stands(s, leftIdx, values[..location] + values[location..location + length] + values[location + length..])
    ensures IsSplit(s, leftIdx, values[..location], length, values[location + length..])
  {
    var a, b, c := values[..location], values[location..location + length], values[location + length..];
    assert values == a + b + c;
    StandsParts(s, leftIdx, a + b, c);
    StandsParts(s, leftIdx, a, b);
  }

  /** Every value in the array has been retained once more than it has been released. */
  ghost predicate Balanced(retained: multiset<Item>, released: multiset<Item>, values: seq<Item>) {
    retained == released + multiset(values)
  }

  /** Replacing a range keeps the balance if the new values are retained and the old ones released. */
  lemma {:induction false} SpliceStaysBalanced(retained: multiset<Item>, released: multiset<Item>, s: seq<Item>,
                                               loc: nat, len: nat, values: seq<Item>)
    requires loc + len <= |s|
    ensures Balanced(retained, released, s) ==>
              Balanced(retained + multiset(values), released + multiset(s[loc..loc + len]), Splice(s, loc, len, values))
  {
    SpliceBalances(s, loc, len, values);
    hide Splice;
    var before, after: multiset<Item> := multiset(s), multiset(Splice(s, loc, len, values));
    var comesIn, goesOut: multiset<Item> := multiset(values), multiset(s[loc..loc + len]);
    forall x: Item
      ensures before[x] + comesIn[x] == after[x] + goesOut[x]
    {
      assert (after + goesOut)[x] == (before + comesIn)[x];
    }
    if Balanced(retained, released, s) {
      assert forall x: Item :: (retained + comesIn)[x] == (released + goesOut + after)[x];
      assert retained + comesIn == released + goesOut + after;
    }
  }

  lemma {:induction false} SwapStaysBalanced(retained: multiset<Item>, released: multiset<Item>, s: seq<Item>, i: nat, j: nat)
    requires i < |s| && j < |s|
    ensures Balanced(retained, released, s) ==> Balanced(retained, released, s[i := s[j]][j := s[i]])
  {
    var t := s[i := s[j]];
    assert multiset(t) == multiset(s) - multiset{s[i]} + multiset{s[j]};
    assert multiset(t[j := s[i]]) == multiset(t) - multiset{t[j]} + multiset{s[i]};
  }

  lemma AllReleased(retained: multiset<Item>, released: multiset<Item>, s: seq<Item>)
    ensures Balanced(retained, released, s) ==> Balanced(retained, released + multiset(s), [])
  {
  }

  lemma EmptySplit(s: seq<Item>, leftIdx: nat, b: nat)
    requires leftIdx + b <= |s|
    ensures IsSplit(s, leftIdx, [], b, [])
  {
  }

  lemma SplitBounds(s: seq<Item>, leftIdx: nat, a: seq<Item>, b: nat, c: seq<Item>)
    requires IsSplit(s, leftIdx, a, b, c)
    ensures leftIdx + |a| + b + |c| <= |s| && Stands(s, leftIdx + |a|, [])
  {
  }

  /** Copying the new values into the gap. */
  method FillGap(deque: Deque, location: nat, newValues: seq<Item>, ghost a: seq<Item>, ghost c: seq<Item>)
    requires location == |a| && IsSplit(deque.buckets[..], deque.leftIdx, a, |newValues|, c)
    modifies deque.buckets
    ensures Stands(deque.buckets[..], deque.leftIdx, a + newValues + c)
  {
    hide Overwrite, Stands;
    ghost var s := deque.buckets[..];
    SplitBounds(s, deque.leftIdx, a, |newValues|, c);
    if 0 < |newValues| {
      CopyIn(deque.buckets, deque.leftIdx + location, newValues);
      OverwritePuts(s, deque.leftIdx + location, newValues);
      OverwriteKeeps(s, deque.leftIdx + location, newValues, deque.leftIdx, a);
      OverwriteKeeps(s, deque.leftIdx + location, newValues, deque.leftIdx + location + |newValues|, c);
    }
    StandsParts(deque.buckets[..], deque.leftIdx, a, newValues);
    StandsParts(deque.buckets[..], deque.leftIdx, a + newValues, c);
  }

  lemma {:induction false} UpdateInSlice(s: seq<Item>, leftIdx: nat, count: nat, idx: nat, value: Item)
    requires leftIdx + count <= |s| && idx < count
    ensures s[leftIdx + idx := value][leftIdx..leftIdx + count] == s[leftIdx..leftIdx + count][idx := value]
  {
  }

  /** Replacing one value by one other, and adding one at the end. */
  lemma {:induction false} UpdateIsSplice<T>(s: seq<T>, idx: nat, value: T)
    requires idx < |s|
    ensures Splice(s, idx, 1, [value]) == s[idx := value] && s[idx..idx + 1] == [s[idx]]
  {
  }

  lemma {:induction false} RemovalIsSplice<T>(s: seq<T>, idx: nat)
    requires idx < |s|
    ensures Splice(s, idx, 1, []) == s[..idx] + s[idx + 1..] && s[idx..idx + 1] == [s[idx]]
  {
  }

  lemma {:induction false} AppendIsSplice<T>(s: seq<T>, value: T)
    ensures Splice(s, |s|, 0, [value]) == s + [value]
  {
  }

  /** Whether the array retains what is put into it, and releases what is taken out. */
  datatype CallBacks = CallBacks(retain: bool, release: bool)

  class MutableArray {
    var count: nat
    var mutations: nat
    var store: Deque?
    const callBacks: CallBacks
    /** The calls made so far, with their multiplicity. */
    ghost var retained: multiset<Item>
    ghost var released: multiset<Item>

    ghost function Repr(): set<object>
      reads this`store, store
    {
      if store == null then {this} else {this, store, store.buckets}
    }

    ghost function Buckets(): set<object>
      reads this`store, store
    {
      if store == null then {} else {store.buckets}
    }

    ghost predicate InBounds()
      reads this`store, this`count, store
    {
      && (store == null ==> count == 0)
      && (store != null ==> store.leftIdx + count <= store.buckets.Length)
    }

    /** The values, in order. */
    ghost function Contents(): (s: seq<Item>)
      requires InBounds()
      reads this`store, this`count, store, Buckets()
      ensures |s| == count
    {
      if store == null then [] else store.buckets[..][store.leftIdx..store.leftIdx + count]
    }

    /** What every operation keeps: the bounds, and that retains and releases balance against the values. */
    ghost predicate Valid()
      reads this, store, Buckets()
    {
      && InBounds()
      && (callBacks.retain && callBacks.release ==> Balanced(retained, released, Contents()))
    }

    constructor (callBacks: CallBacks)
      ensures Valid() && fresh(Repr())
      ensures Contents() == [] && this.callBacks == callBacks
    {
      count, mutations, store := 0, 0, null;
      this.callBacks := callBacks;
      retained, released := multiset{}, multiset{};
    }

    function GetValueAtIndex(idx: nat): (value: Item)
      requires InBounds() && idx < count
      reads this`store, this`count, store, Buckets()
      ensures value == Contents()[idx]
    {
      store.buckets[store.leftIdx + idx]
    }

    /** Releasing the values of a range and clearing their buckets. */
    method ReleaseInStore(location: nat, length: nat)
      requires InBounds() && location + length <= count && store != null
      modifies this`released, Buckets()
      ensures released ==
              old(released) + (if callBacks.release then multiset(old(Contents())[location..location + length]) else multiset{})
      ensures IsSplit(store.buckets[..], store.leftIdx,
                      old(Contents())[..location], length, old(Contents())[location + length..])
    {
      hide Stands, IsSplit;
      ghost var before := Contents();
      SplitRegions(store.buckets[..], store.leftIdx, before, location, length);
      ghost var gone := ReleaseRange(store, location, length, before[..location], before[location..location + length],
                                     before[location + length..]);
      if callBacks.release {
        released := released + gone;
      }
    }

    /** Releasing the values of a range; the storage goes with the last values. */
    method ReleaseValues(location: nat, length: nat, releaseStorageIfPossible: bool)
      requires InBounds() && location + length <= count
      modifies this`count, this`store, this`released, Buckets()
      ensures released ==
              old(released) + (if callBacks.release then multiset(old(Contents())[location..location + length]) else multiset{})
      ensures releaseStorageIfPossible && location == 0 && length == old(count) ==> count == 0 && store == null
      ensures !(releaseStorageIfPossible && location == 0 && length == old(count)) ==>
                && count == old(count) && store == old(store)
                && (store != null ==>
                      IsSplit(store.buckets[..], store.leftIdx,
                              old(Contents())[..location], length, old(Contents())[location + length..]))
    {
      hide Stands, IsSplit;
      if store != null {
        ReleaseInStore(location, length);
      }
      if releaseStorageIfPossible && location == 0 && count == length {
        count := 0;
        store := null;
      }
    }

    /** The tightest the free space may get before an insertion reallocates. */
    static function Wiggle(capacity: nat): nat {
      if capacity / 0x2_0000 < 4 then 4 else capacity / 0x2_0000
    }

    static lemma WiggleIs(capacity: nat, free: int)
      ensures Wiggle(capacity) == if capacity < 0x8_0000 then 4 else capacity / 0x2_0000
      ensures free < Wiggle(capacity) <==> free < 4 || free < capacity / 0x2_0000
    {
    }

    /** Capacities are computed by shifting an `int`: a growing array has to stay below 2^30. */
    ghost predicate HasRoomFor(futureCnt: nat)
      reads this`store, this`count, store
    {
      count < futureCnt ==> futureCnt + Wiggle(if store == null then 0 else store.buckets.Length) < TWO30
    }

    /** Opening or closing the gap: sliding a region, re-centring, or moving to new buckets. */
    method RepositionDequeRegions(location: nat, length: nat, newCount: nat, ghost a: seq<Item>, ghost c: seq<Item>)
      requires store != null && location + length <= count
      requires store.leftIdx + count <= store.buckets.Length
      requires |a| == location && |c| == count - location - length
      requires IsSplit(store.buckets[..], store.leftIdx, a, length, c)
      requires length != newCount
      requires HasRoomFor(count - length + newCount)
      modifies this`store, store, store.buckets
      ensures store != null && (store == old(store) || (fresh(store) && fresh(store.buckets)))
      ensures store.leftIdx + (count - length + newCount) <= store.buckets.Length
      ensures IsSplit(store.buckets[..], store.leftIdx, a, newCount, c)
      ensures store == old(store) ==>
                && Cleared(store.buckets[..], old(store.leftIdx), store.leftIdx)
                && Cleared(store.buckets[..], store.leftIdx + (count - length + newCount), old(store.leftIdx) + count)
      ensures var future, capacity, free := count - length + newCount, old(store.buckets.Length), old(store.buckets.Length) - count;
              && (store != old(store) <==>
                    capacity < future % 0x1_0000_0000 || (count < future && (free < 4 || free < capacity / 0x2_0000)))
              && (store != old(store) ==>
                    && store.buckets.Length == RoundUpCapacity(future + if capacity < 0x8_0000 then 4 else capacity / 0x2_0000)
                    && store.leftIdx == (store.buckets.Length - future) / 2)
    {
      hide Stands, IsSplit, Cleared, RoundUpCapacity, Wiggle;
      SplitBounds(store.buckets[..], store.leftIdx, a, length, c);
      WiggleIs(store.buckets.Length, store.buckets.Length - count);
      var futureCnt: nat := count - length + newCount;
      var l, lenA, lenB := store.leftIdx, location, length;
      var lenC := count - lenB - lenA;
      var r := store.buckets.Length - count - l;
      var wiggle := Wiggle(store.buckets.Length);
      if store.buckets.Length < futureCnt % TWO32 || (count < futureCnt && l + r < wiggle) {
        var capacity := RoundUpCapacity(futureCnt + wiggle);
        var newL := (capacity - futureCnt) / 2;
        store := Reallocate(store, a, lenB, c, lenA, lenC, newCount, newL, capacity);
        return;
      }
      SlideRegions(location, length, newCount, a, c);
    }

    /** Within the same buckets. */
    method SlideRegions(location: nat, length: nat, newCount: nat, ghost a: seq<Item>, ghost c: seq<Item>)
      requires store != null && location + length <= count
      requires store.leftIdx + count <= store.buckets.Length
      requires |a| == location && |c| == count - location - length
      requires IsSplit(store.buckets[..], store.leftIdx, a, length, c)
      requires length != newCount
      requires count - length + newCount <= store.buckets.Length
      modifies store, store.buckets
      ensures store.buckets == old(store.buckets) && store.leftIdx + (count - length + newCount) <= store.buckets.Length
      ensures IsSplit(store.buckets[..], store.leftIdx, a, newCount, c)
      ensures Cleared(store.buckets[..], old(store.leftIdx), store.leftIdx)
      ensures Cleared(store.buckets[..], store.leftIdx + (count - length + newCount), old(store.leftIdx) + count)
      ensures var left, right := old(store.leftIdx), store.buckets.Length - count - old(store.leftIdx);
              var fewInFront, more := location <= count - location - length, newCount - length;
              store.leftIdx ==
              if !fewInFront && more <= right then left
              else if fewInFront && more <= left then left - more
              else (left + right - more) / 2 - (left + right - more) / 4
    {
      hide Stands;
      var l, lenA, lenB := store.leftIdx, location, length;
      var lenC := count - lenB - lenA;
      var r := store.buckets.Length - count - l;
      var numNewElems := newCount - lenB;
      if (numNewElems < 0 && lenC < lenA) || (numNewElems <= r && lenC < lenA) {
        MoveRightRegion(store, a, lenB, c, lenA, lenC, newCount);
      } else if numNewElems < 0 || (numNewElems <= l && lenA <= lenC) {
        MoveLeftRegion(store, a, lenB, c, lenA, lenC, newCount);
      } else {
        var newL := (l + r - numNewElems) / 2;
        newL := newL - newL / 2;
        Recenter(store, a, lenB, c, lenA, lenC, newCount, newL);
      }
    }

    /** The loop that retains the new values. */
    method RetainValues(newValues: seq<Item>)
      modifies this`retained
      ensures retained == old(retained) + (if callBacks.retain then multiset(newValues) else multiset{})
    {
      if callBacks.retain {
        for idx := 0 to |newValues|
          invariant retained == old(retained) + multiset(newValues[..idx])
        {
          assert newValues[..idx + 1] == newValues[..idx] + [newValues[idx]];
          retained := retained + multiset{newValues[idx]};
        }
        assert newValues[..|newValues|] == newValues;
      }
    }

    /** The first storage, with room for the values around its middle. */
    method FirstStore(newCount: nat)
      requires store == null && newCount < TWO30
      modifies this`store
      ensures store != null && fresh(store) && fresh(store.buckets)
      ensures IsSplit(store.buckets[..], store.leftIdx, [], newCount, [])
      ensures store.buckets.Length == RoundUpCapacity(newCount) && store.leftIdx == (store.buckets.Length - newCount) / 2
    {
      hide IsSplit;
      var capacity := RoundUpCapacity(newCount);
      store := new Deque((capacity - newCount) / 2, capacity);
      EmptySplit(store.buckets[..], store.leftIdx, newCount);
    }

    /** Releasing the values of the range and making room for the new ones. */
    method MakeRoom(location: nat, length: nat, newCount: nat, ghost a: seq<Item>, ghost c: seq<Item>)
      requires InBounds() && location + length <= count && HasRoomFor(count - length + newCount)
      requires a == Contents()[..location] && c == Contents()[location + length..]
      modifies this`store, this`released, this`count, store, Buckets()
      ensures store != null && (store == old(store) || (fresh(store) && fresh(store.buckets)))
      ensures IsSplit(store.buckets[..], store.leftIdx, a, newCount, c) && count == old(count)
      ensures released ==
              old(released) + (if callBacks.release then multiset(old(Contents())[location..location + length]) else multiset{})
    {
      hide Stands, IsSplit, RoundUpCapacity;
      if store == null {
        FirstStore(newCount);
      } else {
        SplitRegions(store.buckets[..], store.leftIdx, Contents(), location, length);
        if 0 < length {
          ReleaseValues(location, length, false);
        }
        if length != newCount {
          RepositionDequeRegions(location, length, newCount, a, c);
        }
      }
    }

    /** The buckets part of replacing: release, make room, fill the gap. */
    method ReplaceBuckets(location: nat, length: nat, newValues: seq<Item>)
      requires InBounds() && location + length <= count && HasRoomFor(count - length + |newValues|)
      modifies this`store, this`released, this`count, store, Buckets()
      ensures store != null && (store == old(store) || (fresh(store) && fresh(store.buckets)))
      ensures Stands(store.buckets[..], store.leftIdx, Splice(old(Contents()), location, length, newValues))
      ensures count == old(count)
      ensures released ==
              old(released) + (if callBacks.release then multiset(old(Contents())[location..location + length]) else multiset{})
    {
      hide Stands, IsSplit, RoundUpCapacity, Contents, InBounds;
      ghost var before := Contents();
      ghost var a, c := before[..location], before[location + length..];
      MakeRoom(location, length, |newValues|, a, c);
      FillGap(store, location, newValues, a, c);
    }

    lemma StoreHolds(values: seq<Item>)
      requires store != null && Stands(store.buckets[..], store.leftIdx, values) && count == |values|
      ensures InBounds() && Contents() == values
    {
    }

    /** Retaining the new values and counting the edit. */
    method BeginEdit(newValues: seq<Item>)
      requires InBounds()
      modifies this`retained, this`mutations
      ensures InBounds() && Contents() == old(Contents())
      ensures mutations == old(mutations) + 1
      ensures retained == old(retained) + (if callBacks.retain then multiset(newValues) else multiset{})
    {
      RetainValues(newValues);
      mutations := mutations + 1;
    }

    /** Retaining the new values, the edit of the buckets, and the new count. */
    method ReplaceInStore(location: nat, length: nat, newValues: seq<Item>)
      requires InBounds() && location + length <= count && HasRoomFor(count - length + |newValues|)
      modifies Repr()
      ensures InBounds() && fresh(Repr() - old(Repr()))
      ensures Contents() == Splice(old(Contents()), location, length, newValues)
      ensures mutations == old(mutations) + 1
      ensures retained == old(retained) + (if callBacks.retain then multiset(newValues) else multiset{})
      ensures released ==
              old(released) + (if callBacks.release then multiset(old(Contents())[location..location + length]) else multiset{})
    {
      hide Splice, RoundUpCapacity, Stands, InBounds, Contents;
      var futureCnt := count - length + |newValues|;
      ghost var after := Splice(Contents(), location, length, newValues);
      BeginEdit(newValues);
      ReplaceBuckets(location, length, newValues);
      count := futureCnt;
      StoreHolds(after);
    }

    /** All structural edits: the values of a range are replaced by others. */
    method ReplaceValues(location: nat, length: nat, newValues: seq<Item>)
      requires Valid() && location + length <= count && HasRoomFor(count - length + |newValues|)
      modifies Repr()
      ensures Valid() && fresh(Repr() - old(Repr()))
      ensures Contents() == old(Contents())[..location] + newValues + old(Contents())[location + length..]
      ensures mutations == old(mutations) + 1
      ensures retained == old(retained) + (if callBacks.retain then multiset(newValues) else multiset{})
      ensures released ==
              old(released) + (if callBacks.release then multiset(old(Contents())[location..location + length]) else multiset{})
    {
      hide Splice, Balanced, InBounds, Contents, HasRoomFor;
      SpliceStaysBalanced(retained, released, Contents(), location, length, newValues);
      SpliceIs(Contents(), location, length, newValues);
      ReplaceInStore(location, length, newValues);
    }

    method AppendValue(value: Item)
      requires Valid() && HasRoomFor(count + 1)
      modifies Repr()
      ensures Valid() && fresh(Repr() - old(Repr()))
      ensures Contents() == old(Contents()) + [value] && mutations == old(mutations) + 1
      ensures released == old(released)
      ensures retained == old(retained) + (if callBacks.retain then multiset{value} else multiset{})
    {
      ReplaceValues(count, 0, [value]);
    }

    method InsertValueAtIndex(idx: nat, value: Item)
      requires Valid() && idx <= count && HasRoomFor(count + 1)
      modifies Repr()
      ensures Valid() && fresh(Repr() - old(Repr()))
      ensures Contents() == old(Contents())[..idx] + [value] + old(Contents())[idx..] && mutations == old(mutations) + 1
      ensures released == old(released)
      ensures retained == old(retained) + (if callBacks.retain then multiset{value} else multiset{})
    {
      ReplaceValues(idx, 0, [value]);
    }

    method RemoveValueAtIndex(idx: nat)
      requires Valid() && idx < count
      modifies Repr()
      ensures Valid() && fresh(Repr() - old(Repr()))
      ensures Contents() == old(Contents())[..idx] + old(Contents())[idx + 1..] && mutations == old(mutations) + 1
      ensures retained == old(retained)
      ensures released == old(released) + (if callBacks.release then multiset{old(Contents())[idx]} else multiset{})
    {
      hide Splice, Contents, InBounds, Balanced;
      RemovalIsSplice(Contents(), idx);
      ReplaceValues(idx, 1, []);
    }

    /** Overwriting one bucket. */
    method StoreInPlace(idx: nat, value: Item) returns (oldValue: Item)
      requires InBounds() && idx < count
      modifies Buckets()
      ensures InBounds() && Contents() == old(Contents())[idx := value]
      ensures oldValue == old(Contents())[idx]
    {
      var deque: Deque := store;
      var at := deque.leftIdx + idx;
      ghost var s := deque.buckets[..];
      oldValue := deque.buckets[at];
      deque.buckets[at] := value;
      assert deque.buckets[..] == s[at := value];
      UpdateInSlice(s, deque.leftIdx, count, idx, value);
    }

    method ReleaseOne(ghost value: Item)
      requires InBounds()
      modifies this`released
      ensures InBounds() && Contents() == old(Contents())
      ensures released == old(released) + (if callBacks.release then multiset([value]) else multiset{})
    {
      if callBacks.release {
        released := released + multiset([value]);
      }
    }

    /** Setting in place; the new value is retained before the old one is released. */
    method SetInStore(idx: nat, value: Item)
      requires InBounds() && idx < count
      modifies this`mutations, this`retained, this`released, Buckets()
      ensures InBounds() && Contents() == old(Contents())[idx := value] && mutations == old(mutations) + 1
      ensures retained == old(retained) + (if callBacks.retain then multiset([value]) else multiset{})
      ensures released == old(released) + (if callBacks.release then multiset([old(Contents())[idx]]) else multiset{})
    {
      hide Contents, InBounds;
      BeginEdit([value]);
      var oldValue := StoreInPlace(idx, value);
      ReleaseOne(oldValue);
    }

    /** The same, with the balance. */
    method SetInPlace(idx: nat, value: Item)
      requires Valid() && idx < count
      modifies this`mutations, this`retained, this`released, Buckets()
      ensures Valid() && Contents() == old(Contents())[idx := value] && mutations == old(mutations) + 1
      ensures retained == old(retained) + (if callBacks.retain then multiset([value]) else multiset{})
      ensures released == old(released) + (if callBacks.release then multiset([old(Contents())[idx]]) else multiset{})
    {
      hide Balanced, Splice, InBounds, Contents;
      UpdateIsSplice(Contents(), idx, value);
      SpliceStaysBalanced(retained, released, Contents(), idx, 1, [value]);
      SetInStore(idx, value);
    }

    /** Setting in place, or appending at the end. */
    method SetValueAtIndex(idx: nat, value: Item)
      requires Valid() && idx <= count && (idx == count ==> HasRoomFor(count + 1))
      modifies Repr()
      ensures Valid() && fresh(Repr() - old(Repr()))
      ensures Contents() == if idx == old(count) then old(Contents()) + [value] else old(Contents())[idx := value]
      ensures mutations == old(mutations) + 1
      ensures retained == old(retained) + (if callBacks.retain then multiset([value]) else multiset{})
      ensures released ==
              old(released) + (if callBacks.release && idx < old(count) then multiset([old(Contents())[idx]]) else multiset{})
    {
      hide Balanced, Splice, InBounds, Contents;
      if idx == count {
        AppendIsSplice(Contents(), value);
        ReplaceValues(idx, 0, [value]);
      } else {
        SetInPlace(idx, value);
      }
    }

    /** Neither retains nor releases. */
    method ExchangeValuesAtIndices(idx1: nat, idx2: nat)
      requires Valid() && idx1 < count && idx2 < count
      modifies this`mutations, Buckets()
      ensures Valid()
      ensures Contents() == old(Contents())[idx1 := old(Contents())[idx2]][idx2 := old(Contents())[idx1]]
      ensures mutations == old(mutations) + 1
    {
      hide Balanced, Contents, InBounds;
      ghost var before := Contents();
      var tmp := GetValueAtIndex(idx1);
      var other := GetValueAtIndex(idx2);
      var old1 := StoreInPlace(idx1, other);
      var old2 := StoreInPlace(idx2, tmp);
      mutations := mutations + 1;
      ghost var after := before[idx1 := before[idx2]][idx2 := before[idx1]];
      assert InBounds() && Contents() == after;
      SwapStaysBalanced(retained, released, before, idx1, idx2);
    }

    method RemoveAllValues()
      requires Valid()
      modifies Repr()
      ensures Valid() && store == null
      ensures Contents() == [] && mutations == old(mutations) + 1 && retained == old(retained)
      ensures released == old(released) + (if callBacks.release then multiset(old(Contents())) else multiset{})
    {
      hide Stands, IsSplit, Balanced;
      ghost var before := Contents();
      assert before[0..count] == before;
      AllReleased(retained, released, before);
      ReleaseValues(0, count, true);
      count := 0;
      mutations := mutations + 1;
    }
  }
}
