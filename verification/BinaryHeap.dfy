/** The binary heap: values sift through the buckets by moving a hole. */
module BinaryHeap {
  import opened Bytes
  import opened DequeArray
  import opened Ordering
  import opened HeapOrder

  /** The values as they are when `value` fills the hole at `idx`. */
  ghost function Fill(buckets: seq<Item>, count: nat, idx: nat, value: Item): (s: seq<Item>)
    requires idx < count <= |buckets|
    ensures |s| == count
  {
    buckets[..count][idx := value]
  }

  /** Moving the value at `next` into the hole swaps the two. */
  lemma {:induction false} HoleMoves(buckets: seq<Item>, count: nat, idx: nat, next: nat, value: Item)
    requires idx < count <= |buckets| && next < count && idx != next
    ensures Fill(buckets[idx := buckets[next]], count, next, value) == Swap(Fill(buckets, count, idx, value), idx, next)
    ensures Fill(buckets, count, idx, value)[next] == buckets[next] && Fill(buckets, count, idx, value)[idx] == value
    ensures multiset(Fill(buckets[idx := buckets[next]], count, next, value)) == multiset(Fill(buckets, count, idx, value))
  {
    SwapKeepsElements(Fill(buckets, count, idx, value), idx, next);
  }

  /** The loop that adds: the hole rises from the end until its parent is not greater. */
  method SiftUp(buckets: array<Item>, count: nat, value: Item, cmp: Comparator<Item>)
    requires 0 < count <= buckets.Length && IsPreorder(cmp) && IsHeap(buckets[..count - 1], cmp)
    modifies buckets
    ensures IsHeap(buckets[..count], cmp)
    ensures multiset(buckets[..count]) == old(multiset(buckets[..count - 1])) + multiset{value}
  {
    hide IsPreorder, IsHeap, RisesAt, Fill, Swap;
    var idx: nat := count - 1;
    HoleAtEnd(buckets[..], count, value, cmp);
    ghost var all := multiset(Fill(buckets[..], count, idx, value));
    while 0 < idx
      invariant idx < count && RisesAt(Fill(buckets[..], count, idx, value), idx, cmp)
      invariant multiset(Fill(buckets[..], count, idx, value)) == all
    {
      var pidx := Parent(idx);
      var item := buckets[pidx];
      ghost var s := buckets[..];
      HoleMoves(s, count, idx, pidx, value);
      if cmp(item, value) <= 0 {
        break;
      }
      Rise(Fill(s, count, idx, value), idx, cmp);
      buckets[idx] := item;
      assert buckets[..] == s[idx := s[pidx]];
      idx := pidx;
    }
    RisenIsHeap(Fill(buckets[..], count, idx, value), idx, cmp);
    ghost var t := buckets[..];
    buckets[idx] := value;
    HoleFilled(t, buckets[..], count, idx, value);
    assert buckets[..][..count] == buckets[..count];
  }

  lemma HoleFilled(before: seq<Item>, after: seq<Item>, count: nat, idx: nat, value: Item)
    requires idx < count <= |before| && after == before[idx := value]
    ensures after[..count] == Fill(before, count, idx, value)
  {
  }

  lemma {:induction false} HoleAtEnd(buckets: seq<Item>, count: nat, value: Item, cmp: Comparator<Item>)
    requires 0 < count <= |buckets| && IsHeap(buckets[..count - 1], cmp)
    ensures RisesAt(Fill(buckets, count, count - 1, value), count - 1, cmp)
    ensures multiset(Fill(buckets, count, count - 1, value)) == multiset(buckets[..count - 1]) + multiset{value}
  {
    var s := Fill(buckets, count, count - 1, value);
    assert s == buckets[..count - 1] + [value];
    forall i: nat | i != count - 1
      ensures InOrder(s, i, cmp)
    {
      assert InOrder(buckets[..count - 1], i, cmp);
    }
  }

  /** The loop that removes: the hole sinks from the top until its smaller child is greater than the last value. */
  method SiftDown(buckets: array<Item>, count: nat, cmp: Comparator<Item>)
    requires count < buckets.Length && IsPreorder(cmp) && IsHeap(buckets[..count + 1], cmp)
    modifies buckets
    ensures IsHeap(buckets[..count], cmp)
    ensures multiset(buckets[..count]) == old(multiset(buckets[..count + 1]) - multiset{buckets[0]})
  {
    hide IsPreorder, IsHeap, SinksAt, IsSmallerChild, Fill, Swap;
    var val := buckets[count];
    var idx, cidx := 0, 1;
    if count == 0 {
      OneValue(buckets[..], cmp);
      return;
    }
    HoleAtTop(buckets[..], count, cmp);
    ghost var all := multiset(Fill(buckets[..], count, idx, val));
    while cidx < count
      invariant idx < count && cidx == 2 * idx + 1
      invariant SinksAt(Fill(buckets[..], count, idx, val), idx, cmp)
      invariant multiset(Fill(buckets[..], count, idx, val)) == all
    {
      ghost var s := buckets[..];
      var item := buckets[cidx];
      SmallerChild(s, count, idx, val, cmp);
      if cidx + 1 < count {
        var item2 := buckets[cidx + 1];
        if cmp(item, item2) > 0 {
          cidx := cidx + 1;
          item := item2;
        }
      }
      HoleMoves(s, count, idx, cidx, val);
      if cmp(item, val) > 0 {
        SunkIsHeap(Fill(s, count, idx, val), idx, cidx, cmp);
        break;
      }
      Sink(Fill(s, count, idx, val), idx, cidx, cmp);
      buckets[idx] := item;
      assert buckets[..] == s[idx := s[cidx]];
      idx := cidx;
      cidx := 2 * idx + 1;
    }
    if count <= cidx {
      BottomIsHeap(Fill(buckets[..], count, idx, val), idx, cmp);
    }
    ghost var t := buckets[..];
    buckets[idx] := val;
    HoleFilled(t, buckets[..], count, idx, val);
    assert buckets[..][..count] == buckets[..count];
  }

  lemma {:induction false} OneValue(buckets: seq<Item>, cmp: Comparator<Item>)
    requires 0 < |buckets|
    ensures IsHeap(buckets[..0], cmp) && multiset(buckets[..0]) == multiset(buckets[..1]) - multiset{buckets[0]}
  {
    assert buckets[..1] == [buckets[0]];
  }

  lemma {:induction false} HoleAtTop(buckets: seq<Item>, count: nat, cmp: Comparator<Item>)
    requires 0 < count < |buckets| && IsHeap(buckets[..count + 1], cmp)
    ensures SinksAt(Fill(buckets, count, 0, buckets[count]), 0, cmp)
    ensures multiset(Fill(buckets, count, 0, buckets[count])) == multiset(buckets[..count + 1]) - multiset{buckets[0]}
  {
    var s, b := Fill(buckets, count, 0, buckets[count]), buckets[..count + 1];
    forall i: nat | 0 < i && Parent(i) != 0
      ensures InOrder(s, i, cmp)
    {
      assert InOrder(b, i, cmp);
    }
    assert b == [buckets[0]] + b[1..count] + [buckets[count]];
    assert s == [buckets[count]] + b[1..count];
  }

  /** The choice between the two children. */
  lemma {:induction false} SmallerChild(buckets: seq<Item>, count: nat, idx: nat, val: Item, cmp: Comparator<Item>)
    requires idx < count <= |buckets| && 2 * idx + 1 < count && IsPreorder(cmp)
    ensures var s, c := Fill(buckets, count, idx, val), 2 * idx + 1;
            if c + 1 < count && cmp(buckets[c], buckets[c + 1]) > 0
            then IsSmallerChild(s, idx, c + 1, cmp) else IsSmallerChild(s, idx, c, cmp)
  {
    hide IsPreorder;
    var s, c := Fill(buckets, count, idx, val), 2 * idx + 1;
    if c + 1 < count {
      Flip(cmp, buckets[c + 1], buckets[c]);
    }
    assert forall i: nat :: 0 < i && Parent(i) == idx ==> i == c || i == c + 1;
  }

  /** Pointers compared as numbers, which is what a heap without a comparator does. */
  function PointerOrder(a: Item, b: Item): int {
    a - b
  }

  lemma PointerOrderIsPreorder()
    ensures IsPreorder(PointerOrder) && forall a, b :: PointerOrder(a, b) <= 0 <==> a <= b
  {
  }

  /** Draining a heap: what came out is sorted, and nothing that is left is smaller. */
  ghost predicate Drained(out: seq<Item>, rest: multiset<Item>, all: multiset<Item>, cmp: Comparator<Item>) {
    && multiset(out) + rest == all
    && Sorted(out, 0, |out|, cmp)
    && (forall k, x :: 0 <= k < |out| && x in rest ==> cmp(out[k], x) <= 0)
  }

  lemma NothingDrained(all: multiset<Item>, cmp: Comparator<Item>)
    ensures Drained([], all, all, cmp)
  {
  }

  lemma {:induction false} DrainOne(out: seq<Item>, rest: multiset<Item>, all: multiset<Item>, value: Item, cmp: Comparator<Item>)
    requires Drained(out, rest, all, cmp) && value in rest
    requires forall x :: x in rest ==> cmp(value, x) <= 0
    ensures Drained(out + [value], rest - multiset{value}, all, cmp)
  {
  }

  lemma AllDrained(out: seq<Item>, rest: multiset<Item>, all: multiset<Item>, cmp: Comparator<Item>)
    requires Drained(out, rest, all, cmp) && |out| == |all|
    ensures multiset(out) == all && Sorted(out, 0, |out|, cmp)
  {
    assert |multiset(out)| + |rest| == |all|;
  }

  class Heap {
    var count: nat
    var buckets: array<Item>
    const compare: Option<Comparator<Item>>

    function Order(): Comparator<Item> {
      if compare.None? then PointerOrder else compare.value
    }

    ghost predicate Valid()
      reads this, buckets
    {
      && 4 <= buckets.Length && count <= buckets.Length
      && IsHeap(buckets[..count], Order())
    }

    /** What the caller has to provide: a comparator, if there is one, is a total preorder. */
    ghost predicate IsOrdered() {
      compare.Some? ==> IsPreorder(compare.value)
    }

    lemma OrderIsPreorder()
      requires IsOrdered()
      ensures IsPreorder(Order())
    {
      PointerOrderIsPreorder();
    }

    /** The values the heap holds, with their multiplicity. */
    ghost function Values(): multiset<Item>
      requires Valid()
      reads this, buckets
    {
      multiset(buckets[..count])
    }

    constructor (compare: Option<Comparator<Item>>)
      ensures Valid() && fresh(buckets) && this.compare == compare
      ensures count == 0 && Values() == multiset{} && buckets.Length == 4
    {
      count := 0;
      this.compare := compare;
      buckets := new Item[RoundUpCapacity(1)];
    }

    /** Moving to a larger block of buckets. */
    method Grow(numNewValues: nat)
      requires Valid() && 0 < numNewValues && count + numNewValues < TWO30
      modifies this`buckets
      ensures Valid() && fresh(buckets) && count < buckets.Length == RoundUpCapacity(count + numNewValues)
      ensures Values() == old(Values())
    {
      hide IsHeap, RoundUpCapacity;
      ghost var s := buckets[..count];
      var newBuckets := new Item[RoundUpCapacity(count + numNewValues)];
      forall i | 0 <= i < count {
        newBuckets[i] := buckets[i];
      }
      assert newBuckets[..count] == s;
      buckets := newBuckets;
    }

    method AddValue(value: Item)
      requires Valid() && IsOrdered() && count + 1 < TWO30
      modifies this, buckets
      ensures Valid() && (buckets == old(buckets) || fresh(buckets))
      ensures Values() == old(Values()) + multiset{value} && count == old(count) + 1
    {
      hide IsHeap, IsPreorder;
      if count == buckets.Length {
        Grow(1);
      }
      count := count + 1;
      OrderIsPreorder();
      SiftUp(buckets, count, value, Order());
    }

    method GetMinimum() returns (value: Item)
      requires Valid() && IsOrdered() && 0 < count
      ensures value == buckets[0] && value in Values()
      ensures forall x :: x in Values() ==> Order()(value, x) <= 0
      ensures compare.None? ==> forall x :: x in Values() ==> value <= x
      ensures compare.Some? ==> forall x :: x in Values() ==> compare.value(value, x) <= 0
    {
      FirstIsLeast();
      value := buckets[0];
    }

    /** The first value is a minimum: for the comparator, or as a pointer if there is none. */
    lemma FirstIsLeast()
      requires Valid() && IsOrdered() && 0 < count
      ensures buckets[0] in Values() && forall x :: x in Values() ==> Order()(buckets[0], x) <= 0
      ensures compare.None? ==> forall x :: x in Values() ==> buckets[0] <= x
      ensures compare.Some? ==> forall x :: x in Values() ==> compare.value(buckets[0], x) <= 0
    {
      OrderIsPreorder();
      var s := buckets[..count];
      assert s[0] in s;
      forall x | x in s
        ensures Order()(buckets[0], x) <= 0
      {
        var i :| 0 <= i < |s| && s[i] == x;
        RootIsMinimum(s, i, Order());
      }
    }

    /** Takes away the value in the first bucket; nothing happens to an empty heap. */
    method RemoveMinimumValue()
      requires Valid() && IsOrdered()
      modifies this`count, buckets
      ensures Valid()
      ensures old(count) == 0 ==> count == 0 && Values() == old(Values())
      ensures 0 < old(count) ==> count == old(count) - 1 && Values() == old(Values()) - multiset{old(buckets[0])}
      ensures 0 < old(count) && compare.None? ==> forall x :: x in old(Values()) ==> old(buckets[0]) <= x
      ensures 0 < old(count) && compare.Some? ==> forall x :: x in old(Values()) ==> compare.value(old(buckets[0]), x) <= 0
    {
      hide IsHeap, IsPreorder, Order;
      if count == 0 {
        return;
      }
      FirstIsLeast();
      count := count - 1;
      OrderIsPreorder();
      SiftDown(buckets, count, Order());
    }

    /** The minimum, and the heap without it. */
    method TakeMinimum() returns (value: Item)
      requires Valid() && IsOrdered() && 0 < count
      modifies this`count, buckets
      ensures Valid() && count == old(count) - 1
      ensures value in old(Values()) && Values() == old(Values()) - multiset{value}
      ensures forall x :: x in old(Values()) ==> Order()(value, x) <= 0
    {
      hide IsHeap, IsPreorder;
      value := GetMinimum();
      RemoveMinimumValue();
    }

    /** A heap with the same values, added one by one. */
    method CreateCopy() returns (copy: Heap)
      requires Valid() && IsOrdered() && count + 1 < TWO30
      ensures fresh(copy) && fresh(copy.buckets) && copy.Valid() && copy.compare == compare
      ensures copy.Values() == Values() && copy.count == count
    {
      hide IsHeap, IsPreorder, RoundUpCapacity;
      copy := new Heap(compare);
      assert buckets[..0] == [];
      for idx := 0 to count
        invariant fresh(copy) && fresh(copy.buckets) && copy.Valid() && copy.compare == compare && copy.count == idx
        invariant copy.Values() == multiset(buckets[..idx])
      {
        assert buckets[..idx + 1] == buckets[..idx] + [buckets[idx]];
        copy.AddValue(buckets[idx]);
      }
      assert Values() == multiset(buckets[..count]);
    }

    /** The minimum is taken out of the heap and stored. */
    method TakeInto(values: array<Item>, idx: nat) returns (value: Item)
      requires Valid() && IsOrdered() && 0 < count && values != buckets && idx < values.Length
      modifies this`count, buckets, values
      ensures Valid() && count == old(count) - 1
      ensures value in old(Values()) && Values() == old(Values()) - multiset{value}
      ensures forall x :: x in old(Values()) ==> Order()(value, x) <= 0
      ensures values[..idx + 1] == old(values[..idx]) + [value] && values[idx + 1..] == old(values[idx + 1..])
    {
      hide Values, Valid, Order, IsOrdered;
      value := TakeMinimum();
      values[idx] := value;
    }

    lemma ValuesCount()
      requires Valid()
      ensures |Values()| == count
    {
      assert |multiset(buckets[..count])| == |buckets[..count]|;
    }

    /** The values in order, until the heap is empty. */
    method Drain(values: array<Item>)
      requires Valid() && IsOrdered() && values != buckets && count <= values.Length
      modifies this`count, buckets, values
      ensures values[old(count)..] == old(values[count..])
      ensures multiset(values[..old(count)]) == old(Values()) && Sorted(values[..old(count)], 0, old(count), Order())
    {
      hide IsHeap, IsPreorder, Sorted, Drained, Values, Order, IsOrdered, Valid;
      ghost var all, total, behind := Values(), count, values[count..];
      ghost var out: seq<Item>, rest := [], all;
      NothingDrained(all, Order());
      ValuesCount();
      var idx := 0;
      while 0 < count
        invariant Valid() && |out| == idx && idx + count == total
        invariant values[..idx] == out && values[total..] == behind
        invariant Values() == rest && Drained(out, rest, all, Order())
      {
        var value := TakeInto(values, idx);
        DrainOne(out, rest, all, value, Order());
        out, rest := out + [value], rest - multiset{value};
        idx := idx + 1;
      }
      AllDrained(out, rest, all, Order());
    }

    /** Copying and draining: the values come out sorted, all of them, and the heap stays as it is. */
    method GetValues(values: array<Item>)
      requires Valid() && IsOrdered() && count + 1 < TWO30
      requires values != buckets && count <= values.Length
      modifies values
      ensures Valid() && count == old(count) && buckets[..] == old(buckets[..])
      ensures multiset(values[..count]) == Values() && Sorted(values[..count], 0, count, Order())
      ensures compare.None? ==> forall i, j :: 0 <= i < j < count ==> values[i] <= values[j]
      ensures compare.Some? ==> forall i, j :: 0 <= i < j < count ==> compare.value(values[i], values[j]) <= 0
      ensures values[count..] == old(values[count..])
    {
      hide IsHeap, IsPreorder;
      if count == 0 {
        return;
      }
      var heapCopy := CreateCopy();
      heapCopy.Drain(values);
    }
  }
}
