/** Binary search in a mutable array. */
module ArraySearch {
  import opened Bytes
  import opened DequeArray
  import opened Ordering

  /** In the range, the values below `value` come first. */
  ghost predicate BelowComesFirst(s: seq<Item>, lo: nat, hi: nat, value: Item, cmp: Comparator<Item>)
    requires lo <= hi <= |s|
  {
    forall i, j :: lo <= i <= j < hi && cmp(s[j], value) < 0 ==> cmp(s[i], value) < 0
  }

  /** So it is in a sorted range. */
  lemma {:induction false} SortedIsSplit(s: seq<Item>, lo: nat, hi: nat, value: Item, cmp: Comparator<Item>)
    requires lo <= hi <= |s| && IsPreorder(cmp) && Sorted(s, lo, hi, cmp)
    ensures BelowComesFirst(s, lo, hi, value, cmp)
  {
    forall i, j | lo <= i <= j < hi && cmp(s[j], value) < 0
      ensures cmp(s[i], value) < 0
    {
      if i < j {
        BelowTransfers(s[i], s[j], value, cmp);
      }
    }
  }

  lemma BelowTransfers(a: Item, b: Item, value: Item, cmp: Comparator<Item>)
    requires IsPreorder(cmp) && cmp(a, b) <= 0 && cmp(b, value) < 0
    ensures cmp(a, value) < 0
  {
    hide IsPreorder;
    Flip(cmp, a, value);
    Flip(cmp, value, a);
    Flip(cmp, b, value);
    if cmp(value, a) <= 0 {
      Chain(cmp, value, a, b);
    }
  }

  /** `index` splits the range into the values below `value` and the others. */
  ghost predicate Splits(s: seq<Item>, lo: nat, hi: nat, index: nat, value: Item, cmp: Comparator<Item>)
    requires lo <= hi <= |s|
  {
    && lo <= index <= hi
    && (forall k :: lo <= k < index ==> cmp(s[k], value) < 0)
    && (forall k :: index <= k < hi ==> cmp(s[k], value) >= 0)
  }

  lemma {:induction false} NeighboursSplit(s: seq<Item>, lo: nat, hi: nat, index: nat, value: Item, cmp: Comparator<Item>)
    requires lo <= hi <= |s| && BelowComesFirst(s, lo, hi, value, cmp) && lo <= index <= hi
    requires lo < index ==> cmp(s[index - 1], value) < 0
    requires index < hi ==> cmp(s[index], value) >= 0
    ensures Splits(s, lo, hi, index, value, cmp)
  {
  }

  /** `value` lies behind probe `idx` and not behind probe `idx` + `step`; probes outside the range are infinite. */
  ghost predicate Brackets(s: seq<Item>, lo: nat, hi: nat, idx: int, step: nat, value: Item, cmp: Comparator<Item>)
    requires lo <= hi <= |s|
  {
    && -1 <= idx && lo + idx + step <= hi
    && (0 <= idx && lo + idx < hi ==> cmp(s[lo + idx], value) < 0)
    && (0 <= idx + step && lo + idx + step < hi ==> cmp(s[lo + idx + step], value) >= 0)
  }

  /** The first probe decides between the two brackets of length 2^`lg` at the ends of the range. */
  lemma FirstBrackets(s: seq<Item>, lo: nat, hi: nat, lg: nat, value: Item, cmp: Comparator<Item>)
    requires lo + Pow2(lg) <= hi <= |s| && hi - lo < 2 * Pow2(lg) && BelowComesFirst(s, lo, hi, value, cmp)
    ensures cmp(s[lo - 1 + Pow2(lg)], value) < 0 ==> Brackets(s, lo, hi, hi - lo - Pow2(lg), Pow2(lg), value, cmp)
    ensures cmp(s[lo - 1 + Pow2(lg)], value) >= 0 ==> Brackets(s, lo, hi, -1, Pow2(lg), value, cmp)
  {
  }

  /** One round of the search: the probe in the middle decides. */
  lemma Halved(s: seq<Item>, lo: nat, hi: nat, idx: int, step: nat, value: Item, cmp: Comparator<Item>)
    requires lo <= hi <= |s| && 0 < step && Brackets(s, lo, hi, idx, 2 * step, value, cmp)
    ensures lo <= lo + idx + step < hi
    ensures cmp(s[lo + idx + step], value) < 0 ==> Brackets(s, lo, hi, idx + step, step, value, cmp)
    ensures cmp(s[lo + idx + step], value) >= 0 ==> Brackets(s, lo, hi, idx, step, value, cmp)
  {
  }

  lemma BracketsSplit(s: seq<Item>, lo: nat, hi: nat, idx: int, value: Item, cmp: Comparator<Item>)
    requires lo <= hi <= |s| && BelowComesFirst(s, lo, hi, value, cmp) && Brackets(s, lo, hi, idx, 1, value, cmp)
    ensures 0 <= lo + idx + 1 && Splits(s, lo, hi, lo + idx + 1, value, cmp)
  {
    NeighboursSplit(s, lo, hi, lo + idx + 1, value, cmp);
  }

  function LogarithmOf(length: nat): (lg: nat)
    requires 0 < length
    ensures Pow2(lg) <= length < 2 * Pow2(lg)
  {
    Flsl(length) - 1
  }

  lemma Doubling(lg: nat)
    requires 0 < lg
    ensures Pow2(lg) == 2 * Pow2(lg - 1)
  {
  }

  lemma PowerZero()
    ensures Pow2(0) == 1
  {
  }

  /** The index of the first value that is not below `value`: the loop keeps it behind probe `idx` and not behind
      probe `idx` + 2^`lg`, where the probes outside the range count as -infinity and +infinity. */
  method BSearchValues(list: MutableArray, location: nat, length: nat, value: Item, cmp: Comparator<Item>)
    returns (index: nat)
    requires list.InBounds() && location + length <= list.count && length < 0x8000_0000
    requires IsPreorder(cmp) && Sorted(list.Contents(), location, location + length, cmp)
    ensures Splits(list.Contents(), location, location + length, index, value, cmp)
  {
    hide MutableArray.Contents, MutableArray.InBounds, MutableArray.GetValueAtIndex;
    hide IsPreorder, Sorted, BelowComesFirst, Splits, Brackets, Pow2, Flsl, LogarithmOf;
    ghost var s := list.Contents();
    SortedIsSplit(s, location, location + length, value, cmp);
    if length <= 0 {
      index := location;
      NeighboursSplit(s, location, location + length, index, value, cmp);
      return;
    }
    var item := list.GetValueAtIndex(location + length - 1);
    if cmp(item, value) < 0 {
      index := location + length;
      NeighboursSplit(s, location, location + length, index, value, cmp);
      return;
    }
    item := list.GetValueAtIndex(location);
    if cmp(value, item) < 0 {
      Flip(cmp, value, item);
      index := location;
      NeighboursSplit(s, location, location + length, index, value, cmp);
      return;
    }
    var lg: nat := LogarithmOf(length);
    item := list.GetValueAtIndex(location - 1 + Pow2(lg));
    var idx: int := -1;
    if cmp(item, value) < 0 {
      idx := length - Pow2(lg);
    }
    FirstBrackets(s, location, location + length, lg, value, cmp);
    while lg != 0
      invariant list.InBounds() && list.Contents() == s
      invariant Brackets(s, location, location + length, idx, Pow2(lg), value, cmp)
    {
      Doubling(lg);
      lg := lg - 1;
      Halved(s, location, location + length, idx, Pow2(lg), value, cmp);
      item := list.GetValueAtIndex(location + idx + Pow2(lg));
      if cmp(item, value) < 0 {
        idx := idx + Pow2(lg);
      }
    }
    PowerZero();
    BracketsSplit(s, location, location + length, idx, value, cmp);
    index := location + idx + 1;
  }
}
