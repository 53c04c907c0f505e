/** The in-place sort of a mutable array that only exchanges neighbours. */
module ArraySort {
  import opened DequeArray
  import opened Ordering

  /** `t` is `s` with the range from `lo` up to `hi` rearranged, values that tie staying in order. */
  ghost predicate Rearranged(s: seq<Item>, t: seq<Item>, lo: nat, hi: nat, cmp: Comparator<Item>) {
    && |s| == |t| && lo <= hi <= |s|
    && s[..lo] == t[..lo] && s[hi..] == t[hi..]
    && multiset(s) == multiset(t)
    && (forall x :: Ties(s, x, cmp) == Ties(t, x, cmp))
  }

  /** One exchange of neighbours that are not in order. */
  lemma {:induction false} ExchangeRearranges(s: seq<Item>, t: seq<Item>, lo: nat, hi: nat, i: nat, cmp: Comparator<Item>)
    requires IsPreorder(cmp) && Rearranged(s, t, lo, hi, cmp)
    requires lo <= i && i + 1 < hi && cmp(t[i + 1], t[i]) < 0
    ensures Rearranged(s, Swap(t, i, i + 1), lo, hi, cmp)
  {
    hide IsPreorder, Ties;
    var u := Swap(t, i, i + 1);
    assert u[..lo] == t[..lo] && u[hi..] == t[hi..];
    SwapKeepsElements(t, i, i + 1);
    forall x ensures Ties(s, x, cmp) == Ties(u, x, cmp) {
      SwapKeepsTies(t, i, x, cmp);
    }
  }

  /** What the passes have done: the range is sorted from `done` on, and nothing before that is larger. */
  ghost predicate Settled(t: seq<Item>, lo: nat, hi: nat, done: nat, cmp: Comparator<Item>)
    requires lo <= hi <= |t|
  {
    forall i, j :: lo <= i < j < hi && done <= j ==> cmp(t[i], t[j]) <= 0
  }

  /** What one pass has done: nothing before `i` is larger than the value at `i`. */
  ghost predicate Carried(t: seq<Item>, lo: nat, i: nat, cmp: Comparator<Item>)
    requires lo <= i < |t|
  {
    forall k :: lo <= k < i ==> cmp(t[k], t[i]) <= 0
  }

  lemma {:induction false} StepForward(t: seq<Item>, lo: nat, hi: nat, done: nat, i: nat, cmp: Comparator<Item>)
    requires IsPreorder(cmp) && lo <= i && i + 1 < done <= hi <= |t|
    requires Settled(t, lo, hi, done, cmp) && Carried(t, lo, i, cmp)
    ensures cmp(t[i + 1], t[i]) < 0 ==>
              Settled(Swap(t, i, i + 1), lo, hi, done, cmp) && Carried(Swap(t, i, i + 1), lo, i + 1, cmp)
    ensures cmp(t[i + 1], t[i]) >= 0 ==> Carried(t, lo, i + 1, cmp)
  {
    hide IsPreorder;
    Flip(cmp, t[i + 1], t[i]);
    Flip(cmp, t[i], t[i + 1]);
    if cmp(t[i + 1], t[i]) >= 0 {
      forall k | lo <= k < i + 1 ensures cmp(t[k], t[i + 1]) <= 0 {
        if k < i {
          Chain(cmp, t[k], t[i], t[i + 1]);
        }
      }
    }
  }

  lemma {:induction false} PassEnds(t: seq<Item>, lo: nat, hi: nat, done: nat, cmp: Comparator<Item>)
    requires lo < done <= hi <= |t| && Settled(t, lo, hi, done, cmp) && Carried(t, lo, done - 1, cmp)
    ensures Settled(t, lo, hi, done - 1, cmp)
  {
  }

  lemma NothingDone(s: seq<Item>, lo: nat, hi: nat, cmp: Comparator<Item>)
    requires lo <= hi <= |s|
    ensures Settled(s, lo, hi, hi, cmp) && Rearranged(s, s, lo, hi, cmp)
  {
  }

  lemma FirstIsCarried(s: seq<Item>, lo: nat, cmp: Comparator<Item>)
    requires lo < |s|
    ensures Carried(s, lo, lo, cmp)
  {
  }

  /** Bubble sort: the range ends up sorted, holds the values it held, and ties keep their order. */
  method ZSort(list: MutableArray, location: nat, length: nat, cmp: Comparator<Item>)
    requires list.Valid() && location + length <= list.count && IsPreorder(cmp)
    modifies list`mutations, list.Buckets()
    ensures list.Valid() && list.count == old(list.count)
    ensures Sorted(list.Contents(), location, location + length, cmp)
    ensures Rearranged(old(list.Contents()), list.Contents(), location, location + length, cmp)
  {
    hide MutableArray.Contents, MutableArray.InBounds, MutableArray.GetValueAtIndex, Balanced;
    hide IsPreorder, Ties, Settled, Carried, Rearranged, Sorted;
    ghost var s := list.Contents();
    var cnt: nat := length;
    NothingDone(s, location, location + length, cmp);
    while 1 < cnt
      invariant cnt <= length
      invariant list.Valid() && list.InBounds() && list.count == old(list.count)
      invariant Settled(list.Contents(), location, location + length, location + cnt, cmp)
      invariant Rearranged(s, list.Contents(), location, location + length, cmp)
    {
      FirstIsCarried(list.Contents(), location, cmp);
      for idx := location to location + cnt - 1
        invariant list.Valid() && list.InBounds() && list.count == old(list.count)
        invariant Settled(list.Contents(), location, location + length, location + cnt, cmp)
        invariant Carried(list.Contents(), location, idx, cmp)
        invariant Rearranged(s, list.Contents(), location, location + length, cmp)
      {
        ghost var t := list.Contents();
        StepForward(t, location, location + length, location + cnt, idx, cmp);
        var a := list.GetValueAtIndex(idx);
        var b := list.GetValueAtIndex(idx + 1);
        if cmp(b, a) < 0 {
          ExchangeRearranges(s, t, location, location + length, idx, cmp);
          list.ExchangeValuesAtIndices(idx, idx + 1);
        }
      }
      PassEnds(list.Contents(), location, location + length, location + cnt, cmp);
      cnt := cnt - 1;
    }
    SettledIsSorted(list.Contents(), location, location + length, location + cnt, cmp);
  }

  lemma {:induction false} SettledIsSorted(t: seq<Item>, lo: nat, hi: nat, done: nat, cmp: Comparator<Item>)
    requires lo <= hi <= |t| && done <= lo + 1 && Settled(t, lo, hi, done, cmp)
    ensures Sorted(t, lo, hi, cmp)
  {
  }

  /** The first of the ties of the first value is that value. */
  lemma {:induction false} FirstOfTies(t: seq<Item>, cmp: Comparator<Item>)
    requires IsPreorder(cmp) && t != []
    ensures forall x :: cmp(t[0], x) == 0 ==> Ties(t, x, cmp) == [t[0]] + Ties(t[1..], x, cmp)
    ensures cmp(t[0], t[0]) == 0
  {
    Flip(cmp, t[0], t[0]);
  }

  /** A value whose ties are not empty is not below the first value of a sorted sequence. */
  lemma {:induction false} TiesAreNotBelow(t: seq<Item>, x: Item, cmp: Comparator<Item>)
    requires IsPreorder(cmp) && Sorted(t, 0, |t|, cmp) && Ties(t, x, cmp) != []
    ensures t != [] && cmp(t[0], x) <= 0
  {
    hide IsPreorder;
    var i := SomeTie(t, x, cmp);
    if 0 < i {
      Chain(cmp, t[0], t[i], x);
    }
  }

  lemma {:induction false} SomeTie(t: seq<Item>, x: Item, cmp: Comparator<Item>) returns (i: nat)
    requires Ties(t, x, cmp) != []
    ensures i < |t| && cmp(t[i], x) == 0
  {
    if cmp(t[0], x) == 0 {
      i := 0;
    } else {
      var j := SomeTie(t[1..], x, cmp);
      i := j + 1;
    }
  }

  ghost predicate SameTies(t: seq<Item>, u: seq<Item>, cmp: Comparator<Item>) {
    forall x :: Ties(t, x, cmp) == Ties(u, x, cmp)
  }

  /** There is only one way to sort that keeps ties in order. */
  lemma {:induction false} StableSortIsUnique(t: seq<Item>, u: seq<Item>, cmp: Comparator<Item>)
    requires IsPreorder(cmp) && Sorted(t, 0, |t|, cmp) && Sorted(u, 0, |u|, cmp)
    requires SameTies(t, u, cmp)
    ensures t == u
  {
    hide IsPreorder;
    if t != [] || u != [] {
      SameFirst(t, u, cmp);
      forall x ensures Ties(t[1..], x, cmp) == Ties(u[1..], x, cmp) {
        var n := if cmp(t[0], x) == 0 then 1 else 0;
        assert Ties(t, x, cmp)[n..] == Ties(t[1..], x, cmp) && Ties(u, x, cmp)[n..] == Ties(u[1..], x, cmp);
      }
      StableSortIsUnique(t[1..], u[1..], cmp);
    }
  }

  lemma {:induction false} SameFirst(t: seq<Item>, u: seq<Item>, cmp: Comparator<Item>)
    requires IsPreorder(cmp) && Sorted(t, 0, |t|, cmp) && Sorted(u, 0, |u|, cmp)
    requires SameTies(t, u, cmp) && (t != [] || u != [])
    ensures t != [] && u != [] && t[0] == u[0]
  {
    hide IsPreorder, Sorted;
    if t != [] {
      FirstOfTies(t, cmp);
      TiesAreNotBelow(u, t[0], cmp);
      FirstOfTies(u, cmp);
      TiesAreNotBelow(t, u[0], cmp);
      Flip(cmp, t[0], u[0]);
      assert cmp(u[0], t[0]) == 0;
      assert Ties(u, t[0], cmp)[0] == u[0];
    } else {
      FirstOfTies(u, cmp);
      TiesAreNotBelow(t, u[0], cmp);
    }
  }
}
