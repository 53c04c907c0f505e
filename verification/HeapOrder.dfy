/** The order of a binary heap, and what moving one value up or down does to it. */
module HeapOrder {
  import opened Ordering

  function Parent(i: nat): (p: nat)
    requires 0 < i
    ensures p < i
  {
    (i - 1) / 2
  }

  /** The value at `i` is not smaller than its parent. */
  ghost predicate InOrder<T(!new)>(s: seq<T>, i: nat, cmp: Comparator<T>) {
    0 < i < |s| ==> cmp(s[Parent(i)], s[i]) <= 0
  }

  ghost predicate IsHeap<T(!new)>(s: seq<T>, cmp: Comparator<T>) {
    forall i: nat :: InOrder(s, i, cmp)
  }

  /** The first value is a minimum. */
  lemma {:induction false} RootIsMinimum<T(!new)>(s: seq<T>, i: nat, cmp: Comparator<T>)
    requires IsPreorder(cmp) && IsHeap(s, cmp) && i < |s|
    ensures cmp(s[0], s[i]) <= 0
  {
    Flip(cmp, s[0], s[0]);
    if 0 < i {
      RootIsMinimum(s, Parent(i), cmp);
      assert InOrder(s, i, cmp);
      Chain(cmp, s[0], s[Parent(i)], s[i]);
    }
  }

  /** The children of `idx` are not smaller than the parent of `idx`. */
  ghost predicate Bridged<T(!new)>(s: seq<T>, idx: nat, cmp: Comparator<T>) {
    forall i :: 0 < i < |s| && 0 < idx < |s| && Parent(i) == idx ==> cmp(s[Parent(idx)], s[i]) <= 0
  }

  /** A heap but for the value at `idx`, which may be smaller than its parent. */
  ghost predicate RisesAt<T(!new)>(s: seq<T>, idx: nat, cmp: Comparator<T>) {
    && idx < |s|
    && (forall i: nat :: i != idx ==> InOrder(s, i, cmp))
    && Bridged(s, idx, cmp)
  }

  lemma {:induction false} Rise<T(!new)>(s: seq<T>, idx: nat, cmp: Comparator<T>)
    requires IsPreorder(cmp) && RisesAt(s, idx, cmp) && 0 < idx && cmp(s[Parent(idx)], s[idx]) > 0
    ensures RisesAt(Swap(s, idx, Parent(idx)), Parent(idx), cmp)
  {
    hide IsPreorder;
    var p := Parent(idx);
    var t := Swap(s, idx, p);
    Flip(cmp, s[idx], s[p]);
    forall i: nat | i != p
      ensures InOrder(t, i, cmp)
    {
      if 0 < i < |s| {
        assert i != idx ==> InOrder(s, i, cmp);
        if Parent(i) == p && i != idx {
          Chain(cmp, s[idx], s[p], s[i]);
        }
      }
    }
    assert Bridged(t, p, cmp) by {
      assert InOrder(s, p, cmp);
      forall i | 0 < i < |t| && 0 < p && Parent(i) == p
        ensures cmp(t[Parent(p)], t[i]) <= 0
      {
        assert i != idx ==> InOrder(s, i, cmp);
        if i != idx {
          Chain(cmp, s[Parent(p)], s[p], s[i]);
        }
      }
    }
  }

  lemma RisenIsHeap<T(!new)>(s: seq<T>, idx: nat, cmp: Comparator<T>)
    requires RisesAt(s, idx, cmp) && (idx == 0 || cmp(s[Parent(idx)], s[idx]) <= 0)
    ensures IsHeap(s, cmp)
  {
    forall i: nat
      ensures InOrder(s, i, cmp)
    {
      if i == idx {
      }
    }
  }

  /** A heap but for the value at `idx`, which may be larger than its children. */
  ghost predicate SinksAt<T(!new)>(s: seq<T>, idx: nat, cmp: Comparator<T>) {
    && idx < |s|
    && (forall i: nat :: 0 < i && Parent(i) != idx ==> InOrder(s, i, cmp))
    && Bridged(s, idx, cmp)
  }

  /** `c` is a child of `idx` that is not larger than its other child. */
  ghost predicate IsSmallerChild<T(!new)>(s: seq<T>, idx: nat, c: nat, cmp: Comparator<T>) {
    && 0 < c < |s| && Parent(c) == idx
    && (forall i :: 0 < i < |s| && Parent(i) == idx && i != c ==> cmp(s[c], s[i]) <= 0)
  }

  lemma {:induction false} Sink<T(!new)>(s: seq<T>, idx: nat, c: nat, cmp: Comparator<T>)
    requires SinksAt(s, idx, cmp) && IsSmallerChild(s, idx, c, cmp) && cmp(s[c], s[idx]) <= 0
    ensures SinksAt(Swap(s, idx, c), c, cmp)
  {
    var t := Swap(s, idx, c);
    forall i: nat | 0 < i && Parent(i) != c
      ensures InOrder(t, i, cmp)
    {
      assert Parent(i) != idx ==> InOrder(s, i, cmp);
    }
    forall i | 0 < i < |t| && Parent(i) == c
      ensures cmp(t[Parent(c)], t[i]) <= 0
    {
      assert InOrder(s, i, cmp);
    }
  }

  lemma {:induction false} SunkIsHeap<T(!new)>(s: seq<T>, idx: nat, c: nat, cmp: Comparator<T>)
    requires IsPreorder(cmp) && SinksAt(s, idx, cmp) && IsSmallerChild(s, idx, c, cmp) && cmp(s[c], s[idx]) > 0
    ensures IsHeap(s, cmp)
  {
    hide IsPreorder;
    Flip(cmp, s[idx], s[c]);
    forall i: nat
      ensures InOrder(s, i, cmp)
    {
      if 0 < i < |s| && Parent(i) == idx && i != c {
        Chain(cmp, s[idx], s[c], s[i]);
      }
    }
  }

  /** At the bottom nothing can sink. */
  lemma {:induction false} BottomIsHeap<T(!new)>(s: seq<T>, idx: nat, cmp: Comparator<T>)
    requires SinksAt(s, idx, cmp) && |s| <= 2 * idx + 1
    ensures IsHeap(s, cmp)
  {
    forall i: nat
      ensures InOrder(s, i, cmp)
    {
      if 0 < i < |s| {
        assert Parent(i) != idx;
      }
    }
  }
}
