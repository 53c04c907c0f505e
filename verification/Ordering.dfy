/** Comparators: total preorders given by the sign of an integer. */
module Ordering {
  type Comparator<!T> = (T, T) -> int

  /** What callers of a comparator may rely on. Ties (0) between different values are allowed. */
  ghost predicate IsPreorder<T(!new)>(cmp: Comparator<T>) {
    && (forall a, b :: cmp(a, b) < 0 <==> cmp(b, a) > 0)
    && (forall a, b, c :: cmp(a, b) <= 0 && cmp(b, c) <= 0 ==> cmp(a, c) <= 0)
  }

  /** The elements from `lo` up to `hi` are in order. */
  ghost predicate Sorted<T(!new)>(s: seq<T>, lo: nat, hi: nat, cmp: Comparator<T>)
    requires lo <= hi <= |s|
  {
    forall i, j :: lo <= i < j < hi ==> cmp(s[i], s[j]) <= 0
  }

  lemma Flip<T(!new)>(cmp: Comparator<T>, a: T, b: T)
    requires IsPreorder(cmp)
    ensures cmp(a, b) < 0 <==> cmp(b, a) > 0
    ensures cmp(a, b) == 0 <==> cmp(b, a) == 0
  {
    assert cmp(b, a) < 0 <==> cmp(a, b) > 0;
  }

  lemma Chain<T(!new)>(cmp: Comparator<T>, a: T, b: T, c: T)
    requires IsPreorder(cmp) && cmp(a, b) <= 0 && cmp(b, c) <= 0
    ensures cmp(a, c) <= 0
  {
  }

  /** The elements of a sequence that compare equal to `x`, in order. */
  function Ties<T>(s: seq<T>, x: T, cmp: Comparator<T>): (r: seq<T>) {
    if s == [] then [] else (if cmp(s[0], x) == 0 then [s[0]] else []) + Ties(s[1..], x, cmp)
  }

  function Swap<T>(s: seq<T>, i: nat, j: nat): (r: seq<T>)
    requires i < |s| && j < |s|
    ensures |r| == |s|
  {
    s[i := s[j]][j := s[i]]
  }

  /** Two elements that are not in order are not both ties of a third. */
  lemma {:induction false} DisorderIsNoTie<T(!new)>(p: T, q: T, x: T, cmp: Comparator<T>)
    requires IsPreorder(cmp) && cmp(q, p) < 0
    ensures cmp(p, x) != 0 || cmp(q, x) != 0
  {
    hide IsPreorder;
    Flip(cmp, q, p);
    if cmp(p, x) == 0 && cmp(q, x) == 0 {
      Flip(cmp, q, x);
      Chain(cmp, p, x, q);
    }
  }

  /** Swapping two neighbours that are not in order reorders no ties. */
  lemma {:induction false} SwapKeepsTies<T(!new)>(s: seq<T>, i: nat, x: T, cmp: Comparator<T>)
    requires IsPreorder(cmp) && i + 1 < |s| && cmp(s[i + 1], s[i]) < 0
    ensures Ties(Swap(s, i, i + 1), x, cmp) == Ties(s, x, cmp)
  {
    hide IsPreorder;
    var t := Swap(s, i, i + 1);
    if i == 0 {
      DisorderIsNoTie(s[0], s[1], x, cmp);
      assert t[1..][1..] == s[1..][1..];
    } else {
      SwapKeepsTies(s[1..], i - 1, x, cmp);
      assert t[1..] == Swap(s[1..], i - 1, i);
    }
  }

  lemma {:induction false} SwapKeepsElements<T>(s: seq<T>, i: nat, j: nat)
    requires i < |s| && j < |s|
    ensures multiset(Swap(s, i, j)) == multiset(s)
  {
    var t := s[i := s[j]];
    assert multiset(t) == multiset(s) - multiset{s[i]} + multiset{s[j]};
    assert multiset(t[j := s[i]]) == multiset(t) - multiset{t[j]} + multiset{s[i]};
  }
}
