/** How often an object is written: values that are made unique once, all others once for every way that leads to them. */
module Sharing {
  import opened Bytes
  import opened ObjectHeap
  import opened Flatten

  /** How many ways lead down from one object to another. */
  ghost function Ways(h: Heap, rank: map<Ref, nat>, x: Ref, y: Ref): nat
    requires IsAcyclic(h, rank) && x in h
    decreases rank[x], 0
  {
    (if x == y then 1 else 0) + WaysOfAll(h, rank, rank[x], h[x].Children(), y)
  }

  ghost function WaysOfAll(h: Heap, rank: map<Ref, nat>, bound: nat, xs: seq<Ref>, y: Ref): nat
    requires IsAcyclic(h, rank) && forall x :: x in xs ==> x in h && rank[x] < bound
    decreases bound, 0, |xs|
  {
    if xs == [] then 0
    else WaysOfAll(h, rank, bound, xs[..|xs| - 1], y) + Ways(h, rank, xs[|xs| - 1], y)
  }

  /** Strings, numbers, dates and data. */
  predicate IsShared(o: Object) {
    o.Simple? &&
    match o.value
    case String(_) => true
    case Int(_) => true
    case Int128(_, _) => true
    case Real32(_) => true
    case Real64(_) => true
    case Date(_) => true
    case Data(_) => true
    case _ => false
  }

  lemma {:induction false} SharedIsUniqued(o: Object)
    ensures o.IsUniqued() <==> IsShared(o)
    ensures IsShared(o) ==> o.Children() == []
  {
  }

  lemma {:induction false} AppendAdds(o: Object, x: Ref, st: FlatState, y: Ref)
    ensures multiset(Append(o, x, st).objlist)[y] == multiset(st.objlist)[y] + if x == y then 1 else 0
    ensures y in Append(o, x, st).uniquing <==> y in st.uniquing || (o.IsUniqued() && x == y)
  {
  }

  /** Flattening an object adds one entry for each way from it to an object that is not made unique. */
  lemma {:induction false} FlattenAdds(h: Heap, rank: map<Ref, nat>, x: Ref, st: FlatState, y: Ref)
    requires IsAcyclic(h, rank) && x in h && y in h && !IsShared(h[y])
    ensures multiset(FlattenObject(h, rank, x, st).objlist)[y] == multiset(st.objlist)[y] + Ways(h, rank, x, y)
    decreases rank[x], 0
  {
    hide FlattenObject, FlattenAll, Append;
    SharedIsUniqued(h[x]);
    if h[x].IsUniqued() && x in st.uniquing {
      FlattenKnown(h, rank, x, st);
    } else {
      FlattenNew(h, rank, x, st);
      AppendAdds(h[x], x, st, y);
      FlattenAllAdds(h, rank, rank[x], h[x].Children(), Append(h[x], x, st), y);
    }
  }

  lemma {:induction false} FlattenAllAdds(h: Heap, rank: map<Ref, nat>, bound: nat, xs: seq<Ref>, st: FlatState, y: Ref)
    requires IsAcyclic(h, rank) && (forall x :: x in xs ==> x in h && rank[x] < bound) && y in h && !IsShared(h[y])
    ensures multiset(FlattenAll(h, rank, bound, xs, st).objlist)[y] == multiset(st.objlist)[y] + WaysOfAll(h, rank, bound, xs, y)
    decreases bound, 0, |xs|
  {
    if xs != [] {
      var n := |xs| - 1;
      FlattenAllAdds(h, rank, bound, xs[..n], st, y);
      FlattenAdds(h, rank, xs[n], FlattenAll(h, rank, bound, xs[..n], st), y);
    }
  }

  /** Of the objects made unique each is in the list once if it is in the set, and not otherwise. */
  ghost predicate ListedOnce(h: Heap, st: FlatState) {
    forall y :: y in h && IsShared(h[y]) ==> multiset(st.objlist)[y] == if y in st.uniquing then 1 else 0
  }

  lemma {:induction false} FlattenListsOnce(h: Heap, rank: map<Ref, nat>, x: Ref, st: FlatState)
    requires IsAcyclic(h, rank) && x in h && ListedOnce(h, st)
    ensures ListedOnce(h, FlattenObject(h, rank, x, st))
    decreases rank[x], 0
  {
    hide IsAcyclic, FlattenObject, FlattenAll, Append;
    ChildrenAreBelow(h, rank, x);
    SharedIsUniqued(h[x]);
    if h[x].IsUniqued() && x in st.uniquing {
      FlattenKnown(h, rank, x, st);
    } else {
      FlattenNew(h, rank, x, st);
      forall y | y in h && IsShared(h[y])
        ensures multiset(Append(h[x], x, st).objlist)[y] == if y in Append(h[x], x, st).uniquing then 1 else 0
      {
        AppendAdds(h[x], x, st, y);
      }
      FlattenAllListsOnce(h, rank, rank[x], h[x].Children(), Append(h[x], x, st));
    }
  }

  lemma {:induction false} FlattenAllListsOnce(h: Heap, rank: map<Ref, nat>, bound: nat, xs: seq<Ref>, st: FlatState)
    requires IsAcyclic(h, rank) && (forall x :: x in xs ==> x in h && rank[x] < bound) && ListedOnce(h, st)
    ensures ListedOnce(h, FlattenAll(h, rank, bound, xs, st))
    decreases bound, 0, |xs|
  {
    if xs != [] {
      var n := |xs| - 1;
      FlattenAllListsOnce(h, rank, bound, xs[..n], st);
      FlattenListsOnce(h, rank, xs[n], FlattenAll(h, rank, bound, xs[..n], st));
    }
  }

  /** The list of a root: strings, numbers, dates and data once, everything else as often as there are ways to it. */
  lemma {:induction false} ListedAsOftenAs(h: Heap, rank: map<Ref, nat>, root: Ref, y: Ref)
    requires IsAcyclic(h, rank) && root in h && |FlattenRoot(h, rank, root).objlist| <= TWO32 && Reaches(h, root, y) && y in h
    ensures multiset(FlattenRoot(h, rank, root).objlist)[y] == if IsShared(h[y]) then 1 else Ways(h, rank, root, y)
  {
    hide FlattenObject, IsAcyclic, Ways;
    var empty, st := FlatState([], map[], {}), FlattenRoot(h, rank, root);
    if IsShared(h[y]) {
      FlattenIsComplete(h, rank, root);
      assert y in st.objlist;
      FlattenListsOnce(h, rank, root, empty);
    } else {
      FlattenAdds(h, rank, root, empty, y);
    }
  }
}
