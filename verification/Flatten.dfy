/** Flattening an object graph into a numbered list. */
module Flatten {
  import opened Bytes
  import opened ObjectHeap

  /** The list of objects, the number under which each is known, and the objects made unique so far. */
  datatype FlatState = FlatState(objlist: seq<Ref>, objtable: map<Ref, nat>, uniquing: set<Ref>)

  /** The object gets the next number, as a 32-bit integer, unless it is already known under one. */
  function Append(o: Object, x: Ref, st: FlatState): FlatState {
    FlatState(
      st.objlist + [x],
      if x in st.objtable then st.objtable else st.objtable[x := |st.objlist| % TWO32],
      if o.IsUniqued() then st.uniquing + {x} else st.uniquing)
  }

  /** The state after flattening an object. The uniquing set compares addresses. */
  ghost function FlattenObject(h: Heap, rank: map<Ref, nat>, x: Ref, st: FlatState): FlatState
    requires IsAcyclic(h, rank) && x in h
    decreases rank[x], 0
  {
    if h[x].IsUniqued() && x in st.uniquing then st
    else FlattenAll(h, rank, rank[x], h[x].Children(), Append(h[x], x, st))
  }

  /** The state after flattening objects one after the other. */
  ghost function FlattenAll(h: Heap, rank: map<Ref, nat>, bound: nat, xs: seq<Ref>, st: FlatState): FlatState
    requires IsAcyclic(h, rank) && forall x :: x in xs ==> x in h && rank[x] < bound
    decreases bound, 0, |xs|
  {
    if xs == [] then st
    else FlattenObject(h, rank, xs[|xs| - 1], FlattenAll(h, rank, bound, xs[..|xs| - 1], st))
  }

  lemma FlattenNothing(h: Heap, rank: map<Ref, nat>, bound: nat, xs: seq<Ref>, st: FlatState)
    requires IsAcyclic(h, rank) && |xs| == 0
    ensures FlattenAll(h, rank, bound, xs, st) == st
  {
  }

  /** One more object of the list. */
  lemma {:induction false} FlattenNext(h: Heap, rank: map<Ref, nat>, bound: nat, xs: seq<Ref>, n: nat, st: FlatState)
    requires IsAcyclic(h, rank) && (forall x :: x in xs ==> x in h && rank[x] < bound) && n < |xs|
    ensures FlattenAll(h, rank, bound, xs[..n + 1], st) == FlattenObject(h, rank, xs[n], FlattenAll(h, rank, bound, xs[..n], st))
  {
    assert xs[..n + 1][..n] == xs[..n];
  }

  /** An object that is new: it is added, and then its children. */
  lemma {:induction false} FlattenNew(h: Heap, rank: map<Ref, nat>, x: Ref, st: FlatState)
    requires IsAcyclic(h, rank) && x in h && !(h[x].IsUniqued() && x in st.uniquing)
    ensures FlattenObject(h, rank, x, st) == FlattenAll(h, rank, rank[x], h[x].Children(), Append(h[x], x, st))
  {
  }

  /** An object that is made unique for the second time is left out. */
  lemma {:induction false} FlattenKnown(h: Heap, rank: map<Ref, nat>, x: Ref, st: FlatState)
    requires IsAcyclic(h, rank) && x in h && h[x].IsUniqued() && x in st.uniquing
    ensures FlattenObject(h, rank, x, st) == st
  {
  }

  lemma ChildrenAreBelow(h: Heap, rank: map<Ref, nat>, x: Ref)
    requires IsAcyclic(h, rank) && x in h
    ensures rank.Keys == h.Keys && forall c :: c in h[x].Children() ==> c in h && rank[c] < rank[x]
  {
  }

  /** Adding to a set changes its size only if it adds something. */
  lemma AddedIsCounted(s: set<Ref>, x: Ref)
    ensures |s + {x}| == |s| <==> x in s
  {
    if x in s {
      assert s + {x} == s;
    }
  }

  /** What the recursion keeps. Containers that are still being flattened are `open`. */
  ghost predicate Inv(h: Heap, st: FlatState, open: set<Ref>) {
    && (forall x :: x in st.uniquing ==> x in st.objtable)
    && (forall i :: 0 <= i < |st.objlist| ==> st.objlist[i] in st.objtable)
    && (|st.objlist| <= TWO32 ==>
          forall x :: x in st.objtable ==> st.objtable[x] < |st.objlist| && st.objlist[st.objtable[x]] == x)
    && (forall x :: x in st.objtable ==> x in h)
    && (forall x :: x in st.objtable && x !in open ==> ChildrenKnown(h, st, x))
  }

  ghost predicate ChildrenKnown(h: Heap, st: FlatState, x: Ref) {
    x in h && forall c :: c in h[x].Children() ==> c in st.objtable
  }

  /** Numbers are never reassigned and the list only grows. */
  ghost predicate Extends(st: FlatState, later: FlatState) {
    && st.objlist <= later.objlist
    && (forall x :: x in st.objtable ==> x in later.objtable && later.objtable[x] == st.objtable[x])
  }

  lemma {:induction false} AppendKeepsInv(h: Heap, o: Object, x: Ref, st: FlatState, open: set<Ref>)
    requires Inv(h, st, open) && x in h && h[x] == o
    ensures Inv(h, Append(o, x, st), open + {x})
    ensures Extends(st, Append(o, x, st))
  {
  }

  lemma {:induction false} FlattenKeepsInv(h: Heap, rank: map<Ref, nat>, x: Ref, st: FlatState, open: set<Ref>)
    requires IsAcyclic(h, rank) && x in h && Inv(h, st, open)
    ensures var st' := FlattenObject(h, rank, x, st);
            Inv(h, st', open) && Extends(st, st') && x in st'.objtable
    decreases rank[x], 0
  {
    if !(h[x].IsUniqued() && x in st.uniquing) {
      AppendKeepsInv(h, h[x], x, st, open);
      var st1 := Append(h[x], x, st);
      FlattenAllKeepsInv(h, rank, rank[x], h[x].Children(), st1, open + {x});
      CloseObject(h, FlattenAll(h, rank, rank[x], h[x].Children(), st1), open, x);
    }
  }

  lemma {:induction false} CloseObject(h: Heap, st: FlatState, open: set<Ref>, x: Ref)
    requires Inv(h, st, open + {x}) && ChildrenKnown(h, st, x)
    ensures Inv(h, st, open)
  {
  }

  lemma {:induction false} FlattenAllKeepsInv(h: Heap, rank: map<Ref, nat>, bound: nat, xs: seq<Ref>, st: FlatState, open: set<Ref>)
    requires IsAcyclic(h, rank) && (forall x :: x in xs ==> x in h && rank[x] < bound) && Inv(h, st, open)
    ensures var st' := FlattenAll(h, rank, bound, xs, st);
            Inv(h, st', open) && Extends(st, st') && (forall x :: x in xs ==> x in st'.objtable)
    decreases bound, 0, |xs|
  {
    if xs != [] {
      var n := |xs| - 1;
      FlattenAllKeepsInv(h, rank, bound, xs[..n], st, open);
      FlattenKeepsInv(h, rank, xs[n], FlattenAll(h, rank, bound, xs[..n], st), open);
      assert forall x :: x in xs ==> x in xs[..n] || x == xs[n];
    }
  }

  /** Flattening a root object from nothing. */
  ghost function FlattenRoot(h: Heap, rank: map<Ref, nat>, root: Ref): FlatState
    requires IsAcyclic(h, rank) && root in h
  {
    FlattenObject(h, rank, root, FlatState([], map[], {}))
  }

  /** Every number is that of its object, every object reachable from the root has one, and the root's is 0. */
  lemma {:induction false} FlattenIsComplete(h: Heap, rank: map<Ref, nat>, root: Ref)
    requires IsAcyclic(h, rank) && root in h
    ensures var st := FlattenRoot(h, rank, root);
            && |st.objlist| > 0 && st.objlist[0] == root && root in st.objtable && st.objtable[root] == 0
            && (forall x :: Reaches(h, root, x) ==> x in st.objtable)
            && (|st.objlist| <= TWO32 ==>
                  forall x :: x in st.objtable ==> st.objtable[x] < |st.objlist| && st.objlist[st.objtable[x]] == x)
  {
    var empty := FlatState([], map[], {});
    FlattenKeepsInv(h, rank, root, empty, {});
    var st := FlattenRoot(h, rank, root);
    var st1 := Append(h[root], root, empty);
    AppendKeepsInv(h, h[root], root, empty, {});
    FlattenAllKeepsInv(h, rank, rank[root], h[root].Children(), st1, {root});
    assert Extends(st1, st);
    forall x | Reaches(h, root, x)
      ensures x in st.objtable
    {
      var p :| IsChain(h, p) && p[0] == root && p[|p| - 1] == x;
      ChainIsKnown(h, st, p);
    }
  }

  lemma {:induction false} ChainIsKnown(h: Heap, st: FlatState, p: seq<Ref>)
    requires IsChain(h, p) && Inv(h, st, {}) && p[0] in st.objtable
    ensures p[|p| - 1] in st.objtable
    decreases |p|
  {
    if |p| > 1 {
      ChainIsKnown(h, st, p[..|p| - 1]);
      assert ChildrenKnown(h, st, p[|p| - 2]);
    }
  }

  /** What flattening guarantees of a list: sound objects whose contained objects all have numbers. */
  ghost predicate IsListed(h: Heap, objtable: map<Ref, nat>, xs: seq<Ref>) {
    forall x :: x in xs ==> x in h && h[x].IsSound() && forall c :: c in h[x].Children() ==> c in objtable
  }

  lemma {:induction false} FlattenLists(h: Heap, rank: map<Ref, nat>, root: Ref)
    requires IsAcyclic(h, rank) && root in h
    ensures var st := FlattenRoot(h, rank, root);
            IsListed(h, st.objtable, st.objlist) && forall x :: x in st.objlist ==> x in st.objtable
  {
    FlattenKeepsInv(h, rank, root, FlatState([], map[], {}), {});
    var st := FlattenRoot(h, rank, root);
    forall x | x in st.objlist
      ensures ChildrenKnown(h, st, x)
    {
      var i :| 0 <= i < |st.objlist| && st.objlist[i] == x;
    }
  }

  /** Only objects reachable from the root are listed. */
  lemma {:induction false} FlattenListsReachable(h: Heap, rank: map<Ref, nat>, root: Ref, x: Ref, st: FlatState)
    requires IsAcyclic(h, rank) && Reaches(h, root, x) && x in h
    requires forall y :: y in st.objlist ==> Reaches(h, root, y)
    ensures forall y :: y in FlattenObject(h, rank, x, st).objlist ==> Reaches(h, root, y)
    decreases rank[x], 0
  {
    if !(h[x].IsUniqued() && x in st.uniquing) {
      forall c | c in h[x].Children()
        ensures Reaches(h, root, c)
      {
        ReachesChild(h, root, x, c);
      }
      FlattenAllListsReachable(h, rank, rank[x], root, h[x].Children(), Append(h[x], x, st));
    }
  }

  lemma {:induction false} FlattenAllListsReachable(h: Heap, rank: map<Ref, nat>, bound: nat, root: Ref, xs: seq<Ref>,
                                                    st: FlatState)
    requires IsAcyclic(h, rank) && forall x :: x in xs ==> x in h && rank[x] < bound && Reaches(h, root, x)
    requires forall y :: y in st.objlist ==> Reaches(h, root, y)
    ensures forall y :: y in FlattenAll(h, rank, bound, xs, st).objlist ==> Reaches(h, root, y)
    decreases bound, 0, |xs|
  {
    if xs != [] {
      var n := |xs| - 1;
      FlattenAllListsReachable(h, rank, bound, root, xs[..n], st);
      FlattenListsReachable(h, rank, root, xs[n], FlattenAll(h, rank, bound, xs[..n], st));
    }
  }

  /** The three collections that flattening updates. */
  class FlatLists {
    var objlist: seq<Ref>
    var objtable: map<Ref, nat>
    var uniquingset: set<Ref>

    ghost function Lists(): FlatState
      reads this
    {
      FlatState(objlist, objtable, uniquingset)
    }

    constructor ()
      ensures Lists() == FlatState([], map[], {})
    {
      objlist, objtable, uniquingset := [], map[], {};
    }

    method FlattenPlist(h: Heap, ghost rank: map<Ref, nat>, plist: Ref)
      requires IsAcyclic(h, rank) && plist in h
      modifies this
      ensures Lists() == FlattenObject(h, rank, plist, old(Lists()))
      decreases rank[plist]
    {
      hide IsAcyclic, FlattenAll, FlattenObject, Object.Children;
      ghost var was := Lists();
      ChildrenAreBelow(h, rank, plist);
      AddedIsCounted(uniquingset, plist);
      var o := h[plist];
      if o.IsUniqued() {
        var before := |uniquingset|;
        uniquingset := uniquingset + {plist};
        var after := |uniquingset|;
        if after == before {
          assert uniquingset == was.uniquing;
          FlattenKnown(h, rank, plist, was);
          return;
        }
      }
      var refnum := |objlist| % TWO32;
      objlist := objlist + [plist];
      if plist !in objtable {
        objtable := objtable[plist := refnum];
      }
      ghost var st := Lists();
      FlattenNew(h, rank, plist, was);
      var list := o.Children();
      FlattenNothing(h, rank, rank[plist], list[..0], st);
      for idx := 0 to |list|
        invariant Lists() == FlattenAll(h, rank, rank[plist], list[..idx], st)
      {
        FlattenNext(h, rank, rank[plist], list, idx, st);
        FlattenPlist(h, rank, list[idx]);
      }
      assert list[..|list|] == list;
    }
  }
}
