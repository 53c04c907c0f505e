/** When an object graph can be parsed at all: exactly when what is reachable is well formed and has no cycle. */
module Cycles {
  import opened Bytes
  import opened PropertyList
  import opened ObjectGraph

  ghost predicate Edge(g: Graph, a: nat, b: nat) {
    g(a).Branch? && b in g(a).children
  }

  ghost predicate IsPath(g: Graph, p: seq<nat>) {
    p != [] && forall i :: 0 < i < |p| ==> Edge(g, p[i - 1], p[i])
  }

  ghost predicate NoRepeats(p: seq<nat>) {
    forall i, j :: 0 <= i < j < |p| ==> p[i] != p[j]
  }

  /** No path from `offset` meets an object twice. */
  ghost predicate AcyclicFrom(g: Graph, offset: nat) {
    forall p :: IsPath(g, p) && p[0] == offset ==> NoRepeats(p)
  }

  /** A node that can be read and, if it is a dictionary, has primitive keys. */
  ghost predicate NodeIsSound(g: Graph, offset: nat) {
    && g(offset) != Bad
    && (g(offset).Branch? ==>
          forall i :: 0 <= i < g(offset).KeyCount() ==> KeyIsSound(g, g(offset).children[i]))
  }

  ghost predicate KeyIsSound(g: Graph, offset: nat) {
    g(offset).Leaf? && IsPrimitive(g(offset).value)
  }

  /** Every object that a path from `offset` reaches is sound, and no container is used as a key. */
  ghost predicate SoundFrom(g: Graph, offset: nat) {
    forall p :: IsPath(g, p) && p[0] == offset ==> NodeIsSound(g, p[|p| - 1])
  }

  /** All objects stand below `bound`. */
  ghost predicate Bounded(g: Graph, bound: nat) {
    forall offset: nat :: g(offset) != Bad ==> offset < bound
  }

  lemma {:induction false} SetOfRange(s: set<nat>, lo: nat, hi: nat)
    requires lo <= hi && forall x :: x in s ==> lo <= x < hi
    ensures |s| <= hi - lo
    decreases hi
  {
    if lo < hi {
      SetOfRange(s - {hi - 1}, lo, hi - 1);
    } else {
      assert forall x :: x !in s;
      assert s == {};
    }
  }

  /** A sequence without repetitions is no longer than the range its elements come from. */
  lemma {:induction false} PigeonHole(p: seq<nat>, bound: nat)
    requires NoRepeats(p) && forall x :: x in p ==> x < bound
    ensures |p| <= bound
  {
    Distinct(p);
    SetOfRange(Elements(p), 0, bound);
  }

  function Elements(p: seq<nat>): (s: set<nat>)
    ensures forall x :: x in s <==> x in p
  {
    if p == [] then {}
    else
      assert p == p[..|p| - 1] + [p[|p| - 1]];
      Elements(p[..|p| - 1]) + {p[|p| - 1]}
  }

  lemma {:induction false} Distinct(p: seq<nat>)
    requires NoRepeats(p)
    ensures |Elements(p)| == |p|
  {
    if p != [] {
      Distinct(p[..|p| - 1]);
    }
  }

  /** A parsed container leaves its children one level less. */
  lemma {:induction false} ChildDenotes(eq: Equality, g: Graph, offset: nat, fuel: nat, i: nat)
    requires Denote(eq, g, offset, fuel).Some? && g(offset).Branch? && i < |g(offset).children|
    ensures fuel > 0 && Denote(eq, g, g(offset).children[i], fuel - 1).Some?
    ensures i < g(offset).KeyCount() ==> IsPrimitive(Denote(eq, g, g(offset).children[i], fuel - 1).value)
  {
    KidDenotes(eq, g, g(offset).children, g(offset).KeyCount(), fuel - 1, i);
  }

  lemma {:induction false} KidDenotes(eq: Equality, g: Graph, children: seq<nat>, keys: nat, fuel: nat, i: nat)
    requires DenoteKids(eq, g, children, keys, fuel).Some? && i < |children|
    ensures Denote(eq, g, children[i], fuel).Some?
    ensures i < keys ==> IsPrimitive(Denote(eq, g, children[i], fuel).value)
    decreases children
  {
    if i < |children| - 1 {
      KidDenotes(eq, g, children[..|children| - 1], keys, fuel, i);
    }
  }

  /** Every step of a path uses up one level. */
  lemma {:induction false} PathUsesFuel(eq: Equality, g: Graph, p: seq<nat>, fuel: nat)
    requires IsPath(g, p) && Denote(eq, g, p[0], fuel).Some?
    ensures |p| - 1 <= fuel && Denote(eq, g, p[|p| - 1], fuel - (|p| - 1)).Some?
    decreases |p|
  {
    if |p| > 1 {
      var q := p[..|p| - 1];
      SubPath(g, p, 0, |p| - 2);
      assert p[0..|p| - 1] == q;
      PathUsesFuel(eq, g, q, fuel);
      assert Edge(g, p[|p| - 2], p[|p| - 1]);
      var i :| 0 <= i < |g(p[|p| - 2]).children| && g(p[|p| - 2]).children[i] == p[|p| - 1];
      ChildDenotes(eq, g, p[|p| - 2], fuel - (|q| - 1), i);
    }
  }

  /** An object that reaches itself cannot be parsed, whatever the depth. */
  lemma {:induction false} CycleNeverParses(eq: Equality, g: Graph, p: seq<nat>, fuel: nat)
    requires IsPath(g, p) && |p| > 1 && p[0] == p[|p| - 1]
    ensures Denote(eq, g, p[0], fuel).None?
  {
    if Denote(eq, g, p[0], fuel).Some? {
      PathUsesFuel(eq, g, p, fuel);
      CycleNeverParses(eq, g, p, fuel - (|p| - 1));
    }
  }

  /** A path through sound objects without repetitions is no longer than there are offsets. */
  lemma {:induction false} PathIsShort(g: Graph, p: seq<nat>, bound: nat)
    requires Bounded(g, bound) && IsPath(g, p) && SoundFrom(g, p[0]) && NoRepeats(p)
    ensures |p| <= bound
  {
    forall x | x in p
      ensures x < bound
    {
      var i :| 0 <= i < |p| && p[i] == x;
      var q := p[0..i + 1];
      SubPath(g, p, 0, i);
      assert NodeIsSound(g, q[|q| - 1]);
    }
    PigeonHole(p, bound);
  }

  /** Parsing down an acyclic, sound graph needs at most as many levels as there are offsets left. */
  lemma {:induction false} AcyclicParses(eq: Equality, g: Graph, p: seq<nat>, bound: nat)
    requires Bounded(g, bound) && IsPath(g, p) && SoundFrom(g, p[0]) && AcyclicFrom(g, p[0])
    ensures |p| <= bound && Denote(eq, g, p[|p| - 1], bound + 1 - |p|).Some?
    decreases bound + 1 - |p|
  {
    var offset := p[|p| - 1];
    PathIsShort(g, p, bound);
    assert NodeIsSound(g, offset);
    var node := g(offset);
    if node.Branch? {
      forall i | 0 <= i < |node.children|
        ensures Denote(eq, g, node.children[i], bound - |p|).Some?
      {
        ExtendPath(g, p, node.children[i]);
        AcyclicParses(eq, g, p + [node.children[i]], bound);
      }
      AllKidsDenote(eq, g, node.children, node.KeyCount(), bound - |p|);
    }
  }

  lemma {:induction false} AllKidsDenote(eq: Equality, g: Graph, children: seq<nat>, keys: nat, fuel: nat)
    requires forall i :: 0 <= i < |children| ==> Denote(eq, g, children[i], fuel).Some?
    requires forall i :: 0 <= i < |children| && i < keys ==> IsPrimitive(Denote(eq, g, children[i], fuel).value)
    ensures DenoteKids(eq, g, children, keys, fuel).Some?
  {
    if children != [] {
      AllKidsDenote(eq, g, children[..|children| - 1], keys, fuel);
    }
  }

  /** What is parsed is sound all the way down. */
  lemma {:induction false} ParsedIsSound(eq: Equality, g: Graph, p: seq<nat>, fuel: nat)
    requires IsPath(g, p) && Denote(eq, g, p[0], fuel).Some?
    ensures NodeIsSound(g, p[|p| - 1])
  {
    PathUsesFuel(eq, g, p, fuel);
    var offset, left := p[|p| - 1], fuel - (|p| - 1);
    if g(offset).Branch? {
      forall i | 0 <= i < g(offset).KeyCount()
        ensures KeyIsSound(g, g(offset).children[i])
      {
        ChildDenotes(eq, g, offset, left, i);
      }
    }
  }

  /** A path that meets an object twice contains a path from that object to itself. */
  lemma {:induction false} ParsedIsAcyclic(eq: Equality, g: Graph, p: seq<nat>, fuel: nat)
    requires IsPath(g, p) && Denote(eq, g, p[0], fuel).Some?
    ensures NoRepeats(p)
  {
    forall i, j | 0 <= i < j < |p|
      ensures p[i] != p[j]
    {
      if p[i] == p[j] {
        SubPath(g, p, 0, i);
        PathUsesFuel(eq, g, p[0..i + 1], fuel);
        SubPath(g, p, i, j);
        CycleNeverParses(eq, g, p[i..j + 1], fuel - i);
      }
    }
  }

  lemma {:induction false} SubPath(g: Graph, p: seq<nat>, i: nat, j: nat)
    requires IsPath(g, p) && i <= j < |p|
    ensures IsPath(g, p[i..j + 1])
  {
    var q := p[i..j + 1];
    forall k | 0 < k < |q|
      ensures Edge(g, q[k - 1], q[k])
    {
      assert Edge(g, p[i + k - 1], p[i + k]);
    }
  }

  lemma {:induction false} ExtendPath(g: Graph, p: seq<nat>, next: nat)
    requires IsPath(g, p) && Edge(g, p[|p| - 1], next)
    ensures IsPath(g, p + [next])
  {
    var q := p + [next];
    forall k | 0 < k < |q|
      ensures Edge(g, q[k - 1], q[k])
    {
      if k < |p| {
        assert Edge(g, p[k - 1], p[k]);
      }
    }
  }

  /** The theorem: an object parses if and only if all it reaches is sound and nothing it reaches is on a cycle. */
  lemma {:induction false} ParsesIffAcyclic(eq: Equality, g: Graph, offset: nat, bound: nat)
    requires Bounded(g, bound)
    ensures Parses(eq, g, offset) <==> SoundFrom(g, offset) && AcyclicFrom(g, offset)
  {
    if Parses(eq, g, offset) {
      var fuel: nat :| Denote(eq, g, offset, fuel).Some?;
      forall p | IsPath(g, p) && p[0] == offset
        ensures NodeIsSound(g, p[|p| - 1]) && NoRepeats(p)
      {
        ParsedIsSound(eq, g, p, fuel);
        ParsedIsAcyclic(eq, g, p, fuel);
      }
    }
    if SoundFrom(g, offset) && AcyclicFrom(g, offset) {
      AcyclicParses(eq, g, [offset], bound);
    }
  }
}
