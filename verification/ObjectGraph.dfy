/**
  What an object graph means, independently of how the reader walks it: unfold the references to any
  finite depth. Nothing is remembered between objects and no path is tracked, so this is the reference
  against which the reader's memo table and its cycle check are measured.
 */
module ObjectGraph {
  import opened Bytes
  import opened PropertyList

  datatype Kind = ArrayKind | SetKind | DictKind

  /** One object: unreadable, a finished value, or a container of the objects at some offsets. */
  datatype Node = Bad | Leaf(value: PList) | Branch(kind: Kind, children: seq<nat>) {
    /** How many of the first children have to be primitive: the keys of a dictionary. */
    function KeyCount(): nat
      requires Branch?
    {
      if kind.DictKind? then |children| / 2 else 0
    }
  }

  /** The object at every offset. */
  type Graph = nat -> Node

  /** The container made of the parsed children: a dictionary's are its keys, then its values. */
  function Build(eq: Equality, kind: Kind, kids: seq<PList>): (v: PList)
    ensures !IsPrimitive(v)
  {
    match kind
    case ArrayKind => Array(kids)
    case SetKind => Set(AddMembers(eq, kids))
    case DictKind =>
      var n := |kids| / 2;
      var (keys, values) := AddPairs(eq, kids[..n], kids[n..2 * n]);
      Dict(keys, values)
  }

  /** The value at an offset, if unfolding references at most `fuel` levels deep ends in leaves everywhere. */
  ghost function Denote(eq: Equality, g: Graph, offset: nat, fuel: nat): (v: Option<PList>)
    decreases fuel, 0
  {
    match g(offset)
    case Bad => None
    case Leaf(v) => Some(v)
    case Branch(kind, children) =>
      if fuel == 0 then None
      else
        var kids := DenoteKids(eq, g, children, g(offset).KeyCount(), fuel - 1);
        if kids.None? then None else Some(Build(eq, kind, kids.value))
  }

  /** The values of all `children`, of which the first `keys` have to be primitive. */
  ghost function DenoteKids(eq: Equality, g: Graph, children: seq<nat>, keys: nat, fuel: nat): (kids: Option<seq<PList>>)
    ensures kids.Some? ==> |kids.value| == |children|
    decreases fuel, |children| + 1
  {
    if children == [] then Some([])
    else
      var n := |children| - 1;
      var before := DenoteKids(eq, g, children[..n], keys, fuel);
      var last := Denote(eq, g, children[n], fuel);
      if before.None? || last.None? || (n < keys && !IsPrimitive(last.value)) then None
      else Some(before.value + [last.value])
  }

  ghost predicate Parses(eq: Equality, g: Graph, offset: nat) {
    exists fuel: nat :: Denote(eq, g, offset, fuel).Some?
  }

  /** The meaning of an offset: its value at any depth that is enough. */
  ghost function Meaning(eq: Equality, g: Graph, offset: nat): (v: Option<PList>)
    ensures v.Some? <==> Parses(eq, g, offset)
  {
    if Parses(eq, g, offset) then
      var fuel: nat :| Denote(eq, g, offset, fuel).Some?;
      Denote(eq, g, offset, fuel)
    else None
  }

  lemma {:induction false} MoreFuel(eq: Equality, g: Graph, offset: nat, fuel: nat, more: nat)
    requires fuel <= more && Denote(eq, g, offset, fuel).Some?
    ensures Denote(eq, g, offset, more) == Denote(eq, g, offset, fuel)
    decreases fuel, 0
  {
    var node := g(offset);
    if node.Branch? {
      MoreFuelKids(eq, g, node.children, node.KeyCount(), fuel - 1, more - 1);
    }
  }

  lemma {:induction false} MoreFuelKids(eq: Equality, g: Graph, children: seq<nat>, keys: nat, fuel: nat, more: nat)
    requires fuel <= more && DenoteKids(eq, g, children, keys, fuel).Some?
    ensures DenoteKids(eq, g, children, keys, more) == DenoteKids(eq, g, children, keys, fuel)
    decreases fuel, |children| + 1
  {
    if children != [] {
      var n := |children| - 1;
      MoreFuelKids(eq, g, children[..n], keys, fuel, more);
      MoreFuel(eq, g, children[n], fuel, more);
    }
  }

  /** The depth does not matter once it is enough, so the meaning is what any depth finds. */
  lemma {:induction false} MeaningIs(eq: Equality, g: Graph, offset: nat, fuel: nat)
    requires Denote(eq, g, offset, fuel).Some?
    ensures Meaning(eq, g, offset) == Denote(eq, g, offset, fuel)
  {
    assert Parses(eq, g, offset);
    var other: nat :| Denote(eq, g, offset, other).Some? && Meaning(eq, g, offset) == Denote(eq, g, offset, other);
    if fuel <= other {
      MoreFuel(eq, g, offset, fuel, other);
    } else {
      MoreFuel(eq, g, offset, other, fuel);
    }
  }

  /** Whether child `i` keeps its container from being parsed. */
  ghost predicate BadChild(eq: Equality, g: Graph, children: seq<nat>, keys: nat, i: nat)
    requires i < |children|
  {
    var v := Meaning(eq, g, children[i]);
    v.None? || (i < keys && !IsPrimitive(v.value))
  }

  /** The meanings of all `children`. */
  ghost function KidsMeaning(eq: Equality, g: Graph, children: seq<nat>, keys: nat): (kids: Option<seq<PList>>)
    ensures kids.Some? <==> forall i :: 0 <= i < |children| ==> !BadChild(eq, g, children, keys, i)
    ensures kids.Some? ==> |kids.value| == |children|
    ensures kids.Some? ==> forall i :: 0 <= i < |children| ==> Meaning(eq, g, children[i]) == Some(kids.value[i])
  {
    if forall i :: 0 <= i < |children| ==> !BadChild(eq, g, children, keys, i) then
      var values := seq(|children|, i requires 0 <= i < |children| && !BadChild(eq, g, children, keys, i) =>
                        Meaning(eq, g, children[i]).value);
      assert forall i :: 0 <= i < |children| ==>
                           !BadChild(eq, g, children, keys, i) && Some(values[i]) == Meaning(eq, g, children[i]);
      Some(values)
    else None
  }

  /** Enough fuel for all children at once. */
  lemma {:induction false} KidsFuel(eq: Equality, g: Graph, children: seq<nat>, keys: nat) returns (fuel: nat)
    requires KidsMeaning(eq, g, children, keys).Some?
    ensures DenoteKids(eq, g, children, keys, fuel) == KidsMeaning(eq, g, children, keys)
  {
    if children == [] {
      fuel := 0;
    } else {
      var n := |children| - 1;
      var child := children[n];
      KidsPrefix(eq, g, children, keys);
      var before := KidsFuel(eq, g, children[..n], keys);
      assert !BadChild(eq, g, children, keys, n);
      var own: nat :| Denote(eq, g, child, own).Some?;
      MeaningIs(eq, g, child, own);
      fuel := if before <= own then own else before;
      MoreFuelKids(eq, g, children[..n], keys, before, fuel);
      MoreFuel(eq, g, child, own, fuel);
    }
  }

  /** One more child. */
  lemma {:induction false} KidsPrefix(eq: Equality, g: Graph, children: seq<nat>, keys: nat)
    requires children != []
    ensures var n := |children| - 1;
            var before := KidsMeaning(eq, g, children[..n], keys);
            KidsMeaning(eq, g, children, keys) ==
            if before.None? || BadChild(eq, g, children, keys, n) then None
            else Some(before.value + [Meaning(eq, g, children[n]).value])
  {
    var n := |children| - 1;
    forall i | 0 <= i < n
      ensures BadChild(eq, g, children[..n], keys, i) <==> BadChild(eq, g, children, keys, i)
    {
    }
    var all, before := KidsMeaning(eq, g, children, keys), KidsMeaning(eq, g, children[..n], keys);
    if all.Some? {
      assert all.value == before.value + [Meaning(eq, g, children[n]).value];
    }
  }

  lemma {:induction false} KidsOfDenoteKids(eq: Equality, g: Graph, children: seq<nat>, keys: nat, fuel: nat)
    requires DenoteKids(eq, g, children, keys, fuel).Some?
    ensures KidsMeaning(eq, g, children, keys) == DenoteKids(eq, g, children, keys, fuel)
    decreases children
  {
    if children != [] {
      var n := |children| - 1;
      KidsOfDenoteKids(eq, g, children[..n], keys, fuel);
      MeaningIs(eq, g, children[n], fuel);
      KidsPrefix(eq, g, children, keys);
    }
  }

  /** One step of the meaning: a container means what is built from the meanings of its children. */
  lemma {:induction false} MeaningUnfolds(eq: Equality, g: Graph, offset: nat)
    ensures Meaning(eq, g, offset) ==
            match g(offset)
            case Bad => None
            case Leaf(v) => Some(v)
            case Branch(kind, children) =>
              var kids := KidsMeaning(eq, g, children, g(offset).KeyCount());
              if kids.None? then None else Some(Build(eq, kind, kids.value))
  {
    var node := g(offset);
    if node.Leaf? {
      MeaningIs(eq, g, offset, 0);
    } else if node.Branch? {
      if KidsMeaning(eq, g, node.children, node.KeyCount()).Some? {
        var fuel := KidsFuel(eq, g, node.children, node.KeyCount());
        MeaningIs(eq, g, offset, fuel + 1);
      } else if Parses(eq, g, offset) {
        var fuel: nat :| Denote(eq, g, offset, fuel).Some?;
        KidsOfDenoteKids(eq, g, node.children, node.KeyCount(), fuel - 1);
      }
    }
  }
}
