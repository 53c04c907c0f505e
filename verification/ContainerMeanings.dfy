/** What arrays, sets and dictionaries mean, in terms of their children. */
module ContainerMeanings {
  import opened Bytes
  import opened PropertyList
  import opened ObjectGraph

  /** An array can be read if and only if its children can; it holds their values in order. */
  lemma {:induction false} ArrayMeans(eq: Equality, g: Graph, offset: nat)
    requires g(offset).Branch? && g(offset).kind.ArrayKind?
    ensures var children, v := g(offset).children, Meaning(eq, g, offset);
            && (v.Some? <==> forall c :: c in children ==> Meaning(eq, g, c).Some?)
            && (v.Some? ==>
                  && v.value.Array? && |v.value.items| == |children|
                  && forall i :: 0 <= i < |children| ==> Meaning(eq, g, children[i]) == Some(v.value.items[i]))
  {
    hide Meaning;
    MeaningUnfolds(eq, g, offset);
    var children := g(offset).children;
    assert forall i :: 0 <= i < |children| ==> (BadChild(eq, g, children, 0, i) <==> Meaning(eq, g, children[i]).None?);
    assert forall c :: c in children <==> exists i :: 0 <= i < |children| && children[i] == c;
  }

  /** A dictionary can be read if and only if its children can, and those of the first half, the keys, are no containers. */
  lemma {:induction false} DictionaryMeans(eq: Equality, g: Graph, offset: nat)
    requires g(offset).Branch? && g(offset).kind.DictKind?
    ensures var children, v := g(offset).children, Meaning(eq, g, offset);
            && (v.Some? <==>
                  && (forall i :: 0 <= i < |children| ==> Meaning(eq, g, children[i]).Some?)
                  && (forall i :: 0 <= i < |children| / 2 ==>
                        var key := Meaning(eq, g, children[i]).value; !key.Array? && !key.Set? && !key.Dict?))
            && (v.Some? ==> v.value.Dict?)
  {
    hide Meaning, AddPairs;
    MeaningUnfolds(eq, g, offset);
    var children, n := g(offset).children, |g(offset).children| / 2;
    assert forall i :: 0 <= i < |children| ==>
                         (BadChild(eq, g, children, n, i) <==>
                          var v := Meaning(eq, g, children[i]);
                          v.None? || (i < n && (v.value.Array? || v.value.Set? || v.value.Dict?)));
  }

  /** A set that can be read holds the values of its children: each is a member or equals one, and no two members are equal. */
  lemma {:induction false} SetMeans(eq: Equality, g: Graph, offset: nat)
    requires g(offset).Branch? && g(offset).kind.SetKind? && Meaning(eq, g, offset).Some?
    ensures var children, v := g(offset).children, Meaning(eq, g, offset).value;
            && v.Set?
            && (forall c :: c in children ==> Meaning(eq, g, c).Some?)
            && (forall c :: c in children ==>
                  Meaning(eq, g, c).value in v.members || exists m :: m in v.members && eq(m, Meaning(eq, g, c).value))
            && (forall m :: m in v.members ==> exists c :: c in children && Meaning(eq, g, c) == Some(m))
            && (forall i, j :: 0 <= i < j < |v.members| ==> !eq(v.members[i], v.members[j]))
  {
    hide Meaning;
    MeaningUnfolds(eq, g, offset);
    var children := g(offset).children;
    var kids := KidsMeaning(eq, g, children, 0).value;
    MembersStandForValues(eq, kids);
    forall c | c in children
      ensures Meaning(eq, g, c).Some? && Meaning(eq, g, c).value in kids
    {
      var i :| 0 <= i < |children| && children[i] == c;
      assert Meaning(eq, g, children[i]) == Some(kids[i]);
    }
    forall v | v in kids
      ensures exists c :: c in children && Meaning(eq, g, c) == Some(v)
    {
      var i :| 0 <= i < |kids| && kids[i] == v;
      assert children[i] in children;
    }
  }

  /** If no child equals an earlier one, the members are the children in order. */
  lemma {:induction false} DistinctChildrenAreMembers(eq: Equality, g: Graph, offset: nat, kids: seq<PList>)
    requires g(offset).Branch? && g(offset).kind.SetKind? && |kids| == |g(offset).children|
    requires forall i :: 0 <= i < |kids| ==> Meaning(eq, g, g(offset).children[i]) == Some(kids[i])
    ensures Meaning(eq, g, offset) == Some(Set(kids)) <==> forall i, j :: 0 <= i < j < |kids| ==> !eq(kids[i], kids[j])
  {
    hide Meaning;
    MeaningUnfolds(eq, g, offset);
    var children := g(offset).children;
    assert forall i :: 0 <= i < |children| ==> !BadChild(eq, g, children, 0, i);
    assert KidsMeaning(eq, g, children, 0).value == kids;
    DistinctMembersStay(eq, kids);
  }
}
