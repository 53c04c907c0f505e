/** Property lists as values, and the containers the reader builds out of parsed values. */
module PropertyList {
  import opened Bytes

  type unichar = x: int | 0 <= x < 0x1_0000

  predicate IsAscii(chars: seq<unichar>) {
    forall i :: 0 <= i < |chars| ==> chars[i] < 0x80
  }

  /** Numbers and dates are kept as the bit patterns that are stored. */
  datatype PList =
    | Null
    | Bool(value: bool)
    | Int(bits: nat)
    | Int128(high: nat, low: nat)
    | Real32(bits: nat)
    | Real64(bits: nat)
    | Date(bits: nat)
    | Data(bytes: seq<byte>)
    | String(chars: seq<unichar>)
    | UID(number: nat)
    | Array(items: seq<PList>)
    | Set(members: seq<PList>)
    | Dict(keys: seq<PList>, values: seq<PList>)

  predicate IsPrimitive(v: PList) {
    !v.Array? && !v.Set? && !v.Dict?
  }

  /** Equality of keys and of set members: the comparison that the hash tables call. */
  type Equality = (PList, PList) -> bool

  /** What is assumed of it where strings are looked up: strings are compared by their characters. */
  ghost predicate ComparesStrings(eq: Equality) {
    && (forall s: seq<unichar>, v: PList {:trigger eq(v, String(s))} :: eq(v, String(s)) <==> v == String(s))
    && (forall s: seq<unichar>, v: PList {:trigger eq(String(s), v)} :: eq(String(s), v) <==> v == String(s))
  }

  /** The position of the first of `keys` equal to `key`, or the number of keys. */
  function IndexOf(eq: Equality, keys: seq<PList>, key: PList): (i: nat)
    ensures i <= |keys|
    ensures i < |keys| ==> eq(keys[i], key)
    ensures forall j :: 0 <= j < i ==> !eq(keys[j], key)
  {
    if keys == [] then 0
    else if eq(keys[0], key) then 0
    else 1 + IndexOf(eq, keys[1..], key)
  }

  /** Adding the values one by one to a set; a value equal to a member is dropped. */
  function AddMembers(eq: Equality, values: seq<PList>): (members: seq<PList>)
    ensures |members| <= |values|
  {
    if values == [] then []
    else
      var before, last := AddMembers(eq, values[..|values| - 1]), values[|values| - 1];
      if IndexOf(eq, before, last) < |before| then before else before + [last]
  }

  /** The members of a set are values of which none equals an earlier one, and every value equals one of them or is one. */
  lemma {:induction false} MembersStandForValues(eq: Equality, values: seq<PList>)
    ensures var members := AddMembers(eq, values);
            && (forall v :: v in values ==> v in members || exists m :: m in members && eq(m, v))
            && (forall m :: m in members ==> m in values)
            && (forall i, j :: 0 <= i < j < |members| ==> !eq(members[i], members[j]))
  {
    if values != [] {
      var n := |values| - 1;
      MembersStandForValues(eq, values[..n]);
      assert values == values[..n] + [values[n]];
      var before := AddMembers(eq, values[..n]);
      var i := IndexOf(eq, before, values[n]);
      if i < |before| {
        assert before[i] in before && eq(before[i], values[n]);
      }
    }
  }

  /** Values that equal no earlier one are all members, in order. */
  lemma {:induction false} DistinctMembersStay(eq: Equality, values: seq<PList>)
    ensures AddMembers(eq, values) == values <==> forall i, j :: 0 <= i < j < |values| ==> !eq(values[i], values[j])
  {
    MembersStandForValues(eq, values);
    if forall i, j :: 0 <= i < j < |values| ==> !eq(values[i], values[j]) {
      AllAreMembers(eq, values);
    }
  }

  lemma {:induction false} AllAreMembers(eq: Equality, values: seq<PList>)
    requires forall i, j :: 0 <= i < j < |values| ==> !eq(values[i], values[j])
    ensures AddMembers(eq, values) == values
  {
    if values != [] {
      var n := |values| - 1;
      AllAreMembers(eq, values[..n]);
      assert values == values[..n] + [values[n]];
      assert forall j :: 0 <= j < n ==> !eq(values[..n][j], values[n]);
    }
  }

  /** Adding the pairs one by one to a dictionary; a pair whose key is already there is dropped. */
  function AddPairs(eq: Equality, keys: seq<PList>, values: seq<PList>): (pairs: (seq<PList>, seq<PList>))
    requires |keys| == |values|
    ensures |pairs.0| == |pairs.1| <= |keys|
  {
    if keys == [] then ([], [])
    else
      var n := |keys| - 1;
      var (ks, vs) := AddPairs(eq, keys[..n], values[..n]);
      if IndexOf(eq, ks, keys[n]) < |ks| then (ks, vs) else (ks + [keys[n]], vs + [values[n]])
  }

  /** A pair that is added. */
  ghost predicate IsPairOf(keys: seq<PList>, values: seq<PList>, k: PList, v: PList)
    requires |keys| == |values|
  {
    exists i :: 0 <= i < |keys| && keys[i] == k && values[i] == v
  }

  /** The pairs that a dictionary keeps are among those added, no key equals a later one, and every key added is kept or
      equals one that is. */
  ghost predicate KeepsPairs(eq: Equality, keys: seq<PList>, values: seq<PList>, ks: seq<PList>, vs: seq<PList>)
    requires |keys| == |values| && |ks| == |vs|
  {
    && (forall k :: k in keys ==> k in ks || exists m :: m in ks && eq(m, k))
    && (forall j :: 0 <= j < |ks| ==> IsPairOf(keys, values, ks[j], vs[j]))
    && (forall i, j :: 0 <= i < j < |ks| ==> !eq(ks[i], ks[j]))
  }

  lemma {:induction false} PairsStandForKeys(eq: Equality, keys: seq<PList>, values: seq<PList>)
    requires |keys| == |values|
    ensures KeepsPairs(eq, keys, values, AddPairs(eq, keys, values).0, AddPairs(eq, keys, values).1)
  {
    hide KeepsPairs;
    if keys == [] {
      NoPairs(eq);
    } else {
      var n := |keys| - 1;
      PairsStandForKeys(eq, keys[..n], values[..n]);
      assert keys == keys[..n] + [keys[n]] && values == values[..n] + [values[n]];
      var kept := AddPairs(eq, keys[..n], values[..n]);
      OneMorePair(eq, keys[..n], values[..n], kept.0, kept.1, keys[n], values[n]);
    }
  }

  lemma NoPairs(eq: Equality)
    ensures KeepsPairs(eq, [], [], [], [])
  {
  }

  lemma OneMorePair(eq: Equality, keys: seq<PList>, values: seq<PList>, ks: seq<PList>, vs: seq<PList>, k: PList, v: PList)
    requires |keys| == |values| && |ks| == |vs| && KeepsPairs(eq, keys, values, ks, vs)
    ensures if IndexOf(eq, ks, k) < |ks| then KeepsPairs(eq, keys + [k], values + [v], ks, vs)
            else KeepsPairs(eq, keys + [k], values + [v], ks + [k], vs + [v])
  {
    hide IsPairOf, IndexOf;
    forall j | 0 <= j < |ks|
      ensures IsPairOf(keys + [k], values + [v], ks[j], vs[j])
    {
      MorePairs(keys, values, k, v, ks[j], vs[j]);
    }
    MorePairs(keys, values, k, v, k, v);
    var i := IndexOf(eq, ks, k);
    if i < |ks| {
      assert ks[i] in ks && eq(ks[i], k);
    } else {
      assert forall j :: 0 <= j < |ks| ==> !eq(ks[j], (ks + [k])[|ks|]);
    }
  }

  lemma MorePairs(keys: seq<PList>, values: seq<PList>, key: PList, value: PList, k: PList, v: PList)
    requires |keys| == |values| && (IsPairOf(keys, values, k, v) || (k == key && v == value))
    ensures IsPairOf(keys + [key], values + [value], k, v)
  {
    if IsPairOf(keys, values, k, v) {
      var i :| 0 <= i < |keys| && keys[i] == k && values[i] == v;
      assert (keys + [key])[i] == k && (values + [value])[i] == v;
    } else {
      assert (keys + [key])[|keys|] == k && (values + [value])[|keys|] == v;
    }
  }

  /** The value a dictionary holds under a key. */
  function Lookup(eq: Equality, dict: PList, key: PList): (v: Option<PList>)
    requires dict.Dict? && |dict.keys| == |dict.values|
  {
    var i := IndexOf(eq, dict.keys, key);
    if i < |dict.keys| then Some(dict.values[i]) else None
  }

  /** A dictionary built from pairs maps a string to the value of the first pair with that key. */
  lemma {:induction false} LookupIsFirstPair(eq: Equality, keys: seq<PList>, values: seq<PList>, s: seq<unichar>)
    requires ComparesStrings(eq) && |keys| == |values|
    ensures var (ks, vs) := AddPairs(eq, keys, values);
            var i := IndexOf(eq, keys, String(s));
            Lookup(eq, Dict(ks, vs), String(s)) == if i < |keys| then Some(values[i]) else None
  {
    hide ComparesStrings, IndexOf;
    if keys != [] {
      var n := |keys| - 1;
      var (ks, vs) := AddPairs(eq, keys[..n], values[..n]);
      var key := String(s);
      LookupIsFirstPair(eq, keys[..n], values[..n], s);
      IndexOfPrefix(eq, keys, n, key);
      if IndexOf(eq, ks, keys[n]) == |ks| {
        AddedIsFound(eq, ks, vs, keys[n], values[n], key);
      } else {
        EqualStrings(eq, ks[IndexOf(eq, ks, keys[n])], keys[n], s);
      }
    }
  }

  /** A pair at the end counts for what is not found before. */
  lemma {:induction false} AddedIsFound(eq: Equality, ks: seq<PList>, vs: seq<PList>, k: PList, v: PList, key: PList)
    requires |ks| == |vs|
    ensures Lookup(eq, Dict(ks + [k], vs + [v]), key) ==
            if IndexOf(eq, ks, key) < |ks| then Lookup(eq, Dict(ks, vs), key) else if eq(k, key) then Some(v) else None
  {
    hide IndexOf;
    IndexOfAppended(eq, ks, k, key);
    var i := IndexOf(eq, ks, key);
    if i < |ks| {
      assert (vs + [v])[i] == vs[i];
    }
  }

  lemma {:induction false} IndexOfAppended(eq: Equality, ks: seq<PList>, k: PList, key: PList)
    ensures var i := IndexOf(eq, ks, key);
            IndexOf(eq, ks + [k], key) == if i < |ks| || eq(k, key) then i else |ks| + 1
  {
    hide IndexOf;
    var ks' := ks + [k];
    assert ks'[..|ks|] == ks && ks'[|ks|] == k;
    IndexOfPrefix(eq, ks', |ks|, key);
  }

  /** A key equal to a string is that string, so whatever equals the key is the string as well. */
  lemma EqualStrings(eq: Equality, a: PList, b: PList, s: seq<unichar>)
    requires ComparesStrings(eq) && eq(a, b)
    ensures eq(b, String(s)) ==> eq(a, String(s))
  {
  }

  lemma {:induction false} IndexOfPrefix(eq: Equality, keys: seq<PList>, n: nat, key: PList)
    requires n <= |keys|
    ensures IndexOf(eq, keys[..n], key) < n ==> IndexOf(eq, keys, key) == IndexOf(eq, keys[..n], key)
    ensures IndexOf(eq, keys[..n], key) == n ==> IndexOf(eq, keys, key) >= n
  {
  }

  /** No key equals a later one. */
  ghost predicate DistinctKeys(eq: Equality, keys: seq<PList>) {
    forall i, j :: 0 <= i < j < |keys| ==> !eq(keys[i], keys[j])
  }

  /** Pairs with distinct keys are all kept, in order. */
  lemma {:induction false} AddDistinctPairs(eq: Equality, keys: seq<PList>, values: seq<PList>)
    requires |keys| == |values| && DistinctKeys(eq, keys)
    ensures AddPairs(eq, keys, values) == (keys, values)
  {
    if keys != [] {
      var n := |keys| - 1;
      var ks, vs := keys[..n], values[..n];
      forall i, j | 0 <= i < j < n
        ensures !eq(ks[i], ks[j])
      {
        assert !eq(keys[i], keys[j]);
      }
      AddDistinctPairs(eq, ks, vs);
      assert forall j :: 0 <= j < n ==> !eq(ks[j], keys[n]);
      assert keys == ks + [keys[n]] && values == vs + [values[n]];
    }
  }
}
