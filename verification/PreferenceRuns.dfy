/** What an application that sets or removes a key finds there afterwards. */
module PreferenceRuns {
  import opened Bytes
  import opened SearchList
  import opened Preferences
  import opened SuiteOrder

  /** The operations that set up the search list, and those of a run. */
  function Adding(suites: seq<App>): seq<Operation> {
    [SetStandardSearchList] + seq(|suites|, i requires 0 <= i < |suites| => AddSuite(suites[i]))
  }

  lemma {:induction false} RunMore(s: State, ops: seq<Operation>, op: Operation)
    ensures var (before, values) := Run(s, ops);
            Run(s, ops + [op]) == (Step(before, op).0, values + [Step(before, op).1])
  {
    hide Step;
    assert (ops + [op])[..|ops|] == ops;
  }

  /** The list is set up in the documented order. */
  lemma {:induction false} ListIsSetUp(s: State, suites: seq<App>)
    ensures Run(s, Adding(suites)).0 == s.(search := DocumentedOrder(s.app, suites))
    decreases |suites|
  {
    hide WithSuite, DocumentedOrder, StandardSearchList;
    if suites == [] {
      assert Adding(suites) == [] + [SetStandardSearchList];
      RunMore(s, [], SetStandardSearchList);
      SuitesAreInOrder(s.app, []);
    } else {
      var n := |suites| - 1;
      ListIsSetUp(s, suites[..n]);
      AddingSuite(s.app, suites[..n], suites[n]);
      assert suites == suites[..n] + [suites[n]];
      assert Adding(suites) == Adding(suites[..n]) + [AddSuite(suites[n])];
      RunMore(s, Adding(suites[..n]), AddSuite(suites[n]));
    }
  }

  /** Setting or removing a key changes one key of one domain: that of the application for this user on any host. */
  lemma WritesOneKey(s: State, key: string, value: Value, domain: Domain, k: string)
    ensures Lookup(Entries(Step(s, Set(key, value)).0.domains, domain), k) ==
            if domain == Domain(s.app, CurrentUser, AnyHost) && k == key then Some(value) else Lookup(Entries(s.domains, domain), k)
    ensures Lookup(Entries(Step(s, Remove(key)).0.domains, domain), k) ==
            if domain == Domain(s.app, CurrentUser, AnyHost) && k == key then None else Lookup(Entries(s.domains, domain), k)
    ensures Step(s, Set(key, value)).0.search == s.search == Step(s, Remove(key)).0.search
  {
  }

  /** The list is the application's own two domains and then the others. */
  lemma OwnDomainsFirst(app: App, suites: seq<App>)
    ensures var order := DocumentedOrder(app, suites);
            && |order| >= 2 && order[0] == Domain(app, CurrentUser, CurrentHost) && order[1] == Domain(app, CurrentUser, AnyHost)
  {
  }

  /** Two lookups in front of the rest of a list. */
  lemma {:induction false} FirstTwo(search: seq<Domain>, domains: Domains, key: string)
    requires |search| >= 2
    ensures FirstMatch(search, domains, key) ==
            OrElse(Lookup(Entries(domains, search[0]), key),
                   OrElse(Lookup(Entries(domains, search[1]), key), FirstMatch(search[2..], domains, key)))
  {
    assert search[1..][1..] == search[2..];
  }

  /** Two domains that agree on a key in all domains of a list find the same there. */
  lemma {:induction false} SameFound(search: seq<Domain>, one: Domains, other: Domains, key: string)
    requires forall d :: d in search ==> Lookup(Entries(one, d), key) == Lookup(Entries(other, d), key)
    ensures FirstMatch(search, one, key) == FirstMatch(search, other, key)
  {
    if search != [] {
      assert search[0] in search;
      SameFound(search[1..], one, other, key);
    }
  }

  /** A key that is set is found, unless the application has another value for this user on this host. */
  lemma {:induction false} SetIsFound(s: State, suites: seq<App>, key: string, value: Value)
    ensures var (_, values) := Run(s, Adding(suites) + [Set(key, value)] + [Get(key)]);
            && |values| == |suites| + 3
            && values[|suites| + 2] ==
               OrElse(Lookup(Entries(s.domains, Domain(s.app, CurrentUser, CurrentHost)), key), Some(value))
  {
    hide Step, DocumentedOrder, FirstMatch;
    var ops := Adding(suites);
    ListIsSetUp(s, suites);
    RunIsAnswered(s, ops);
    RunMore(s, ops, Set(key, value));
    RunMore(s, ops + [Set(key, value)], Get(key));
    var before := Run(s, ops).0;
    var after := Step(before, Set(key, value)).0;
    OwnDomainsFirst(s.app, suites);
    WritesOneKey(before, key, value, Domain(s.app, CurrentUser, CurrentHost), key);
    WritesOneKey(before, key, value, Domain(s.app, CurrentUser, AnyHost), key);
    FirstTwo(after.search, after.domains, key);
    Answers(after, key);
  }

  /** After a key is removed, what is found is what the other domains of the list have. */
  lemma {:induction false} RemoveUncovers(s: State, suites: seq<App>, key: string)
    ensures var (_, values) := Run(s, Adding(suites) + [Remove(key)] + [Get(key)]);
            && |values| == |suites| + 3
            && values[|suites| + 2] ==
               FirstMatch(Without(DocumentedOrder(s.app, suites), Domain(s.app, CurrentUser, AnyHost)), s.domains, key)
  {
    hide Step, DocumentedOrder, FirstMatch, Without;
    var ops := Adding(suites);
    ListIsSetUp(s, suites);
    RunIsAnswered(s, ops);
    RunMore(s, ops, Remove(key));
    RunMore(s, ops + [Remove(key)], Get(key));
    var own := Domain(s.app, CurrentUser, AnyHost);
    var before := Run(s, ops).0;
    var after := Step(before, Remove(key)).0;
    var others := Without(after.search, own);
    WritesOneKey(before, key, 0, own, key);
    forall d | d in others
      ensures Lookup(Entries(after.domains, d), key) == Lookup(Entries(s.domains, d), key)
    {
      WritesOneKey(before, key, 0, d, key);
    }
    RepeatsDoNotMatter(after.search, after.domains, own, key);
    SameFound(others, after.domains, s.domains, key);
    Answers(after, key);
  }

  /** A domain added on top is looked at first, one added at the bottom last; after a synchronization the new contents count. */
  lemma {:induction false} AddedDomainIsFound(s: State, domain: Domain, key: string, current: Domains)
    ensures Run(s, [AddDomain(domain, true), Get(key)]).1 ==
            [None, OrElse(Lookup(Entries(s.domains, domain), key), FirstMatch(s.search, s.domains, key))]
    ensures Run(s, [AddDomain(domain, false), Get(key)]).1 ==
            [None, OrElse(FirstMatch(s.search, s.domains, key), Lookup(Entries(s.domains, domain), key))]
    ensures Run(s, [Synchronize(current), Get(key)]).1 == [None, FirstMatch(s.search, current, key)]
  {
    TwoSteps(s, AddDomain(domain, true), Get(key));
    TwoSteps(s, AddDomain(domain, false), Get(key));
    TwoSteps(s, Synchronize(current), Get(key));
    FirstMatchConcat(s.search, [domain], s.domains, key);
    FirstMatchConcat([domain], s.search, s.domains, key);
    assert FirstMatch([domain], s.domains, key) == OrElse(Lookup(Entries(s.domains, domain), key), FirstMatch([], s.domains, key));
  }

  lemma {:induction false} TwoSteps(s: State, one: Operation, two: Operation)
    ensures Run(s, [one, two]).1 == [Step(s, one).1, Step(Step(s, one).0, two).1]
  {
    hide Step;
    assert Run(s, []) == (s, []);
    RunMore(s, [], one);
    RunMore(s, [one], two);
    assert [] + [one] == [one] && [one] + [two] == [one, two];
  }

  lemma Answers(s: State, key: string)
    ensures Step(s, Get(key)) == (s, FirstMatch(s.search, s.domains, key))
  {
  }

  lemma {:induction false} RunIsAnswered(s: State, ops: seq<Operation>)
    ensures |Run(s, ops).1| == |ops|
    decreases |ops|
  {
    hide Step;
    if ops != [] {
      RunIsAnswered(s, ops[..|ops| - 1]);
    }
  }

  /** An application sets a key and looks it up, through its cache. */
  method SetAndGet(preferences: ApplicationPreferences, suites: seq<App>, key: string, value: Value)
    returns (found: Option<Value>)
    requires preferences.Valid()
    modifies preferences, preferences.cache
    ensures preferences.Valid()
    ensures var here := old(Entries(preferences.cache.contents, Domain(preferences.appName, CurrentUser, CurrentHost)));
            found == if key in here then Some(here[key]) else Some(value)
  {
    hide Run, Merged;
    SetIsFound(preferences.Abstract(), suites, key, value);
    RunIsAnswered(preferences.Abstract(), Adding(suites) + [Set(key, value)] + [Get(key)]);
    var values := preferences.PerformAll(Adding(suites) + [Set(key, value)] + [Get(key)]);
    found := values[|suites| + 2];
  }

  /** It removes the key and looks it up. */
  method RemoveAndGet(preferences: ApplicationPreferences, suites: seq<App>, key: string) returns (found: Option<Value>)
    requires preferences.Valid()
    modifies preferences, preferences.cache
    ensures preferences.Valid()
    ensures var app := preferences.appName;
            found == FirstMatch(Without(DocumentedOrder(app, suites), Domain(app, CurrentUser, AnyHost)),
                                old(preferences.cache.contents), key)
  {
    hide Run, Merged, FirstMatch, DocumentedOrder, Without;
    RemoveUncovers(preferences.Abstract(), suites, key);
    RunIsAnswered(preferences.Abstract(), Adding(suites) + [Remove(key)] + [Get(key)]);
    var values := preferences.PerformAll(Adding(suites) + [Remove(key)] + [Get(key)]);
    found := values[|suites| + 2];
  }
}
