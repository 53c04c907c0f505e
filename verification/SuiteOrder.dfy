/** Where suites end up in the search list, and what happens to the caches of other applications. */
module SuiteOrder {
  import opened Bytes
  import opened SearchList
  import opened Preferences

  /** Two domains for each suite, those of the last suite first. */
  function OfSuites(suites: seq<App>, user: User): (s: seq<Domain>)
    ensures forall d :: d in s ==> d.Domain? && d.user == user
  {
    if suites == [] then []
    else
      var n := |suites| - 1;
      Pair(suites[n], user) + OfSuites(suites[..n], user)
  }

  /** The two domains of an application for a user. */
  function Pair(app: App, user: User): seq<Domain> {
    [Domain(app, user, CurrentHost), Domain(app, user, AnyHost)]
  }

  /** The priority order: this application, its suites, any application; first for this user and then for any. */
  function DocumentedOrder(app: App, suites: seq<App>): seq<Domain> {
    Pair(app, CurrentUser) + (OfSuites(suites, CurrentUser) + Pair(AnyApplication, CurrentUser))
    + Pair(app, AnyUser) + (OfSuites(suites, AnyUser) + Pair(AnyApplication, AnyUser))
  }

  /** Adding suites one after the other. */
  function WithSuites(search: seq<Domain>, app: App, suites: seq<App>): seq<Domain> {
    if suites == [] then search
    else
      var n := |suites| - 1;
      WithSuite(WithSuites(search, app, suites[..n]), app, suites[n])
  }

  lemma {:induction false} FirstIndexIs(front: seq<Domain>, domain: Domain, behind: seq<Domain>)
    requires domain !in front
    ensures FirstIndex(front + [domain] + behind, domain) == |front|
  {
    var search := front + [domain] + behind;
    if front != [] {
      FirstIndexIs(front[1..], domain, behind);
      assert search[1..] == front[1..] + [domain] + behind;
      assert search[0] == front[0];
    }
  }

  /** Two domains put behind a part of the list. */
  lemma {:induction false} InsertPair(front: seq<Domain>, behind: seq<Domain>, app: App, user: User)
    ensures var b := Insert(front + behind, |front|, Domain(app, user, AnyHost));
            Insert(b, |front|, Domain(app, user, CurrentHost)) == front + Pair(app, user) + behind
  {
    var b := Domain(app, user, AnyHost);
    var s := Insert(front + behind, |front|, b);
    assert s == front + ([b] + behind);
    assert s[..|front|] == front && s[|front|..] == [b] + behind;
  }

  /** A suite is added behind the two pairs of the application. */
  lemma {:induction false} SuiteIsAdded(app: App, suite: App, current: seq<Domain>, anyUser: seq<Domain>)
    requires forall d :: d in current ==> d.Domain? && d.user == CurrentUser
    ensures WithSuite(Pair(app, CurrentUser) + current + Pair(app, AnyUser) + anyUser, app, suite) ==
            Pair(app, CurrentUser) + (Pair(suite, CurrentUser) + current) + Pair(app, AnyUser) + (Pair(suite, AnyUser) + anyUser)
  {
    hide Insert, FirstIndex;
    var own, anyOwn := Pair(app, CurrentUser), Pair(app, AnyUser);
    var s := own + current + anyOwn + anyUser;
    var behind := current + anyOwn + anyUser;
    assert s == [own[0]] + [own[1]] + behind && s == own + behind;
    FirstIndexIs([own[0]], own[1], behind);
    InsertPair(own, behind, suite, CurrentUser);
    var front := own + Pair(suite, CurrentUser) + current + anyOwn;
    var half := own + Pair(suite, CurrentUser) + behind;
    SecondPlace(own + Pair(suite, CurrentUser) + current, app, half, anyUser);
    assert half == front + anyUser;
    InsertPair(front, anyUser, suite, AnyUser);
    Regroup(own, Pair(suite, CurrentUser), current, anyOwn, Pair(suite, AnyUser), anyUser);
  }

  lemma Regroup(a: seq<Domain>, b: seq<Domain>, c: seq<Domain>, d: seq<Domain>, e: seq<Domain>, f: seq<Domain>)
    ensures a + b + c + d + e + f == a + (b + c) + d + (e + f)
  {
    assert a + b + c == a + (b + c);
  }

  lemma {:induction false} SecondPlace(front: seq<Domain>, app: App, half: seq<Domain>, behind: seq<Domain>)
    requires half == front + Pair(app, AnyUser) + behind
    requires forall d :: d in front ==> d.Domain? && d.user == CurrentUser
    ensures AnyUserIndex(half, app) == |front| + 2
  {
    hide FirstIndex;
    var pair := Pair(app, AnyUser);
    assert half == (front + [pair[0]]) + [pair[1]] + behind;
    FirstIndexIs(front + [pair[0]], pair[1], behind);
  }

  /** On other lists the domains of a suite for any user go behind those of the application for any user, else behind
      those of any application for this user, on any host or on this one, and else to the end. */
  lemma {:induction false} AnyUserPlace(front: seq<Domain>, anchor: Domain, behind: seq<Domain>, app: App)
    requires anchor !in front
    ensures var list := front + [anchor] + behind;
            var own, global := Domain(app, AnyUser, AnyHost), Domain(AnyApplication, CurrentUser, AnyHost);
            var globalHost := Domain(AnyApplication, CurrentUser, CurrentHost);
            && (anchor == own ==> AnyUserIndex(list, app) == |front| + 1)
            && (anchor == global && own !in list ==> AnyUserIndex(list, app) == |front| + 1)
            && (anchor == globalHost && own !in list && global !in list ==> AnyUserIndex(list, app) == |front| + 1)
            && (own !in list && global !in list && globalHost !in list ==> AnyUserIndex(list, app) == |list|)
  {
    hide FirstIndex;
    FirstIndexIs(front, anchor, behind);
  }

  lemma {:induction false} AddingSuite(app: App, suites: seq<App>, suite: App)
    ensures WithSuite(DocumentedOrder(app, suites), app, suite) == DocumentedOrder(app, suites + [suite])
  {
    hide WithSuite, Pair;
    var current := OfSuites(suites, CurrentUser) + Pair(AnyApplication, CurrentUser);
    var anyUser := OfSuites(suites, AnyUser) + Pair(AnyApplication, AnyUser);
    SuitesGrow(suites, suite, CurrentUser);
    SuitesGrow(suites, suite, AnyUser);
    PairUser(AnyApplication, CurrentUser);
    SuiteIsAdded(app, suite, current, anyUser);
  }

  lemma PairUser(app: App, user: User)
    ensures forall d :: d in Pair(app, user) ==> d.Domain? && d.user == user
  {
  }

  lemma {:induction false} SuitesGrow(suites: seq<App>, suite: App, user: User)
    ensures OfSuites(suites + [suite], user) + Pair(AnyApplication, user) ==
            Pair(suite, user) + (OfSuites(suites, user) + Pair(AnyApplication, user))
  {
    assert (suites + [suite])[..|suites|] == suites;
  }

  /** Whatever suites are added to the standard list, in whatever order, the documented order results. */
  lemma {:induction false} SuitesAreInOrder(app: App, suites: seq<App>)
    ensures WithSuites(StandardSearchList(app), app, suites) == DocumentedOrder(app, suites)
    decreases |suites|
  {
    hide WithSuite;
    if suites == [] {
      assert DocumentedOrder(app, []) == StandardSearchList(app);
    } else {
      var n := |suites| - 1;
      SuitesAreInOrder(app, suites[..n]);
      AddingSuite(app, suites[..n], suites[n]);
      assert suites == suites[..n] + [suites[n]];
    }
  }

  /** A cache that is not told of a write is still right if and only if the write changes nothing that it finds. */
  lemma {:induction false} UntoldCacheIsRightIff(search: seq<Domain>, domains: Domains, domain: Domain, key: string,
                                                 value: Option<Value>)
    ensures var front := FirstMatch(InFront(search, domain), domains, key);
            var below := FirstMatch(Without(Behind(search, domain), domain), domains, key);
            Merged(search, SetKey(domains, domain, key, value)) == Merged(search, domains) <==>
              || domain !in search
              || front.Some?
              || OrElse(value, below) == OrElse(Lookup(Entries(domains, domain), key), below)
  {
    var after := SetKey(domains, domain, key, value);
    var m, n := Merged(search, domains), Merged(search, after);
    if domain !in search {
      SetElsewhere(search, domains, domain, key, value);
    } else {
      SetChangesIff(search, domains, domain, key, value);
      forall k
        ensures Lookup(m, k) == FirstMatch(search, domains, k) && Lookup(n, k) == FirstMatch(search, after, k)
        ensures k != key ==> Lookup(m, k) == Lookup(n, k)
      {
        MergedIsFirstMatch(search, domains, k);
        MergedIsFirstMatch(search, after, k);
        if k != key {
          OtherKeysStay(search, domains, domain, key, value, k);
        }
      }
      if Lookup(m, key) == Lookup(n, key) {
        SameLookups(m, n);
      }
    }
  }

  lemma SameLookups(m: Dictionary, n: Dictionary)
    requires forall k :: Lookup(m, k) == Lookup(n, k)
    ensures m == n
  {
    forall k
      ensures k in m <==> k in n
      ensures k in m ==> m[k] == n[k]
    {
      assert Lookup(m, k) == Lookup(n, k);
    }
  }

  /** A write by one application, of which another that shares the domains is not told: its cache stays right if and only
      if it is empty, does not search the domain, finds the key in front of it, or finds the same value as before. */
  method WriteUntold(writer: ApplicationPreferences, other: ApplicationPreferences, key: string, value: Option<Value>)
    requires writer != other && writer.cache == other.cache && writer.Valid() && other.Valid()
    modifies writer`dictRep, writer.cache
    ensures writer.Valid()
    ensures var domains, domain := old(other.cache.contents), AppDomain(writer.appName);
            var front := FirstMatch(InFront(other.search, domain), domains, key);
            var below := FirstMatch(Without(Behind(other.search, domain), domain), domains, key);
            other.Valid() <==>
              || other.dictRep.None?
              || domain !in other.search
              || front.Some?
              || OrElse(value, below) == OrElse(Lookup(Entries(domains, domain), key), below)
  {
    hide Merged, FirstMatch, SetKey, Without, Behind, InFront;
    UntoldCacheIsRightIff(other.search, other.cache.contents, AppDomain(writer.appName), key, value);
    writer.Write(key, value);
  }

  /** So the cache of one application goes stale when another writes: it goes on giving nothing, where there is a value. */
  method OtherCacheGoesStale(writerName: App, readerName: App, key: string, value: Value)
    returns (before: Option<Value>, after: Option<Value>, reader: ApplicationPreferences)
    ensures before == None && after == None
    ensures FirstMatch(reader.search, reader.cache.contents, key) == Some(value)
  {
    var cache := new DomainCache(map[]);
    var writer := new ApplicationPreferences(writerName, cache);
    reader := new ApplicationPreferences(readerName, cache);
    reader.AddDomain(AppDomain(writerName), true);
    assert reader.search == [AppDomain(writerName)];
    before := reader.CreateValueForKey(key);
    writer.Write(key, Some(value));
    after := reader.CreateValueForKey(key);
  }
}
