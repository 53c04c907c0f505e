/** Application preferences: a search list, and a cache of everything it finds. */
module Preferences {
  import opened Bytes
  import opened SearchList

  /** What an application's preferences are without the cache. */
  datatype State = State(app: App, search: seq<Domain>, domains: Domains)

  datatype Operation =
    | Get(key: string)
    | Set(key: string, value: Value)
    | Remove(key: string)
    | AddDomain(domain: Domain, addAtTop: bool)
    | AddSuite(suite: App)
    | SetStandardSearchList
    | Synchronize(current: Domains)

  /** The index of the first place of a domain, or -1. */
  function FirstIndex(search: seq<Domain>, domain: Domain): (idx: int)
    ensures -1 <= idx < |search|
    ensures idx == -1 <==> domain !in search
    ensures 0 <= idx ==> search[idx] == domain && domain !in search[..idx]
  {
    if search == [] then -1
    else if search[0] == domain then 0
    else
      var idx := FirstIndex(search[1..], domain);
      assert 0 <= idx ==> search[..idx + 1] == [search[0]] + search[1..][..idx];
      if idx == -1 then -1 else idx + 1
  }

  function Insert(search: seq<Domain>, idx: nat, domain: Domain): (r: seq<Domain>)
    requires idx <= |search|
    ensures |r| == |search| + 1
  {
    search[..idx] + [domain] + search[idx..]
  }

  function StandardSearchList(app: App): seq<Domain> {
    [Domain(app, CurrentUser, CurrentHost), Domain(app, CurrentUser, AnyHost),
     Domain(AnyApplication, CurrentUser, CurrentHost), Domain(AnyApplication, CurrentUser, AnyHost),
     Domain(app, AnyUser, CurrentHost), Domain(app, AnyUser, AnyHost),
     Domain(AnyApplication, AnyUser, CurrentHost), Domain(AnyApplication, AnyUser, AnyHost)]
  }

  /** Where the domains of a suite for any user go. */
  function AnyUserIndex(search: seq<Domain>, app: App): (idx: nat)
    ensures idx <= |search|
  {
    var ofApp := FirstIndex(search, Domain(app, AnyUser, AnyHost));
    var global := FirstIndex(search, Domain(AnyApplication, CurrentUser, AnyHost));
    var globalHost := FirstIndex(search, Domain(AnyApplication, CurrentUser, CurrentHost));
    if ofApp != -1 then ofApp + 1
    else if global != -1 then global + 1
    else if globalHost != -1 then globalHost + 1
    else |search|
  }

  /** The four domains of a suite, in two pairs. */
  function WithSuite(search: seq<Domain>, app: App, suite: App): seq<Domain> {
    var top := FirstIndex(search, Domain(app, CurrentUser, AnyHost)) + 1;
    var half := Insert(Insert(search, top, Domain(suite, CurrentUser, AnyHost)), top, Domain(suite, CurrentUser, CurrentHost));
    var idx := AnyUserIndex(half, app);
    Insert(Insert(half, idx, Domain(suite, AnyUser, AnyHost)), idx, Domain(suite, AnyUser, CurrentHost))
  }

  /** The domain that an application writes to. */
  function AppDomain(app: App): Domain {
    Domain(app, CurrentUser, AnyHost)
  }

  /** The meaning of the operations, where every lookup searches the list. */
  function Step(s: State, op: Operation): (r: (State, Option<Value>)) {
    match op
    case Get(key) => (s, FirstMatch(s.search, s.domains, key))
    case Set(key, value) => (s.(domains := SetKey(s.domains, AppDomain(s.app), key, Some(value))), None)
    case Remove(key) => (s.(domains := SetKey(s.domains, AppDomain(s.app), key, None)), None)
    case AddDomain(domain, top) => (s.(search := if top then [domain] + s.search else s.search + [domain]), None)
    case AddSuite(suite) => (s.(search := WithSuite(s.search, s.app, suite)), None)
    case SetStandardSearchList => (s.(search := StandardSearchList(s.app)), None)
    case Synchronize(current) => (s.(domains := current), None)
  }

  /** The values that a run of operations looks up, and the state it ends in. */
  function Run(s: State, ops: seq<Operation>): (r: (State, seq<Option<Value>>)) {
    if ops == [] then (s, [])
    else
      var before := Run(s, ops[..|ops| - 1]);
      var last := Step(before.0, ops[|ops| - 1]);
      (last.0, before.1 + [last.1])
  }

  /** The merged dictionary: from the last domain to the first, each overriding what is there. */
  method ComputeDictRep(search: seq<Domain>, domains: Domains) returns (dictRep: Dictionary)
    ensures dictRep == Merged(search, domains)
  {
    dictRep := map[];
    var idx: nat := |search|;
    while 0 < idx
      invariant idx <= |search| && dictRep == Merged(search[idx..], domains)
    {
      idx := idx - 1;
      dictRep := dictRep + Entries(domains, search[idx]);
      assert search[idx..][1..] == search[idx + 1..];
    }
  }

  /** The domains, which all applications share. */
  class DomainCache {
    var contents: Domains

    constructor (contents: Domains)
      ensures this.contents == contents
    {
      this.contents := contents;
    }
  }

  class ApplicationPreferences {
    const appName: App
    const cache: DomainCache
    var search: seq<Domain>
    var dictRep: Option<Dictionary>

    /** The cache, if there is one, is the merged dictionary of now. */
    ghost predicate Valid()
      reads this, cache
    {
      dictRep.Some? ==> dictRep.value == Merged(search, cache.contents)
    }

    ghost function Abstract(): State
      reads this, cache
    {
      State(appName, search, cache.contents)
    }

    constructor (appName: App, cache: DomainCache)
      ensures Valid() && this.appName == appName && this.cache == cache && search == []
    {
      this.appName, this.cache, search, dictRep := appName, cache, [], None;
    }

    /** A lookup through the cache, which is filled first if it is empty. A cache that is right gives the first match. */
    method CreateValueForKey(key: string) returns (value: Option<Value>)
      modifies this`dictRep
      ensures dictRep == if old(dictRep).Some? then old(dictRep) else Some(Merged(search, cache.contents))
      ensures value == Lookup(dictRep.value, key)
      ensures old(Valid()) ==> Valid() && value == FirstMatch(search, cache.contents, key)
    {
      if dictRep.None? {
        var computed := ComputeDictRep(search, cache.contents);
        dictRep := Some(computed);
      }
      value := Lookup(dictRep.value, key);
      MergedIsFirstMatch(search, cache.contents, key);
    }

    /** Sets or removes a key of the application domain. The cache survives if that domain is not searched. */
    method Write(key: string, value: Option<Value>)
      requires Valid()
      modifies this`dictRep, cache
      ensures Valid() && cache.contents == SetKey(old(cache.contents), AppDomain(appName), key, value)
    {
      if AppDomain(appName) in search {
        dictRep := None;
      } else {
        SetElsewhere(search, cache.contents, AppDomain(appName), key, value);
      }
      cache.contents := SetKey(cache.contents, AppDomain(appName), key, value);
    }

    /** Reads the domains again: whatever they hold now. */
    method Synchronize(current: Domains)
      modifies this`dictRep, cache
      ensures Valid() && cache.contents == current
    {
      cache.contents := current;
      dictRep := None;
    }

    method AddDomain(domain: Domain, addAtTop: bool)
      modifies this
      ensures Valid() && search == if addAtTop then [domain] + old(search) else old(search) + [domain]
    {
      search := if addAtTop then [domain] + search else search + [domain];
      dictRep := None;
    }

    method SetStandardSearchList()
      modifies this
      ensures Valid() && search == StandardSearchList(appName)
    {
      var list := [];
      list := list + [Domain(appName, CurrentUser, CurrentHost)];
      list := list + [Domain(appName, CurrentUser, AnyHost)];
      list := list + [Domain(AnyApplication, CurrentUser, CurrentHost)];
      list := list + [Domain(AnyApplication, CurrentUser, AnyHost)];
      list := list + [Domain(appName, AnyUser, CurrentHost)];
      list := list + [Domain(appName, AnyUser, AnyHost)];
      list := list + [Domain(AnyApplication, AnyUser, CurrentHost)];
      list := list + [Domain(AnyApplication, AnyUser, AnyHost)];
      search := list;
      dictRep := None;
    }

    method AddSuitePreferences(suite: App)
      modifies this
      ensures Valid() && search == WithSuite(old(search), appName, suite)
    {
      hide FirstIndex, Insert, Merged;
      var idx := FirstIndex(search, Domain(appName, CurrentUser, AnyHost));
      idx := idx + 1;
      search := Insert(search, idx, Domain(suite, CurrentUser, AnyHost));
      search := Insert(search, idx, Domain(suite, CurrentUser, CurrentHost));
      idx := FirstIndex(search, Domain(appName, AnyUser, AnyHost));
      if idx == -1 {
        idx := FirstIndex(search, Domain(AnyApplication, CurrentUser, AnyHost));
        if idx == -1 {
          idx := FirstIndex(search, Domain(AnyApplication, CurrentUser, CurrentHost));
          if idx == -1 {
            idx := |search| - 1;
          }
        }
      }
      idx := idx + 1;
      search := Insert(search, idx, Domain(suite, AnyUser, AnyHost));
      search := Insert(search, idx, Domain(suite, AnyUser, CurrentHost));
      dictRep := None;
    }

    method Perform(op: Operation) returns (value: Option<Value>)
      requires Valid()
      modifies this, cache
      ensures Valid() && (Abstract(), value) == Step(old(Abstract()), op)
    {
      hide Merged, WithSuite, FirstMatch, SetKey, StandardSearchList;
      value := None;
      match op
      case Get(key) => value := CreateValueForKey(key);
      case Set(key, v) => Write(key, Some(v));
      case Remove(key) => Write(key, None);
      case AddDomain(domain, top) => AddDomain(domain, top);
      case AddSuite(suite) => AddSuitePreferences(suite);
      case SetStandardSearchList => SetStandardSearchList();
      case Synchronize(current) => Synchronize(current);
    }

    /** Any run of operations looks up what it would without the cache. */
    method PerformAll(ops: seq<Operation>) returns (values: seq<Option<Value>>)
      requires Valid()
      modifies this, cache
      ensures Valid() && (Abstract(), values) == Run(old(Abstract()), ops)
    {
      hide Merged, Step, Valid;
      values := [];
      for i := 0 to |ops|
        invariant Valid() && (Abstract(), values) == Run(old(Abstract()), ops[..i])
      {
        var value := Perform(ops[i]);
        values := values + [value];
        assert ops[..i + 1][..i] == ops[..i];
      }
      assert ops[..|ops|] == ops;
    }
  }
}
