/** What preferences mean: an ordered list of domains, of which the first that has a key gives its value. */
module SearchList {
  import opened Bytes

  /** An object; what it is does not matter here. */
  type Value = nat
  type Dictionary = map<string, Value>

  datatype App = AnyApplication | Application(name: string)
  datatype User = CurrentUser | AnyUser
  datatype Host = CurrentHost | AnyHost
  /** A standard domain, or one that a caller adds. */
  datatype Domain = Domain(app: App, user: User, host: Host) | Added(id: nat)

  /** The contents of the domains; a domain that is missing is empty. */
  type Domains = map<Domain, Dictionary>

  function Entries(domains: Domains, domain: Domain): Dictionary {
    if domain in domains then domains[domain] else map[]
  }

  function Lookup(dict: Dictionary, key: string): Option<Value> {
    if key in dict then Some(dict[key]) else None
  }

  function OrElse(a: Option<Value>, b: Option<Value>): Option<Value> {
    if a.Some? then a else b
  }

  function FirstMatch(search: seq<Domain>, domains: Domains, key: string): Option<Value> {
    if search == [] then None
    else OrElse(Lookup(Entries(domains, search[0]), key), FirstMatch(search[1..], domains, key))
  }

  /** All domains in one dictionary, each overriding those behind it. */
  function Merged(search: seq<Domain>, domains: Domains): (dict: Dictionary) {
    if search == [] then map[] else Merged(search[1..], domains) + Entries(domains, search[0])
  }

  /** Looking up in the merged dictionary is searching down the list. */
  lemma {:induction false} MergedIsFirstMatch(search: seq<Domain>, domains: Domains, key: string)
    ensures Lookup(Merged(search, domains), key) == FirstMatch(search, domains, key)
  {
    if search != [] {
      MergedIsFirstMatch(search[1..], domains, key);
    }
  }

  /** A domain with one key set to a value, or without it. */
  function SetKey(domains: Domains, domain: Domain, key: string, value: Option<Value>): (r: Domains) {
    var dict := Entries(domains, domain);
    domains[domain := if value.Some? then dict[key := value.value] else dict - {key}]
  }

  lemma {:induction false} FirstMatchConcat(s: seq<Domain>, t: seq<Domain>, domains: Domains, key: string)
    ensures FirstMatch(s + t, domains, key) == OrElse(FirstMatch(s, domains, key), FirstMatch(t, domains, key))
  {
    if s == [] {
      assert s + t == t;
    } else {
      assert (s + t)[1..] == s[1..] + t;
      FirstMatchConcat(s[1..], t, domains, key);
    }
  }

  /** What a list without the domain finds does not change. */
  lemma {:induction false} SetElsewhere(search: seq<Domain>, domains: Domains, domain: Domain, key: string, value: Option<Value>)
    requires domain !in search
    ensures Merged(search, SetKey(domains, domain, key, value)) == Merged(search, domains)
    ensures forall k :: FirstMatch(search, SetKey(domains, domain, key, value), k) == FirstMatch(search, domains, k)
  {
    if search != [] {
      SetElsewhere(search[1..], domains, domain, key, value);
    }
  }

  /** What a list finds changes for the key that was set and no other. */
  lemma {:induction false} OtherKeysStay(search: seq<Domain>, domains: Domains, domain: Domain, key: string, value: Option<Value>,
                                         other: string)
    requires other != key
    ensures FirstMatch(search, SetKey(domains, domain, key, value), other) == FirstMatch(search, domains, other)
  {
    if search != [] {
      OtherKeysStay(search[1..], domains, domain, key, value, other);
    }
  }

  /** The list behind the first place of a domain. */
  function Behind(search: seq<Domain>, domain: Domain): seq<Domain> {
    if search == [] then [] else if search[0] == domain then search[1..] else Behind(search[1..], domain)
  }

  function InFront(search: seq<Domain>, domain: Domain): (s: seq<Domain>)
    ensures domain !in s
  {
    if search == [] || search[0] == domain then [] else [search[0]] + InFront(search[1..], domain)
  }

  lemma {:induction false} AroundDomain(search: seq<Domain>, domain: Domain)
    requires domain in search
    ensures search == InFront(search, domain) + [domain] + Behind(search, domain)
  {
    if search[0] != domain {
      AroundDomain(search[1..], domain);
    }
  }

  function Without(search: seq<Domain>, domain: Domain): (s: seq<Domain>)
    ensures domain !in s
  {
    if search == [] then []
    else (if search[0] == domain then [] else [search[0]]) + Without(search[1..], domain)
  }

  /** A domain that does not have the key does not matter, and neither does its being there again. */
  lemma {:induction false} RepeatsDoNotMatter(search: seq<Domain>, domains: Domains, domain: Domain, key: string)
    requires Lookup(Entries(domains, domain), key).None?
    ensures FirstMatch(search, domains, key) == FirstMatch(Without(search, domain), domains, key)
  {
    if search != [] {
      RepeatsDoNotMatter(search[1..], domains, domain, key);
      var rest := Without(search, domain);
      if search[0] == domain {
        assert rest == Without(search[1..], domain);
      } else {
        assert rest == [search[0]] + Without(search[1..], domain);
        assert rest[1..] == Without(search[1..], domain);
      }
    }
  }

  /** What a list that has the domain finds: in front of it, in it, or behind it. */
  lemma {:induction false} FoundAround(search: seq<Domain>, domains: Domains, domain: Domain, key: string)
    requires domain in search
    ensures FirstMatch(search, domains, key) ==
            OrElse(FirstMatch(InFront(search, domain), domains, key),
                   OrElse(Lookup(Entries(domains, domain), key), FirstMatch(Without(Behind(search, domain), domain), domains, key)))
  {
    var front, behind := InFront(search, domain), Behind(search, domain);
    AroundDomain(search, domain);
    FirstMatchConcat(front + [domain], behind, domains, key);
    FirstMatchConcat(front, [domain], domains, key);
    assert FirstMatch([domain], domains, key) == OrElse(Lookup(Entries(domains, domain), key), FirstMatch([], domains, key));
    if Lookup(Entries(domains, domain), key).None? {
      RepeatsDoNotMatter(behind, domains, domain, key);
    }
  }

  /** Setting a key in one domain changes what a list finds if and only if no domain in front has the key and the value
      found from there on was another. */
  lemma {:induction false} SetChangesIff(search: seq<Domain>, domains: Domains, domain: Domain, key: string, value: Option<Value>)
    requires domain in search
    ensures var front := FirstMatch(InFront(search, domain), domains, key);
            var below := FirstMatch(Without(Behind(search, domain), domain), domains, key);
            FirstMatch(search, SetKey(domains, domain, key, value), key) != FirstMatch(search, domains, key) <==>
              front.None? && OrElse(value, below) != OrElse(Lookup(Entries(domains, domain), key), below)
  {
    var after := SetKey(domains, domain, key, value);
    FoundAround(search, domains, domain, key);
    FoundAround(search, after, domain, key);
    SetElsewhere(InFront(search, domain), domains, domain, key, value);
    SetElsewhere(Without(Behind(search, domain), domain), domains, domain, key, value);
  }
}
