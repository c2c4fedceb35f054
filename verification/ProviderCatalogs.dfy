/** `ProviderCatalog`, `ProviderResolver` and `resolve_provider_catalogs` of
    `inc/adapters/registry.py`, and the resolver defaults of `_build_services` in
    `inc/api/container.py`. */
module ProviderCatalogs {
  import Text
  import A = AdapterBindings
  import opened Dicts
  import opened SortedKeys
  import opened Wrappers

  /** A provider object: the adapter it was built by and its `key` attribute, if it has one. */
  datatype Provider = Provider(adapter: string, key: Option<string>)

  datatype CatalogError = Frozen(key: string) | Duplicate(key: string) | Unknown(key: string) | SettingsFailed

  // ---------------------------------------------------------------- the catalog

  class ProviderCatalog {
    const port: string
    var providers: Dict<Provider>
    var frozen: bool

    constructor (port: string)
      ensures this.port == port && providers == [] && !frozen
    {
      this.port := port;
      providers, frozen := [], false;
    }

    method Register(key: string, provider: Provider) returns (error: Option<CatalogError>)
      modifies this
      ensures frozen == old(frozen)
      ensures error == if old(frozen) then Some(Frozen(key))
                       else if key in Keys(old(providers)) then Some(Duplicate(key)) else None
      ensures providers == if error.None? then old(providers) + [(key, provider)] else old(providers)
      ensures old(IsDict(providers)) ==> IsDict(providers)
    {
      GetFindsKeys(providers, key);
      if frozen {
        return Some(Frozen(key));
      }
      if Get(providers, key).Some? {
        return Some(Duplicate(key));
      }
      AppendIsDict(providers, key, provider);
      providers := providers + [(key, provider)];
      return None;
    }

    method Freeze()
      modifies this
      ensures frozen && providers == old(providers)
    {
      frozen := true;
    }
  }

  /** `keys()`: sorted. */
  function SortedCatalogKeys(d: Dict<Provider>): seq<string> {
    Sort(Keys(d))
  }

  function Require(d: Dict<Provider>, key: string): Result<Provider, CatalogError> {
    match Get(d, key)
    case None => Failure(Unknown(key))
    case Some(p) => Success(p)
  }

  /** `registrations()`: every entry once, in key order. */
  function Registrations(d: Dict<Provider>): seq<(string, Provider)> {
    PickEntries(d, SortedCatalogKeys(d))
  }

  function PickEntries(d: Dict<Provider>, keys: seq<string>): seq<(string, Provider)> {
    if keys == [] then []
    else (if Get(d, keys[0]).Some? then [(keys[0], Get(d, keys[0]).value)] else []) + PickEntries(d, keys[1..])
  }

  lemma {:induction false} PickedKeys(d: Dict<Provider>, keys: seq<string>)
    requires forall k :: k in keys ==> k in Keys(d)
    ensures Keys(PickEntries(d, keys)) == keys
  {
    if keys != [] {
      GetFindsKeys(d, keys[0]);
      PickedKeys(d, keys[1..]);
      assert keys == [keys[0]] + keys[1..];
      var first := (keys[0], Get(d, keys[0]).value);
      assert ([first] + PickEntries(d, keys[1..]))[1..] == PickEntries(d, keys[1..]);
    }
  }

  /** The registrations list the sorted keys, so the catalog does not depend on the order in which it
      was filled. */
  lemma RegistrationsAreSorted(d: Dict<Provider>, d': Dict<Provider>)
    requires IsDict(d) && IsDict(d') && forall k :: Get(d, k) == Get(d', k)
    ensures Keys(Registrations(d)) == SortedCatalogKeys(d) && Increasing(SortedCatalogKeys(d))
    ensures Registrations(d) == Registrations(d')
  {
    SortIsIncreasing(Keys(d));
    SortIsIncreasing(Keys(d'));
    forall k
      ensures k in Keys(d) <==> k in Keys(d')
    {
      GetFindsKeys(d, k);
      GetFindsKeys(d', k);
    }
    IncreasingIsUnique(Sort(Keys(d)), Sort(Keys(d')));
    PickedKeys(d, Sort(Keys(d)));
    PickSame(d, d', Sort(Keys(d)));
  }

  lemma {:induction false} PickSame(d: Dict<Provider>, d': Dict<Provider>, keys: seq<string>)
    requires forall k :: Get(d, k) == Get(d', k)
    ensures PickEntries(d, keys) == PickEntries(d', keys)
  {
    if keys != [] {
      PickSame(d, d', keys[1..]);
    }
  }

  // ---------------------------------------------------------------- building the catalogs

  /** What the composition root knows of an adapter: the capabilities it needs and its provider. */
  datatype AdapterTable = AdapterTable(
    requirements: map<string, seq<string>>, keyOf: map<string, string>)

  datatype ProviderPort = ProviderPort(owner: string, capabilities: seq<string>, adapters: seq<string>)

  function ProviderOf(t: AdapterTable, adapter: string): Provider {
    Provider(adapter, if adapter in t.keyOf then Some(t.keyOf[adapter]) else None)
  }

  /** `str(getattr(bound, "key", adapter_key))`. */
  function RegisteredKey(t: AdapterTable, adapter: string): string {
    if adapter in t.keyOf then t.keyOf[adapter] else adapter
  }

  predicate AllIn(names: seq<string>, capabilities: set<string>) {
    forall i :: 0 <= i < |names| ==> names[i] in capabilities
  }

  lemma AllInAsSets(names: seq<string>, capabilities: set<string>)
    ensures AllIn(names, capabilities) <==> Text.Elements(names) <= capabilities
  {
    forall i | 0 <= i < |names|
      ensures names[i] in Text.Elements(names)
    {
    }
  }

  predicate AdapterEnabled(t: AdapterTable, adapter: string, capabilities: set<string>) {
    adapter in t.requirements ==> AllIn(t.requirements[adapter], capabilities)
  }

  predicate PortEnabled(p: ProviderPort, capabilities: set<string>) {
    p.owner in capabilities && AllIn(p.capabilities, capabilities)
  }

  /** The entries of a port's catalog: its enabled adapters, in table order. */
  function CatalogEntries(t: AdapterTable, adapters: seq<string>, capabilities: set<string>): Dict<Provider> {
    if adapters == [] then []
    else
      var front, last := adapters[..|adapters| - 1], adapters[|adapters| - 1];
      CatalogEntries(t, front, capabilities)
      + (if AdapterEnabled(t, last, capabilities) then [(RegisteredKey(t, last), ProviderOf(t, last))] else [])
  }

  /** The adapters of a provider port have their branch in `resolve_adapters`, and none of them needs a
      collaborator that may be absent. */
  ghost predicate ProvidersFit(port: string, adapters: seq<string>, multi: set<string>) {
    forall i :: 0 <= i < |adapters| ==>
      && A.Resolvable([(port, adapters[i])], multi)
      && forall env :: A.Buildable(adapters[i], env)
  }

  /** The provider behind a port resolved on its own: a tuple of one is unwrapped. */
  method ResolveOne(t: AdapterTable, port: string, adapter: string, multi: set<string>, env: A.Environment)
    returns (provider: Provider)
    requires ProvidersFit(port, [adapter], multi)
    ensures provider == ProviderOf(t, adapter)
  {
    var binding := [(port, adapter)];
    assert A.Buildable([adapter][0], env) && A.Resolvable([(port, [adapter][0])], multi);
    A.ResolvableMeansEach(binding, multi, env, 0);
    var resolved := A.ResolveAdapters(binding, multi, env);
    assert binding[0].0 in A.PortsOf(binding);
    assert binding[..0] == [] && binding[..1] == binding && A.BoundTo(binding, port) == [adapter];
    var bound := match resolved.value[port]
      case One(a) => a
      case Several(list) => list[0];
    provider := ProviderOf(t, bound);
  }

  /** The test before a port's catalog is made. */
  method MayProvide(p: ProviderPort, capabilities: set<string>) returns (may: bool)
    ensures may <==> PortEnabled(p, capabilities)
  {
    AllInAsSets(p.capabilities, capabilities);
    return p.owner in capabilities && Text.Elements(p.capabilities) <= capabilities;
  }

  method BuildCatalog(t: AdapterTable, port: string, adapters: seq<string>, capabilities: set<string>,
                      multi: set<string>, env: A.Environment)
    returns (catalog: ProviderCatalog, error: Option<CatalogError>)
    requires ProvidersFit(port, adapters, multi)
    ensures fresh(catalog)
    ensures error.None? <==> IsDict(CatalogEntries(t, adapters, capabilities))
    ensures error.None? ==>
              && catalog.port == port && catalog.frozen
              && catalog.providers == CatalogEntries(t, adapters, capabilities)
    ensures error.Some? ==>
              error.value.Duplicate?
              && IsFirstRepeat(Keys(CatalogEntries(t, adapters, capabilities)), error.value.key)
  {
    catalog := new ProviderCatalog(port);
    for i := 0 to |adapters|
      invariant fresh(catalog) && !catalog.frozen && catalog.port == port
      invariant catalog.providers == CatalogEntries(t, adapters[..i], capabilities) && IsDict(catalog.providers)
    {
      var adapter := adapters[i];
      EntriesNext(t, adapters, capabilities, i);
      if !AdapterEnabled(t, adapter, capabilities) {
        continue;
      }
      assert ProvidersFit(port, [adapter], multi);
      var provider := ResolveOne(t, port, adapter, multi, env);
      error := catalog.Register(if provider.key.Some? then provider.key.value else adapter, provider);
      if error.Some? {
        RepeatedKeyIsNoDict(t, adapters, capabilities, i);
        return;
      }
    }
    assert adapters[..|adapters|] == adapters;
    catalog.Freeze();
    error := None;
  }

  lemma EntriesNext(t: AdapterTable, adapters: seq<string>, capabilities: set<string>, i: nat)
    requires i < |adapters|
    ensures var earlier := CatalogEntries(t, adapters[..i], capabilities);
            CatalogEntries(t, adapters[..i + 1], capabilities)
            == if AdapterEnabled(t, adapters[i], capabilities)
               then earlier + [(RegisteredKey(t, adapters[i]), ProviderOf(t, adapters[i]))] else earlier
  {
    assert adapters[..i + 1][..i] == adapters[..i];
  }

  /** The first key that an earlier one repeats. */
  ghost predicate IsFirstRepeat(keys: seq<string>, key: string) {
    exists i :: 0 <= i < |keys| && keys[i] == key && key in keys[..i] && Distinct(keys[..i])
  }

  lemma {:induction false} EntriesGrow(t: AdapterTable, adapters: seq<string>, capabilities: set<string>, i: nat)
    requires i <= |adapters|
    ensures Keys(CatalogEntries(t, adapters[..i], capabilities)) <= Keys(CatalogEntries(t, adapters, capabilities))
    decreases |adapters|
  {
    if i == |adapters| {
      assert adapters[..i] == adapters;
    } else {
      var front, last := adapters[..|adapters| - 1], adapters[|adapters| - 1];
      EntriesGrow(t, front, capabilities, i);
      assert front[..i] == adapters[..i];
      var earlier := CatalogEntries(t, front, capabilities);
      AppendIsDict(earlier, RegisteredKey(t, last), ProviderOf(t, last));
      assert !AdapterEnabled(t, last, capabilities) ==> CatalogEntries(t, adapters, capabilities) == earlier;
    }
  }

  /** Once a key repeats, no later adapter makes the entries a dict again. */
  lemma RepeatedKeyIsNoDict(t: AdapterTable, adapters: seq<string>, capabilities: set<string>, i: nat)
    requires i < |adapters| && AdapterEnabled(t, adapters[i], capabilities)
    requires IsDict(CatalogEntries(t, adapters[..i], capabilities))
    requires RegisteredKey(t, adapters[i]) in Keys(CatalogEntries(t, adapters[..i], capabilities))
    ensures !IsDict(CatalogEntries(t, adapters, capabilities))
    ensures IsFirstRepeat(Keys(CatalogEntries(t, adapters, capabilities)), RegisteredKey(t, adapters[i]))
  {
    var key := RegisteredKey(t, adapters[i]);
    var earlier := CatalogEntries(t, adapters[..i], capabilities);
    var all := Keys(CatalogEntries(t, adapters, capabilities));
    assert adapters[..i + 1][..i] == adapters[..i];
    AppendIsDict(earlier, key, ProviderOf(t, adapters[i]));
    EntriesGrow(t, adapters, capabilities, i + 1);
    var n := |Keys(earlier)|;
    assert Keys(earlier) + [key] <= all;
    assert all[..n] == Keys(earlier) && all[n] == key;
    var k :| 0 <= k < n && Keys(earlier)[k] == key;
    assert all[k] == all[n];
  }

  /** The port's adapters collide under the enabled capabilities. */
  ghost predicate Collides(t: AdapterTable, p: ProviderPort, capabilities: set<string>) {
    PortEnabled(p, capabilities) && !IsDict(CatalogEntries(t, p.adapters, capabilities))
  }

  /** The first collision met in table order. */
  ghost predicate IsFirstCollision(t: AdapterTable, ports: Dict<ProviderPort>, capabilities: set<string>,
                                   error: CatalogError)
  {
    exists i :: 0 <= i < |ports| && Collides(t, ports[i].1, capabilities)
      && (forall j :: 0 <= j < i ==> !Collides(t, ports[j].1, capabilities))
      && error.Duplicate? && IsFirstRepeat(Keys(CatalogEntries(t, ports[i].1.adapters, capabilities)), error.key)
  }

  /** A frozen catalog with the entries of its port. */
  ghost predicate IsCatalogOf(catalog: ProviderCatalog, t: AdapterTable, entry: (string, ProviderPort),
                              capabilities: set<string>)
    reads catalog
  {
    && catalog.port == entry.0 && catalog.frozen
    && catalog.providers == CatalogEntries(t, entry.1.adapters, capabilities)
  }

  /** The enabled ones of the first `n` ports. */
  function EnabledPorts(ports: Dict<ProviderPort>, n: nat, capabilities: set<string>): set<string>
    requires n <= |ports|
  {
    if n == 0 then {}
    else
      EnabledPorts(ports, n - 1, capabilities)
      + if PortEnabled(ports[n - 1].1, capabilities) then {ports[n - 1].0} else {}
  }

  lemma {:induction false} EnabledPortsAre(ports: Dict<ProviderPort>, n: nat, capabilities: set<string>, p: string)
    requires n <= |ports|
    ensures p in EnabledPorts(ports, n, capabilities) <==>
              exists i :: 0 <= i < n && ports[i].0 == p && PortEnabled(ports[i].1, capabilities)
  {
    if n > 0 {
      EnabledPortsAre(ports, n - 1, capabilities, p);
    }
  }

  lemma EarlierPortsDiffer(ports: Dict<ProviderPort>, n: nat)
    requires IsDict(ports) && n < |ports|
    ensures forall j :: 0 <= j < n ==> ports[j].0 != ports[n].0
  {
    KeysByIndex(ports);
    assert forall j :: 0 <= j < n ==> Keys(ports)[j] != Keys(ports)[n];
  }

  ghost predicate NoCollision(t: AdapterTable, ports: Dict<ProviderPort>, n: nat, capabilities: set<string>)
    requires n <= |ports|
  {
    forall j :: 0 <= j < n ==> !Collides(t, ports[j].1, capabilities)
  }

  lemma NoCollisionNext(t: AdapterTable, ports: Dict<ProviderPort>, i: nat, capabilities: set<string>)
    requires i < |ports| && NoCollision(t, ports, i, capabilities)
    requires !PortEnabled(ports[i].1, capabilities) || IsDict(CatalogEntries(t, ports[i].1.adapters, capabilities))
    ensures NoCollision(t, ports, i + 1, capabilities)
  {
    assert !Collides(t, ports[i].1, capabilities);
  }

  lemma CollisionAt(t: AdapterTable, ports: Dict<ProviderPort>, i: nat, capabilities: set<string>, error: CatalogError)
    requires i < |ports| && NoCollision(t, ports, i, capabilities) && PortEnabled(ports[i].1, capabilities)
    requires !IsDict(CatalogEntries(t, ports[i].1.adapters, capabilities))
    requires error.Duplicate? && IsFirstRepeat(Keys(CatalogEntries(t, ports[i].1.adapters, capabilities)), error.key)
    ensures IsFirstCollision(t, ports, capabilities, error) && !NoCollision(t, ports, |ports|, capabilities)
  {
    assert Collides(t, ports[i].1, capabilities);
  }

  /** The catalogs are those of the enabled ones of the first `n` ports. */
  ghost predicate AreCatalogs(catalogs: map<string, ProviderCatalog>, t: AdapterTable, ports: Dict<ProviderPort>,
                              n: nat, capabilities: set<string>)
    requires n <= |ports|
    reads set p | p in catalogs :: catalogs[p]
  {
    && catalogs.Keys == EnabledPorts(ports, n, capabilities)
    && forall j :: 0 <= j < n && ports[j].0 in catalogs ==>
         IsCatalogOf(catalogs[ports[j].0], t, ports[j], capabilities)
  }

  lemma DisabledPortAddsNothing(catalogs: map<string, ProviderCatalog>, t: AdapterTable, ports: Dict<ProviderPort>,
                                i: nat, capabilities: set<string>)
    requires IsDict(ports) && i < |ports| && AreCatalogs(catalogs, t, ports, i, capabilities)
    requires !PortEnabled(ports[i].1, capabilities)
    ensures AreCatalogs(catalogs, t, ports, i + 1, capabilities)
  {
    EarlierPortsDiffer(ports, i);
    EnabledPortsAre(ports, i, capabilities, ports[i].0);
  }

  lemma EnabledPortAddsCatalog(catalogs: map<string, ProviderCatalog>, catalog: ProviderCatalog, t: AdapterTable,
                               ports: Dict<ProviderPort>, i: nat, capabilities: set<string>)
    requires IsDict(ports) && i < |ports| && AreCatalogs(catalogs, t, ports, i, capabilities)
    requires PortEnabled(ports[i].1, capabilities) && IsCatalogOf(catalog, t, ports[i], capabilities)
    ensures AreCatalogs(catalogs[ports[i].0 := catalog], t, ports, i + 1, capabilities)
  {
    EarlierPortsDiffer(ports, i);
  }

  /** One frozen catalog for every enabled provider port, or the first key collision. */
  method ResolveProviderCatalogs(t: AdapterTable, ports: Dict<ProviderPort>, capabilities: set<string>,
                                 multi: set<string>, env: A.Environment)
    returns (catalogs: map<string, ProviderCatalog>, error: Option<CatalogError>)
    requires IsDict(ports)
    requires forall i :: 0 <= i < |ports| ==> ProvidersFit(ports[i].0, ports[i].1.adapters, multi)
    ensures error.None? <==> NoCollision(t, ports, |ports|, capabilities)
    ensures error.Some? ==> IsFirstCollision(t, ports, capabilities, error.value)
    ensures error.None? ==> AreCatalogs(catalogs, t, ports, |ports|, capabilities)
    ensures forall p :: p in catalogs ==> fresh(catalogs[p])
  {
    catalogs := map[];
    for i := 0 to |ports|
      invariant NoCollision(t, ports, i, capabilities)
      invariant AreCatalogs(catalogs, t, ports, i, capabilities)
      invariant forall p :: p in catalogs ==> fresh(catalogs[p])
    {
      var (port, p) := ports[i];
      var enabled := MayProvide(p, capabilities);
      if !enabled {
        DisabledPortAddsNothing(catalogs, t, ports, i, capabilities);
        NoCollisionNext(t, ports, i, capabilities);
        continue;
      }
      var catalog;
      catalog, error := BuildCatalog(t, port, p.adapters, capabilities, multi, env);
      if error.Some? {
        CollisionAt(t, ports, i, capabilities, error.value);
        return;
      }
      EnabledPortAddsCatalog(catalogs, catalog, t, ports, i, capabilities);
      NoCollisionNext(t, ports, i, capabilities);
      catalogs := catalogs[port := catalog];
    }
    error := None;
  }

  predicate Offers(t: AdapterTable, adapter: string, capabilities: set<string>, key: string) {
    AdapterEnabled(t, adapter, capabilities) && RegisteredKey(t, adapter) == key
  }

  /** A built catalog offers exactly the keys of the enabled adapters. */
  lemma {:induction false} CatalogKeysAreEnabledAdapters(t: AdapterTable, adapters: seq<string>,
                                                         capabilities: set<string>, key: string)
    ensures key in Keys(CatalogEntries(t, adapters, capabilities)) <==>
              exists i :: 0 <= i < |adapters| && Offers(t, adapters[i], capabilities, key)
  {
    if adapters != [] {
      var front, last := adapters[..|adapters| - 1], adapters[|adapters| - 1];
      CatalogKeysAreEnabledAdapters(t, front, capabilities, key);
      AppendIsDict(CatalogEntries(t, front, capabilities), RegisteredKey(t, last), ProviderOf(t, last));
      assert !AdapterEnabled(t, last, capabilities) ==>
               CatalogEntries(t, adapters, capabilities) == CatalogEntries(t, front, capabilities);
      assert forall i :: 0 <= i < |front| ==> front[i] == adapters[i];
      assert (exists i :: 0 <= i < |adapters| && Offers(t, adapters[i], capabilities, key)) <==>
               || (exists i :: 0 <= i < |front| && Offers(t, front[i], capabilities, key))
               || Offers(t, last, capabilities, key);
    }
  }

  // ---------------------------------------------------------------- the composed default

  /** The part of an adapter key after its first dot, or all of it. */
  function Suffix(key: string): string {
    var dot := Text.IndexOf(key, '.');
    if dot < |key| then key[dot + 1..] else key
  }

  /** `catalog.get(adapter_key) or catalog.get(suffix)`. */
  function FindBound(d: Dict<Provider>, adapter: string): Option<Provider> {
    if Get(d, adapter).Some? then Get(d, adapter) else Get(d, Suffix(adapter))
  }

  /** The first provider that one of the manifest's bindings of the port names. */
  function FirstBound(d: Dict<Provider>, bindings: seq<(string, string)>, port: string): Option<Provider> {
    if bindings == [] then None
    else if bindings[0].0 == port && FindBound(d, bindings[0].1).Some? then FindBound(d, bindings[0].1)
    else FirstBound(d, bindings[1..], port)
  }

  /** `getattr(bound, "key", None)`. */
  function DefaultKey(d: Dict<Provider>, bindings: seq<(string, string)>, port: string): Option<string> {
    match FirstBound(d, bindings, port)
    case None => None
    case Some(p) => p.key
  }

  /** The adapter is one of the port's and enabled. */
  predicate Offered(t: AdapterTable, adapters: seq<string>, capabilities: set<string>, adapter: string) {
    adapter in adapters && AdapterEnabled(t, adapter, capabilities)
  }

  /** An adapter is offered when it is listed and everything it requires is enabled. */
  lemma OfferedMeans(t: AdapterTable, adapters: seq<string>, capabilities: set<string>, adapter: string)
    ensures Offered(t, adapters, capabilities, adapter) <==>
              && adapter in adapters
              && forall c :: adapter in t.requirements && c in t.requirements[adapter] ==> c in capabilities
  {
    if adapter in t.requirements {
      AllInAsSets(t.requirements[adapter], capabilities);
      if AllIn(t.requirements[adapter], capabilities) {
        forall c | c in t.requirements[adapter]
          ensures c in capabilities
        {
          assert c in Text.Elements(t.requirements[adapter]);
        }
      }
    }
  }

  lemma LastEntry(t: AdapterTable, adapters: seq<string>, capabilities: set<string>, key: string)
    requires adapters != []
    ensures var front, last := adapters[..|adapters| - 1], adapters[|adapters| - 1];
            var earlier, all := CatalogEntries(t, front, capabilities), CatalogEntries(t, adapters, capabilities);
            && (IsDict(all) ==> IsDict(earlier))
            && (IsDict(all) && AdapterEnabled(t, last, capabilities) ==> Get(earlier, RegisteredKey(t, last)).None?)
            && Get(all, key) == if Get(earlier, key).None? && AdapterEnabled(t, last, capabilities)
                                   && key == RegisteredKey(t, last) then Some(ProviderOf(t, last))
                                else Get(earlier, key)
  {
    var front, last := adapters[..|adapters| - 1], adapters[|adapters| - 1];
    var earlier, all := CatalogEntries(t, front, capabilities), CatalogEntries(t, adapters, capabilities);
    AppendIsDict(earlier, RegisteredKey(t, last), ProviderOf(t, last));
    GetFindsKeys(earlier, RegisteredKey(t, last));
    if AdapterEnabled(t, last, capabilities) {
      assert Keys(all) == Keys(earlier) + [RegisteredKey(t, last)];
      assert forall i :: 0 <= i < |Keys(earlier)| ==> Keys(all)[i] == Keys(earlier)[i];
      assert Keys(all)[|Keys(earlier)|] == RegisteredKey(t, last);
    } else {
      assert all == earlier;
    }
  }

  /** An entry belongs to an offered adapter, under its key. */
  lemma {:induction false} EntryIsOffered(t: AdapterTable, adapters: seq<string>, capabilities: set<string>,
                                          key: string)
    requires Get(CatalogEntries(t, adapters, capabilities), key).Some?
    ensures var p := Get(CatalogEntries(t, adapters, capabilities), key).value;
            && Offered(t, adapters, capabilities, p.adapter) && p == ProviderOf(t, p.adapter)
            && RegisteredKey(t, p.adapter) == key
  {
    LastEntry(t, adapters, capabilities, key);
    var front := adapters[..|adapters| - 1];
    if Get(CatalogEntries(t, front, capabilities), key).Some? {
      EntryIsOffered(t, front, capabilities, key);
    }
  }

  /** In a catalog without key collisions an offered adapter has its entry. */
  lemma {:induction false} OfferedHasEntry(t: AdapterTable, adapters: seq<string>, capabilities: set<string>,
                                           adapter: string)
    requires IsDict(CatalogEntries(t, adapters, capabilities)) && Offered(t, adapters, capabilities, adapter)
    ensures Get(CatalogEntries(t, adapters, capabilities), RegisteredKey(t, adapter)) == Some(ProviderOf(t, adapter))
  {
    LastEntry(t, adapters, capabilities, RegisteredKey(t, adapter));
    var front, last := adapters[..|adapters| - 1], adapters[|adapters| - 1];
    if adapter != last {
      assert adapters == front + [last];
      OfferedHasEntry(t, front, capabilities, adapter);
    }
  }

  lemma {:induction false} BoundIsInCatalog(d: Dict<Provider>, bindings: seq<(string, string)>, port: string)
    requires FirstBound(d, bindings, port).Some?
    ensures exists key :: Get(d, key) == FirstBound(d, bindings, port)
  {
    if bindings[0].0 == port && FindBound(d, bindings[0].1).Some? {
      if Get(d, bindings[0].1).None? {
        assert Get(d, Suffix(bindings[0].1)) == FirstBound(d, bindings, port);
      }
    } else {
      BoundIsInCatalog(d, bindings[1..], port);
    }
  }

  // ---------------------------------------------------------------- which provider the default is

  /** Looking the adapter up, under its own name or under its suffix, cannot find another one's entry: an
      offered adapter is registered under its name, or under its suffix while no other is registered
      under its name; and neither text is a key if it is not offered. */
  predicate Unambiguous(t: AdapterTable, adapters: seq<string>, capabilities: set<string>, adapter: string) {
    var keys := Keys(CatalogEntries(t, adapters, capabilities));
    if Offered(t, adapters, capabilities, adapter) then
      || RegisteredKey(t, adapter) == adapter
      || (adapter !in keys && RegisteredKey(t, adapter) == Suffix(adapter))
    else adapter !in keys && Suffix(adapter) !in keys
  }

  /** The lookup finds the adapter's own provider, or nothing for one that is not offered, exactly when
      the adapter is unambiguous. */
  lemma FoundIsOwnIff(t: AdapterTable, adapters: seq<string>, capabilities: set<string>, adapter: string)
    requires IsDict(CatalogEntries(t, adapters, capabilities))
    ensures var own := if Offered(t, adapters, capabilities, adapter) then Some(ProviderOf(t, adapter)) else None;
            FindBound(CatalogEntries(t, adapters, capabilities), adapter) == own <==>
              Unambiguous(t, adapters, capabilities, adapter)
  {
    var d := CatalogEntries(t, adapters, capabilities);
    GetFindsKeys(d, adapter);
    GetFindsKeys(d, Suffix(adapter));
    if Offered(t, adapters, capabilities, adapter) {
      OfferedHasEntry(t, adapters, capabilities, adapter);
    }
    if Get(d, adapter).Some? {
      EntryIsOffered(t, adapters, capabilities, adapter);
    }
    if Get(d, Suffix(adapter)).Some? {
      EntryIsOffered(t, adapters, capabilities, Suffix(adapter));
    }
  }

  /** The first binding of the port whose adapter is offered. */
  ghost predicate IsFirstBound(t: AdapterTable, adapters: seq<string>, capabilities: set<string>,
                               bindings: seq<(string, string)>, port: string, i: nat)
  {
    && i < |bindings| && bindings[i].0 == port && Offered(t, adapters, capabilities, bindings[i].1)
    && forall j :: 0 <= j < i && bindings[j].0 == port ==> !Offered(t, adapters, capabilities, bindings[j].1)
  }

  ghost predicate BindingsUnambiguous(t: AdapterTable, adapters: seq<string>, capabilities: set<string>,
                                      bindings: seq<(string, string)>, port: string)
  {
    forall i :: 0 <= i < |bindings| && bindings[i].0 == port ==>
      Unambiguous(t, adapters, capabilities, bindings[i].1)
  }

  /** With unambiguous bindings the search finds the provider of the first binding whose adapter is
      offered. */
  lemma {:induction false} SearchFindsFirstBound(t: AdapterTable, adapters: seq<string>, capabilities: set<string>,
                                                 bindings: seq<(string, string)>, port: string, i: nat)
    requires IsDict(CatalogEntries(t, adapters, capabilities))
    requires BindingsUnambiguous(t, adapters, capabilities, bindings, port)
    requires IsFirstBound(t, adapters, capabilities, bindings, port, i)
    ensures FirstBound(CatalogEntries(t, adapters, capabilities), bindings, port)
            == Some(ProviderOf(t, bindings[i].1))
  {
    if bindings[0].0 == port {
      FoundIsOwnIff(t, adapters, capabilities, bindings[0].1);
    }
    if i > 0 {
      assert forall j :: 0 <= j < |bindings| - 1 ==> bindings[1..][j] == bindings[j + 1];
      SearchFindsFirstBound(t, adapters, capabilities, bindings[1..], port, i - 1);
    }
  }

  /** And it finds nothing when no adapter bound to the port is offered. */
  lemma {:induction false} SearchFindsNothing(t: AdapterTable, adapters: seq<string>, capabilities: set<string>,
                                              bindings: seq<(string, string)>, port: string)
    requires IsDict(CatalogEntries(t, adapters, capabilities))
    requires BindingsUnambiguous(t, adapters, capabilities, bindings, port)
    requires forall i :: 0 <= i < |bindings| && bindings[i].0 == port ==>
               !Offered(t, adapters, capabilities, bindings[i].1)
    ensures FirstBound(CatalogEntries(t, adapters, capabilities), bindings, port) == None
  {
    if bindings != [] {
      if bindings[0].0 == port {
        FoundIsOwnIff(t, adapters, capabilities, bindings[0].1);
      }
      assert forall j :: 0 <= j < |bindings| - 1 ==> bindings[1..][j] == bindings[j + 1];
      SearchFindsNothing(t, adapters, capabilities, bindings[1..], port);
    }
  }

  /** The composed default is a key of its own catalog; with unambiguous bindings it is that of the first
      binding whose adapter is offered. */
  lemma DefaultIsInCatalog(t: AdapterTable, adapters: seq<string>, capabilities: set<string>,
                           bindings: seq<(string, string)>, port: string)
    ensures var d := CatalogEntries(t, adapters, capabilities);
            DefaultKey(d, bindings, port).Some? ==>
              Get(d, DefaultKey(d, bindings, port).value) == FirstBound(d, bindings, port)
    ensures var d := CatalogEntries(t, adapters, capabilities);
            IsDict(d) && BindingsUnambiguous(t, adapters, capabilities, bindings, port) ==>
              forall i: nat :: IsFirstBound(t, adapters, capabilities, bindings, port, i) ==>
                && FirstBound(d, bindings, port) == Some(ProviderOf(t, bindings[i].1))
                && DefaultKey(d, bindings, port) == ProviderOf(t, bindings[i].1).key
  {
    var d := CatalogEntries(t, adapters, capabilities);
    if DefaultKey(d, bindings, port).Some? {
      BoundIsInCatalog(d, bindings, port);
      var key :| Get(d, key) == FirstBound(d, bindings, port);
      EntryIsOffered(t, adapters, capabilities, key);
    }
    if IsDict(d) && BindingsUnambiguous(t, adapters, capabilities, bindings, port) {
      forall i: nat | IsFirstBound(t, adapters, capabilities, bindings, port, i) {
        SearchFindsFirstBound(t, adapters, capabilities, bindings, port, i);
      }
    }
  }

  /** Keys that make every known adapter unambiguous, whatever is enabled: each adapter of the port is
      registered under its name or its suffix, and neither is the name or suffix of another. */
  ghost predicate KeysFit(t: AdapterTable, adapters: seq<string>, known: set<string>) {
    forall i :: 0 <= i < |adapters| ==> KeyFits(RegisteredKey(t, adapters[i]), adapters[i], known)
  }

  ghost predicate KeyFits(key: string, adapter: string, known: set<string>) {
    && (key == adapter || key == Suffix(adapter))
    && forall other :: other in known && other != adapter ==> key != other && key != Suffix(other)
  }

  lemma FittingKeysAreUnambiguous(t: AdapterTable, adapters: seq<string>, known: set<string>,
                                  capabilities: set<string>, adapter: string)
    requires KeysFit(t, adapters, known) && adapter in known
    ensures Unambiguous(t, adapters, capabilities, adapter)
  {
    var d := CatalogEntries(t, adapters, capabilities);
    GetFindsKeys(d, adapter);
    GetFindsKeys(d, Suffix(adapter));
    if Get(d, adapter).Some? {
      EntryIsOffered(t, adapters, capabilities, adapter);
    }
    if Get(d, Suffix(adapter)).Some? {
      EntryIsOffered(t, adapters, capabilities, Suffix(adapter));
    }
  }

  /** An ambiguous binding finds the wrong provider: `other` is registered under the suffix of `adapter`,
      and `adapter` itself under neither its name nor its suffix. */
  lemma SuffixMayNameAnother(t: AdapterTable, other: string, adapter: string, port: string)
    requires t.requirements == map[] && other in t.keyOf && adapter in t.keyOf
    requires t.keyOf[other] == Suffix(adapter) != adapter && t.keyOf[adapter] !in {adapter, Suffix(adapter)}
    ensures IsDict(CatalogEntries(t, [other, adapter], {}))
    ensures FirstBound(CatalogEntries(t, [other, adapter], {}), [(port, adapter)], port)
            == Some(ProviderOf(t, other))
  {
    assert [other, adapter][..1] == [other] && [other][..0] == [];
    assert CatalogEntries(t, [], {}) == [];
    assert CatalogEntries(t, [other], {}) == [(t.keyOf[other], ProviderOf(t, other))];
    var d := CatalogEntries(t, [other, adapter], {});
    assert d == [(t.keyOf[other], ProviderOf(t, other)), (t.keyOf[adapter], ProviderOf(t, adapter))];
    assert d[1..] == [(t.keyOf[adapter], ProviderOf(t, adapter))] && Keys(d[1..]) == [t.keyOf[adapter]];
    assert Keys(d) == [t.keyOf[other], t.keyOf[adapter]];
    GetFindsKeys(d, adapter);
    assert FindBound(d, adapter) == Some(ProviderOf(t, other));
    var binding := [(port, adapter)];
    assert binding[0] == (port, adapter);
  }

  /** Such keys exist: were PayPal's `epay` and Epay's `other`, a binding to Epay would select PayPal. */
  lemma EpayCouldNamePaypal()
    ensures exists t, epay: string, paypal: string :: epay != paypal && IsDict(CatalogEntries(t, [paypal, epay], {}))
              && FirstBound(CatalogEntries(t, [paypal, epay], {}), [("payments.provider", epay)], "payments.provider")
                 == Some(ProviderOf(t, paypal))
  {
    var paypal, epay := "payments" + "." + "paypal", "payments" + "." + "epay";
    SuffixAfterDot("payments", "epay");
    assert |epay| == 13 && |paypal| == 15;
    var t := AdapterTable(map[], map[paypal := "epay", epay := "other"]);
    SuffixMayNameAnother(t, paypal, epay, "payments.provider");
  }

  /** The suffix is what follows the first dot; a text without a dot is its own. */
  lemma SuffixMeans(key: string, suffix: string)
    ensures Suffix(key) == suffix <==>
              || ('.' !in key && key == suffix)
              || (exists head :: '.' !in head && key == head + "." + suffix)
  {
    var dot := Text.IndexOf(key, '.');
    if dot < |key| {
      assert key == key[..dot] + "." + key[dot + 1..];
    } else {
      assert key[..dot] == key;
    }
    forall head | '.' !in head && key == head + "." + suffix
      ensures Suffix(key) == suffix
    {
      SuffixAfterDot(head, suffix);
    }
    if '.' !in key {
      Text.AbsentHasNoIndex(key, '.');
    }
  }

  lemma SuffixAfterDot(head: string, tail: string)
    requires '.' !in head
    ensures Suffix(head + "." + tail) == tail
  {
    var key := head + "." + tail;
    assert key[..|head|] == head && key[|head|] == '.';
    Text.FirstIndexIsUnique(key, '.', |head|);
    assert key[|head| + 1..] == tail;
  }

  // ---------------------------------------------------------------- selection

  /** What reading the setting yields: a value, nothing, an unknown group or field (which counts as
      nothing), or another failure. */
  datatype Setting = Value(text: string) | Absent | UnknownSetting | Broken

  function SelectedKey(d: Dict<Provider>, default: Option<string>, setting: Setting): Result<string, CatalogError> {
    if setting.Broken? then Failure(SettingsFailed)
    else
      var chosen := if setting.Value? then Text.Strip(setting.text) else "";
      var keys := SortedCatalogKeys(d);
      var key := if chosen != "" then chosen
                 else if default.Some? && default.value != "" then default.value
                 else if keys != [] then keys[0] else "";
      match Require(d, key)
      case Failure(e) => Failure(e)
      case Success(_) => Success(key)
  }

  lemma LeastKey(d: Dict<Provider>)
    requires IsDict(d) && d != []
    ensures var keys := SortedCatalogKeys(d);
            && keys != [] && keys[0] in Keys(d)
            && forall k :: k in Keys(d) ==> k == keys[0] || Less(keys[0], k)
  {
    SortIsIncreasing(Keys(d));
    assert Keys(d)[0] in Sort(Keys(d));
    forall k | k in Keys(d) {
      HeadIsLeast(Sort(Keys(d)), k);
    }
  }

  /** Without a setting a non-empty catalog always yields a provider: the one of the first binding whose
      adapter is offered, else the least key. With a setting it yields that key or an error, never another
      provider. */
  lemma SelectionNeverSubstitutes(t: AdapterTable, adapters: seq<string>, capabilities: set<string>,
                                  bindings: seq<(string, string)>, port: string, setting: Setting)
    requires var d := CatalogEntries(t, adapters, capabilities); IsDict(d) && d != []
    ensures var d := CatalogEntries(t, adapters, capabilities);
            var default := DefaultKey(d, bindings, port);
            var selected := SelectedKey(d, default, setting);
            && ((setting.Absent? || setting.UnknownSetting? || (setting.Value? && Text.AllSpace(setting.text))) ==>
                && selected.Success?
                && (default.Some? && default.value != "" ==>
                    selected.value == default.value && Get(d, selected.value) == FirstBound(d, bindings, port))
                && (default.None? || default.value == "" ==>
                    selected.value in Keys(d)
                    && forall k :: k in Keys(d) ==> k == selected.value || Less(selected.value, k)))
            && (setting.Value? && Text.Strip(setting.text) != "" ==>
                selected == if Text.Strip(setting.text) in Keys(d) then Success(Text.Strip(setting.text))
                            else Failure(Unknown(Text.Strip(setting.text))))
            && (setting.Broken? ==> selected == Failure(SettingsFailed))
            && ((setting.Absent? || setting.UnknownSetting? || (setting.Value? && Text.AllSpace(setting.text)))
                && BindingsUnambiguous(t, adapters, capabilities, bindings, port) ==>
                forall i: nat :: IsFirstBound(t, adapters, capabilities, bindings, port, i) ==>
                  var provider := ProviderOf(t, bindings[i].1);
                  provider.key.Some? && provider.key.value != "" ==>
                    selected == Success(provider.key.value) && Get(d, provider.key.value) == Some(provider))
  {
    var d := CatalogEntries(t, adapters, capabilities);
    if setting.Value? {
      Text.BlankIsStripped(setting.text);
    }
    DefaultIsInCatalog(t, adapters, capabilities, bindings, port);
    LeastKey(d);
    GetFindsKeys(d, SortedCatalogKeys(d)[0]);
    if setting.Value? {
      GetFindsKeys(d, Text.Strip(setting.text));
    }
  }

  /** Which provider an unset setting selects when a binding of the port is offered: the one the first
      such binding names, exactly when that provider has a key attribute that is not empty, or is
      registered under the least key anyway. */
  lemma UnsetSelectsFirstBoundIff(t: AdapterTable, adapters: seq<string>, capabilities: set<string>,
                                  bindings: seq<(string, string)>, port: string, setting: Setting, i: nat)
    requires IsDict(CatalogEntries(t, adapters, capabilities))
    requires setting.Absent? || setting.UnknownSetting? || (setting.Value? && Text.AllSpace(setting.text))
    requires BindingsUnambiguous(t, adapters, capabilities, bindings, port)
    requires IsFirstBound(t, adapters, capabilities, bindings, port, i)
    ensures var d := CatalogEntries(t, adapters, capabilities);
            var adapter := bindings[i].1;
            var selected := SelectedKey(d, DefaultKey(d, bindings, port), setting);
            && selected.Success?
            && SortedCatalogKeys(d) != []
            && (Get(d, selected.value) == Some(ProviderOf(t, adapter)) <==>
                || (adapter in t.keyOf && t.keyOf[adapter] != "")
                || SortedCatalogKeys(d)[0] == RegisteredKey(t, adapter))
  {
    var d := CatalogEntries(t, adapters, capabilities);
    var adapter := bindings[i].1;
    if setting.Value? {
      Text.BlankIsStripped(setting.text);
    }
    SearchFindsFirstBound(t, adapters, capabilities, bindings, port, i);
    OfferedHasEntry(t, adapters, capabilities, adapter);
    SelectionNeverSubstitutes(t, adapters, capabilities, bindings, port, setting);
    LeastKey(d);
    var least := SortedCatalogKeys(d)[0];
    GetFindsKeys(d, least);
    EntryIsOffered(t, adapters, capabilities, least);
  }

  // ---------------------------------------------------------------- the table that ships

  const SHIPPED_PORTS: Dict<ProviderPort> := [
    ("notification.email", ProviderPort("notification", ["settings"], ["email.smtp", "email.smtp2go"])),
    ("payments.provider", ProviderPort("payments", [], ["payments.paypal", "payments.epay"])),
    ("assets.object_storage", ProviderPort("assets", [], ["assets.s3"])),
    ("archive.delivery", ProviderPort("archive", [], ["archive.openlist", "archive.gofile"]))]

  lemma SingleBindingIsResolvable(port: string, adapter: string, multi: set<string>)
    requires adapter in A.SINGLE_BRANCHES + A.TUPLE_BRANCHES && (port in multi ==> adapter in A.TUPLE_BRANCHES)
    ensures A.Resolvable([(port, adapter)], multi)
  {
    var binding := [(port, adapter)];
    assert forall b :: b in binding ==> b == (port, adapter);
  }

  /** The shipped tables meet what the loops rely on. */
  lemma ShippedProvidersFit(p: nat)
    requires p < |SHIPPED_PORTS|
    ensures IsDict(SHIPPED_PORTS)
    ensures ProvidersFit(SHIPPED_PORTS[p].0, SHIPPED_PORTS[p].1.adapters, A.SHIPPED.multi)
  {
    KeysByIndex(SHIPPED_PORTS);
    var port, adapters := SHIPPED_PORTS[p].0, SHIPPED_PORTS[p].1.adapters;
    forall i | 0 <= i < |adapters|
      ensures A.Resolvable([(port, adapters[i])], A.SHIPPED.multi) && forall env :: A.Buildable(adapters[i], env)
    {
      SingleBindingIsResolvable(port, adapters[i], A.SHIPPED.multi);
    }
  }

  /** The `key` attributes of the provider classes. */
  const SHIPPED_KEYS: map<string, string> := map[
    "payments.paypal" := "paypal", "payments.epay" := "epay", "assets.s3" := "s3",
    "email.smtp" := "email.smtp", "email.smtp2go" := "email.smtp2go",
    "archive.openlist" := "archive.openlist", "archive.gofile" := "archive.gofile"]

  const SHIPPED_ADAPTERS := AdapterTable(A.SHIPPED_REQUIREMENTS, SHIPPED_KEYS)

  /** A suffix is what follows a dot at the end of the text, unless it is the text itself. */
  lemma SuffixEnds(text: string, key: string)
    requires Suffix(text) == key
    ensures text == key || (|key| < |text| && text[|text| - |key| - 1] == '.' && text[|text| - |key|..] == key)
  {
    var dot := Text.IndexOf(text, '.');
    if dot < |text| {
      assert text[dot + 1..] == key && |text| - |key| == dot + 1;
    }
  }

  /** The last character, or the place where the dot would be, tells the two apart. */
  predicate EndsApart(key: string, other: string) {
    && key != other && key != "" && other != ""
    && (|other| <= |key| || other[|other| - 1] != key[|key| - 1] || other[|other| - |key| - 1] != '.')
  }

  lemma ApartMeansUnique(key: string, other: string)
    requires EndsApart(key, other)
    ensures key != other && key != Suffix(other)
  {
    if Suffix(other) == key {
      SuffixEnds(other, key);
      LastOfEnd(other, key);
    }
  }

  lemma LastOfEnd(text: string, end: string)
    requires 0 < |end| <= |text|
    ensures text[|text| - |end|..] == end ==> text[|text| - 1] == end[|end| - 1]
  {
    assert text[|text| - |end|..][|end| - 1] == text[|text| - 1];
  }

  /** The key is the name, or what follows the name's only dot before it. */
  predicate EndsName(key: string, name: string) {
    || key == name
    || (|key| < |name| && name[|name| - |key|..] == key && name[|name| - |key| - 1] == '.'
        && '.' !in name[..|name| - |key| - 1])
  }

  lemma FitsByEnds(key: string, adapter: string, known: set<string>)
    requires EndsName(key, adapter) && forall other :: other in known && other != adapter ==> EndsApart(key, other)
    ensures KeyFits(key, adapter, known)
  {
    if key != adapter {
      var dot := |adapter| - |key| - 1;
      assert adapter == adapter[..dot] + "." + key;
      SuffixAfterDot(adapter[..dot], key);
    }
    forall other | other in known && other != adapter
      ensures key != other && key != Suffix(other)
    {
      ApartMeansUnique(key, other);
    }
  }

  lemma ShippedKeyEndsName(adapter: string)
    requires adapter in SHIPPED_KEYS
    ensures EndsName(SHIPPED_KEYS[adapter], adapter)
  {
  }

  lemma PaypalKeyEndsApart(other: string)
    requires other in A.SHIPPED_REQUIREMENTS && other != "payments.paypal"
    ensures "payments.paypal" in SHIPPED_KEYS && EndsApart(SHIPPED_KEYS["payments.paypal"], other)
  {
  }

  lemma EpayKeyEndsApart(other: string)
    requires other in A.SHIPPED_REQUIREMENTS && other != "payments.epay"
    ensures "payments.epay" in SHIPPED_KEYS && EndsApart(SHIPPED_KEYS["payments.epay"], other)
  {
  }

  lemma StorageKeyEndsApart(other: string)
    requires other in A.SHIPPED_REQUIREMENTS && other != "assets.s3"
    ensures "assets.s3" in SHIPPED_KEYS && EndsApart(SHIPPED_KEYS["assets.s3"], other)
  {
  }

  lemma EmailKeyEndsApart(adapter: string, other: string)
    requires adapter in {"email.smtp", "email.smtp2go"}
    requires other in A.SHIPPED_REQUIREMENTS && other != adapter
    ensures adapter in SHIPPED_KEYS && EndsApart(SHIPPED_KEYS[adapter], other)
  {
  }

  lemma OpenlistKeyEndsApart(other: string)
    requires other in A.SHIPPED_REQUIREMENTS && other != "archive.openlist"
    ensures "archive.openlist" in SHIPPED_KEYS && EndsApart(SHIPPED_KEYS["archive.openlist"], other)
  {
  }

  lemma GofileKeyEndsApart(other: string)
    requires other in A.SHIPPED_REQUIREMENTS && other != "archive.gofile"
    ensures "archive.gofile" in SHIPPED_KEYS && EndsApart(SHIPPED_KEYS["archive.gofile"], other)
  {
  }

  lemma ShippedKeyFits(adapter: string)
    requires adapter in SHIPPED_KEYS
    ensures KeyFits(SHIPPED_KEYS[adapter], adapter, A.SHIPPED_REQUIREMENTS.Keys)
  {
    ShippedKeyEndsName(adapter);
    forall other | other in A.SHIPPED_REQUIREMENTS && other != adapter
      ensures EndsApart(SHIPPED_KEYS[adapter], other)
    {
      if adapter == "payments.paypal" {
        PaypalKeyEndsApart(other);
      } else if adapter == "payments.epay" {
        EpayKeyEndsApart(other);
      } else if adapter == "assets.s3" {
        StorageKeyEndsApart(other);
      } else if adapter in {"email.smtp", "email.smtp2go"} {
        EmailKeyEndsApart(adapter, other);
      } else if adapter == "archive.openlist" {
        OpenlistKeyEndsApart(other);
      } else {
        GofileKeyEndsApart(other);
      }
    }
    FitsByEnds(SHIPPED_KEYS[adapter], adapter, A.SHIPPED_REQUIREMENTS.Keys);
  }

  lemma ProviderHasKey(p: nat, i: nat)
    requires p < |SHIPPED_PORTS| && i < |SHIPPED_PORTS[p].1.adapters|
    ensures SHIPPED_PORTS[p].1.adapters[i] in SHIPPED_KEYS
  {
  }

  /** Under the keys that ship every binding of known adapters is unambiguous. */
  lemma ShippedKeysFit(p: nat)
    requires p < |SHIPPED_PORTS|
    ensures KeysFit(SHIPPED_ADAPTERS, SHIPPED_PORTS[p].1.adapters, A.SHIPPED_REQUIREMENTS.Keys)
  {
    var adapters := SHIPPED_PORTS[p].1.adapters;
    forall i | 0 <= i < |adapters|
      ensures KeyFits(RegisteredKey(SHIPPED_ADAPTERS, adapters[i]), adapters[i], A.SHIPPED_REQUIREMENTS.Keys)
    {
      ProviderHasKey(p, i);
      ShippedKeyFits(adapters[i]);
    }
  }
}
