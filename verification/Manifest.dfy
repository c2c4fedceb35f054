/** `_validate_manifest` of `inc/api/container.py`, for arbitrary registries. */
module Manifest {
  import opened Text
  import opened SortedKeys
  import opened Wrappers

  /** `inc/kernel/boot`: the static selection an application is composed from. */
  datatype AppManifest = AppManifest(
    capabilities: seq<string>, features: seq<string>, adapters: seq<(string, string)>,
    routers: seq<string>, workers: seq<string>, cronEnabled: bool)

  datatype RouterBinding = RouterBinding(capabilities: seq<string>, features: seq<string>)

  /** The definition tables; a capability or feature is given by what its spec requires. */
  datatype Registries = Registries(
    capabilities: map<string, seq<string>>, features: map<string, seq<string>>,
    routers: map<string, RouterBinding>, workers: set<string>)

  datatype Group = Capabilities | Features | Routers | Workers

  datatype BootError =
    | NameUnknown(group: Group, name: string)
    | RequirementMissing(group: Group, name: string, required: string)
    | SettingsFeatureMissing
    | Repeated(group: Group)
    | NotRegistered(group: Group)
    | RouterRequirementMissing(router: string)
    | TaskWorkerMissing

  // ---------------------------------------------------------------- what is acceptable

  ghost predicate SpecsAcceptable(names: seq<string>, definitions: map<string, seq<string>>,
                                  capabilities: seq<string>)
  {
    forall n :: n in names ==> n in definitions && Within(definitions[n], capabilities)
  }

  predicate RouterAcceptable(r: string, m: AppManifest, g: Registries) {
    && r in g.routers
    && Within(g.routers[r].capabilities, m.capabilities)
    && Within(g.routers[r].features, m.features)
  }

  ghost predicate GroupAcceptable(m: AppManifest, g: Registries, group: Group) {
    Distinct(Listed(m, group)) && forall n :: n in Listed(m, group) ==> n in Known(g, group)
  }

  /** Every name is known, nothing is listed twice, and every requirement is met. */
  ghost predicate Acceptable(m: AppManifest, g: Registries) {
    && GroupAcceptable(m, g, Capabilities) && GroupAcceptable(m, g, Features)
    && GroupAcceptable(m, g, Routers) && GroupAcceptable(m, g, Workers)
    && SpecsAcceptable(m.capabilities, g.capabilities, m.capabilities)
    && SpecsAcceptable(m.features, g.features, m.capabilities)
    && (forall r :: r in m.routers ==> RouterAcceptable(r, m, g))
    && ("site_cleanup" in m.features ==> "site_settings" in m.features)
    && (m.cronEnabled ==> "task" in m.workers)
  }

  /** The same, list by list and name by name. */
  lemma AcceptableMeans(m: AppManifest, g: Registries)
    ensures Acceptable(m, g) <==>
              && Distinct(m.capabilities) && Distinct(m.features) && Distinct(m.routers) && Distinct(m.workers)
              && (forall c :: c in m.capabilities ==>
                    c in g.capabilities && forall r :: r in g.capabilities[c] ==> r in m.capabilities)
              && (forall f :: f in m.features ==>
                    f in g.features && forall r :: r in g.features[f] ==> r in m.capabilities)
              && (forall r :: r in m.routers ==>
                    && r in g.routers
                    && (forall c :: c in g.routers[r].capabilities ==> c in m.capabilities)
                    && (forall f :: f in g.routers[r].features ==> f in m.features))
              && (forall w :: w in m.workers ==> w in g.workers)
              && ("site_cleanup" in m.features ==> "site_settings" in m.features)
              && (m.cronEnabled ==> "task" in m.workers)
  {
    forall part: seq<string>, whole: seq<string>
      ensures Within(part, whole) <==> forall x :: x in part ==> x in whole
    {
    }
    assert Listed(m, Capabilities) == m.capabilities && Known(g, Capabilities) == g.capabilities.Keys;
    assert Listed(m, Features) == m.features && Known(g, Features) == g.features.Keys;
    assert Listed(m, Routers) == m.routers && Known(g, Routers) == g.routers.Keys;
    assert Listed(m, Workers) == m.workers && Known(g, Workers) == g.workers;
  }

  /** The manifest really has the fault that an error names. */
  ghost predicate Describes(e: BootError, m: AppManifest, g: Registries) {
    match e
    case NameUnknown(Capabilities, name) => name in m.capabilities && name !in g.capabilities
    case NameUnknown(Features, name) => name in m.features && name !in g.features
    case RequirementMissing(Capabilities, name, required) =>
      && name in m.capabilities && name in g.capabilities
      && required in g.capabilities[name] && required !in m.capabilities
    case RequirementMissing(Features, name, required) =>
      && name in m.features && name in g.features
      && required in g.features[name] && required !in m.capabilities
    case SettingsFeatureMissing => "site_cleanup" in m.features && "site_settings" !in m.features
    case Repeated(group) => !Distinct(Listed(m, group))
    case NotRegistered(group) => exists n :: n in Listed(m, group) && n !in Known(g, group)
    case RouterRequirementMissing(r) => r in m.routers && r in g.routers && !RouterAcceptable(r, m, g)
    case TaskWorkerMissing => m.cronEnabled && "task" !in m.workers
    case _ => false
  }

  /** Everything that is checked before an error of this kind has been found in order. */
  ghost predicate EarlierChecksPass(e: BootError, m: AppManifest, g: Registries) {
    match e
    case NameUnknown(Capabilities, _) => true
    case RequirementMissing(Capabilities, _, _) => true
    case NameUnknown(_, _) => SpecsAcceptable(m.capabilities, g.capabilities, m.capabilities)
    case RequirementMissing(_, _, _) => SpecsAcceptable(m.capabilities, g.capabilities, m.capabilities)
    case SettingsFeatureMissing => AllSpecsAcceptable(m, g)
    case Repeated(group) => AllSpecsAcceptable(m, g) && GroupsBeforeAcceptable(m, g, group)
    case NotRegistered(group) =>
      AllSpecsAcceptable(m, g) && GroupsBeforeAcceptable(m, g, group) && Distinct(Listed(m, group))
    case RouterRequirementMissing(_) =>
      AllSpecsAcceptable(m, g) && GroupsBeforeAcceptable(m, g, Workers) && GroupAcceptable(m, g, Workers)
    case TaskWorkerMissing =>
      && AllSpecsAcceptable(m, g) && GroupsBeforeAcceptable(m, g, Workers) && GroupAcceptable(m, g, Workers)
      && forall r :: r in m.routers ==> RouterAcceptable(r, m, g)
  }

  ghost predicate AllSpecsAcceptable(m: AppManifest, g: Registries) {
    && SpecsAcceptable(m.capabilities, g.capabilities, m.capabilities)
    && SpecsAcceptable(m.features, g.features, m.capabilities)
  }

  ghost predicate GroupsBeforeAcceptable(m: AppManifest, g: Registries, group: Group) {
    && ("site_cleanup" in m.features ==> "site_settings" in m.features)
    && (!group.Capabilities? ==> GroupAcceptable(m, g, Capabilities))
    && (group.Routers? || group.Workers? ==> GroupAcceptable(m, g, Features))
    && (group.Workers? ==> GroupAcceptable(m, g, Routers))
  }

  function Listed(m: AppManifest, group: Group): seq<string> {
    match group
    case Capabilities => m.capabilities
    case Features => m.features
    case Routers => m.routers
    case Workers => m.workers
  }

  function Known(g: Registries, group: Group): set<string> {
    match group
    case Capabilities => g.capabilities.Keys
    case Features => g.features.Keys
    case Routers => g.routers.Keys
    case Workers => g.workers
  }

  // ---------------------------------------------------------------- lists and sets

  /** `len(set(s)) != len(s)` finds repetitions. */
  lemma {:induction false} CountingFindsRepeats(s: seq<string>)
    ensures |Elements(s)| <= |s|
    ensures |Elements(s)| == |s| <==> Distinct(s)
  {
    if s == [] {
      assert Elements(s) == {};
    } else {
      var front, last := s[..|s| - 1], s[|s| - 1];
      CountingFindsRepeats(front);
      assert s == front + [last];
      assert Elements(s) == Elements(front) + {last};
      if last in front {
        var i :| 0 <= i < |front| && front[i] == last;
        assert Elements(s) == Elements(front) && s[i] == s[|s| - 1];
      } else {
        assert forall i :: 0 <= i < |front| ==> s[i] == front[i] && s[i] != last;
        assert Distinct(s) <==> Distinct(front);
      }
    }
  }

  // ---------------------------------------------------------------- the container

  class ApplicationContainer {
    const manifest: AppManifest
    const registries: Registries
    var capabilitySpecs: map<string, seq<string>>
    var featureSpecs: map<string, seq<string>>

    constructor (manifest: AppManifest, registries: Registries)
      ensures this.manifest == manifest && this.registries == registries
    {
      this.manifest, this.registries := manifest, registries;
      capabilitySpecs, featureSpecs := map[], map[];
    }

    /** The names and requirements of one of the two spec tables. */
    method CollectSpecs(group: Group, names: seq<string>, definitions: map<string, seq<string>>)
      returns (specs: map<string, seq<string>>, error: Option<BootError>)
      requires group == Capabilities || group == Features
      ensures error.None? <==> SpecsAcceptable(names, definitions, manifest.capabilities)
      ensures error.None? ==> specs == map n | n in names :: definitions[n]
      ensures error.Some? ==>
                match error.value
                case NameUnknown(g, name) => g == group && name in names && name !in definitions
                case RequirementMissing(g, name, required) =>
                  && g == group && name in names && name in definitions
                  && required in definitions[name] && required !in manifest.capabilities
                case _ => false
    {
      specs := map[];
      for i := 0 to |names|
        invariant forall n :: n in specs <==> n in names[..i]
        invariant forall n :: n in names[..i] ==> n in definitions && Within(definitions[n], manifest.capabilities)
        invariant forall n :: n in specs ==> n in definitions && specs[n] == definitions[n]
      {
        var name := names[i];
        assert names[..i + 1] == names[..i] + [name];
        if name !in definitions {
          return specs, Some(NameUnknown(group, name));
        }
        specs := specs[name := definitions[name]];
        for j := 0 to |definitions[name]|
          invariant forall k :: 0 <= k < j ==> definitions[name][k] in manifest.capabilities
        {
          if definitions[name][j] !in manifest.capabilities {
            return specs, Some(RequirementMissing(group, name, definitions[name][j]));
          }
        }
      }
      assert names[..|names|] == names;
      return specs, None;
    }

    /** The check that is made of each list: nothing twice, nothing unknown. */
    method CheckGroup(group: Group) returns (error: Option<BootError>)
      ensures error.None? <==> GroupAcceptable(manifest, registries, group)
      ensures error.Some? ==>
                || (error.value == Repeated(group) && !Distinct(Listed(manifest, group)))
                || (error.value == NotRegistered(group) && Distinct(Listed(manifest, group))
                    && exists n :: n in Listed(manifest, group) && n !in Known(registries, group))
    {
      var names := Listed(manifest, group);
      CountingFindsRepeats(names);
      if |Elements(names)| != |names| {
        return Some(Repeated(group));
      }
      var unknown := Elements(names) - Known(registries, group);
      if unknown != {} {
        var n :| n in unknown;
        return Some(NotRegistered(group));
      }
      forall n | n in names
        ensures n in Known(registries, group)
      {
        assert n in Elements(names) && n !in unknown;
      }
      return None;
    }

    /** The loop over the routers; the lookup in the binding table never misses. */
    method CheckRouters() returns (error: Option<BootError>)
      requires GroupAcceptable(manifest, registries, Routers)
      ensures error.None? <==> forall r :: r in manifest.routers ==> RouterAcceptable(r, manifest, registries)
      ensures error.Some? ==> error.value.RouterRequirementMissing? && Describes(error.value, manifest, registries)
    {
      for i := 0 to |manifest.routers|
        invariant forall r :: r in manifest.routers[..i] ==> RouterAcceptable(r, manifest, registries)
      {
        var name := manifest.routers[i];
        assert name in Listed(manifest, Routers);
        assert manifest.routers[..i + 1] == manifest.routers[..i] + [name];
        var binding := registries.routers[name];
        WithinAsSets(binding.capabilities, manifest.capabilities);
        WithinAsSets(binding.features, manifest.features);
        var missingCapabilities := Elements(binding.capabilities) - Elements(manifest.capabilities);
        if missingCapabilities != {} {
          return Some(RouterRequirementMissing(name));
        }
        var missingFeatures := Elements(binding.features) - Elements(manifest.features);
        if missingFeatures != {} {
          return Some(RouterRequirementMissing(name));
        }
      }
      assert manifest.routers[..|manifest.routers|] == manifest.routers;
      return None;
    }

    /** It passes exactly the acceptable manifests, fills the two spec tables with exactly the listed
        names, and reports a fault the manifest really has. The lookup of a router never misses. */
    method ValidateManifest() returns (r: Result<(), BootError>)
      modifies this
      ensures r.Success? <==> Acceptable(manifest, registries)
      ensures r.Failure? ==>
                Describes(r.error, manifest, registries) && EarlierChecksPass(r.error, manifest, registries)
      ensures r.Success? ==>
                && capabilitySpecs == (map c | c in manifest.capabilities :: registries.capabilities[c])
                && featureSpecs == (map f | f in manifest.features :: registries.features[f])
    {
      capabilitySpecs, featureSpecs := map[], map[];
      var error: Option<BootError>;
      capabilitySpecs, error := CollectSpecs(Capabilities, manifest.capabilities, registries.capabilities);
      if error.Some? { return Failure(error.value); }
      featureSpecs, error := CollectSpecs(Features, manifest.features, registries.features);
      if error.Some? { return Failure(error.value); }
      if "site_cleanup" in manifest.features && "site_settings" !in manifest.features {
        return Failure(SettingsFeatureMissing);
      }
      error := CheckGroup(Capabilities);
      if error.Some? { return Failure(error.value); }
      error := CheckGroup(Features);
      if error.Some? { return Failure(error.value); }
      error := CheckGroup(Routers);
      if error.Some? { return Failure(error.value); }
      error := CheckGroup(Workers);
      if error.Some? { return Failure(error.value); }
      error := CheckRouters();
      if error.Some? { return Failure(error.value); }
      if manifest.cronEnabled && "task" !in manifest.workers {
        return Failure(TaskWorkerMissing);
      }
      return Success(());
    }
  }
}
