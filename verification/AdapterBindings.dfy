/** Ports and adapters at boot: `_validate_adapter_bindings` and `_validate_required_ports` of
    `inc/api/container.py`, and `resolve_adapters` of `inc/adapters/registry.py`. */
module AdapterBindings {
  import Text
  import opened Wrappers

  type Binding = (string, string)

  datatype PortContract = PortContract(owner: string, providers: seq<string>)

  /** The tables that the loops consult. */
  datatype Tables = Tables(
    contracts: map<string, PortContract>,
    requirements: map<string, seq<string>>,
    multi: set<string>)

  datatype BindingError =
    | PortDuplicate(port: string)
    | AdapterUnknown(adapter: string)
    | PortUnknown(port: string)
    | OwnerMissing(port: string)
    | ProvidersMissing(port: string)
    | ContractMismatch(port: string, adapter: string)
    | DependencyMissing(adapter: string)
    | NotATuple(port: string)
    | PortUnbound(port: string)

  // ---------------------------------------------------------------- valid bindings

  /** The checks of one binding by itself. */
  predicate BindingOk(b: Binding, t: Tables, capabilities: set<string>) {
    && b.1 in t.requirements
    && b.0 in t.contracts
    && t.contracts[b.0].owner in capabilities
    && (forall i :: 0 <= i < |t.contracts[b.0].providers| ==> t.contracts[b.0].providers[i] in capabilities)
    && Text.Within(t.contracts[b.0].providers, t.requirements[b.1])
  }

  predicate PortFree(bindings: seq<Binding>, i: nat, multi: set<string>)
    requires i < |bindings|
  {
    bindings[i].0 in multi || forall k :: 0 <= k < i ==> bindings[k].0 != bindings[i].0
  }

  /** Only a port that takes several providers is bound more than once. */
  ghost predicate PortsDistinct(bindings: seq<Binding>, multi: set<string>) {
    forall i :: 0 <= i < |bindings| ==> PortFree(bindings, i, multi)
  }

  ghost predicate BindingsValid(bindings: seq<Binding>, t: Tables, capabilities: set<string>) {
    && PortsDistinct(bindings, t.multi)
    && forall i :: 0 <= i < |bindings| ==> BindingOk(bindings[i], t, capabilities)
  }

  ghost predicate Describes(e: BindingError, bindings: seq<Binding>, t: Tables, capabilities: set<string>) {
    match e
    case PortDuplicate(port) =>
      port !in t.multi && exists i, k :: 0 <= k < i < |bindings| && bindings[k].0 == bindings[i].0 == port
    case AdapterUnknown(adapter) => adapter !in t.requirements && exists b :: b in bindings && b.1 == adapter
    case PortUnknown(port) => port !in t.contracts && exists b :: b in bindings && b.0 == port
    case OwnerMissing(port) =>
      && port in t.contracts && t.contracts[port].owner !in capabilities
      && exists b :: b in bindings && b.0 == port
    case ProvidersMissing(port) =>
      && port in t.contracts
      && (exists c :: c in t.contracts[port].providers && c !in capabilities)
      && exists b :: b in bindings && b.0 == port
    case ContractMismatch(port, adapter) =>
      && port in t.contracts && adapter in t.requirements && (port, adapter) in bindings
      && !Text.Within(t.contracts[port].providers, t.requirements[adapter])
    case _ => false
  }

  function PortsOf(bindings: seq<Binding>): set<string> {
    set b | b in bindings :: b.0
  }

  lemma PortsOfNext(bindings: seq<Binding>, i: nat)
    requires i < |bindings|
    ensures PortsOf(bindings[..i + 1]) == PortsOf(bindings[..i]) + {bindings[i].0}
    ensures bindings[i].0 in PortsOf(bindings[..i]) <==> exists k :: 0 <= k < i && bindings[k].0 == bindings[i].0
  {
    assert bindings[..i + 1] == bindings[..i] + [bindings[i]];
    if bindings[i].0 in PortsOf(bindings[..i]) {
      var b :| b in bindings[..i] && b.0 == bindings[i].0;
      var k :| 0 <= k < i && bindings[..i][k] == b;
    }
    if k :| 0 <= k < i && bindings[k].0 == bindings[i].0 {
      assert bindings[..i][k] == bindings[k];
      assert bindings[k] in bindings[..i];
    }
  }

  /** The validation passes exactly the valid bindings and reports a fault they really have. The
      second test for a duplicate port is never true. */
  method ValidateAdapterBindings(bindings: seq<Binding>, t: Tables, capabilities: set<string>)
    returns (error: Option<BindingError>)
    ensures error.None? <==> BindingsValid(bindings, t, capabilities)
    ensures error.Some? ==> Describes(error.value, bindings, t, capabilities)
  {
    var seenPorts: set<string> := {};
    for i := 0 to |bindings|
      invariant seenPorts == PortsOf(bindings[..i])
      invariant forall k :: 0 <= k < i ==> PortFree(bindings, k, t.multi)
    {
      var port := bindings[i].0;
      PortsOfNext(bindings, i);
      if port in seenPorts && port !in t.multi {
        assert !PortFree(bindings, i, t.multi);
        return Some(PortDuplicate(port));
      }
      seenPorts := seenPorts + {port};
    }
    seenPorts := {};
    for i := 0 to |bindings|
      invariant seenPorts == PortsOf(bindings[..i])
      invariant forall k :: 0 <= k < i ==> BindingOk(bindings[k], t, capabilities)
    {
      var (port, adapter) := bindings[i];
      PortsOfNext(bindings, i);
      assert PortFree(bindings, i, t.multi);
      if port in seenPorts && port !in t.multi {
        assert false;
        return Some(PortDuplicate(port));
      }
      seenPorts := seenPorts + {port};
      assert bindings[i] in bindings;
      if adapter !in t.requirements {
        return Some(AdapterUnknown(adapter));
      }
      if port !in t.contracts {
        return Some(PortUnknown(port));
      }
      var contract := t.contracts[port];
      if contract.owner !in capabilities {
        return Some(OwnerMissing(port));
      }
      var missing := (set c | c in contract.providers) - capabilities;
      if missing != {} {
        var c :| c in missing;
        return Some(ProvidersMissing(port));
      }
      assert forall k :: 0 <= k < |contract.providers| ==> contract.providers[k] in capabilities by {
        assert forall k :: 0 <= k < |contract.providers| ==> contract.providers[k] !in missing;
      }
      Text.WithinAsSets(contract.providers, t.requirements[adapter]);
      if !(Text.Elements(contract.providers) <= Text.Elements(t.requirements[adapter])) {
        return Some(ContractMismatch(port, adapter));
      }
    }
    return None;
  }

  // ---------------------------------------------------------------- resolution

  /** What a port is resolved to: one adapter, or the tuple of e-mail adapters in binding order. */
  datatype Resolved = One(adapter: string) | Several(adapters: seq<string>)

  /** The branches of the chain in `resolve_adapters` that store a single object. */
  const SINGLE_BRANCHES := {
    "identity.credential", "identity.profile", "access.authorize", "oidc.session_revoker",
    "oidc.filesystem_keys", "identity.notification_recipient", "content.exists", "content.batch_exists",
    "assets.s3", "payments.paypal", "payments.epay", "membership.subject_exists",
    "archive.openlist", "archive.gofile", "identity.community_author"}

  /** The branches that extend a tuple. */
  const TUPLE_BRANCHES := {"email.smtp", "email.smtp2go"}

  /** The collaborators the container passes in: some adapters cannot be built without theirs. */
  datatype Environment = Environment(sessionRevoker: bool, contentQueries: bool, keyDirectory: Option<string>)

  predicate Buildable(adapter: string, env: Environment) {
    && (adapter == "oidc.session_revoker" ==> env.sessionRevoker)
    && (adapter == "oidc.filesystem_keys" ==> env.keyDirectory.Some? && Text.Strip(env.keyDirectory.value) != "")
    && (adapter in {"content.exists", "content.batch_exists"} ==> env.contentQueries)
  }

  /** What a branch stores: its adapter alone, or after those of the tuple already there. */
  function Stored(resolved: map<string, Resolved>, port: string, adapter: string): Resolved {
    var earlier := if port in resolved && resolved[port].Several? then resolved[port].adapters else [];
    if adapter in TUPLE_BRANCHES then Several(earlier + [adapter]) else One(adapter)
  }

  /** The adapters bound to a port, in manifest order. */
  function BoundTo(bindings: seq<Binding>, port: string): seq<string> {
    if bindings == [] then []
    else BoundTo(bindings[..|bindings| - 1], port)
         + (if bindings[|bindings| - 1].0 == port then [bindings[|bindings| - 1].1] else [])
  }

  /** What validated bindings of a port resolve to. */
  function Resolution(adapters: seq<string>): Resolved
    requires adapters != []
  {
    if adapters[|adapters| - 1] in TUPLE_BRANCHES then Several(adapters) else One(adapters[|adapters| - 1])
  }

  /** Every adapter has its branch, and on a port with several bindings all of them extend the tuple. */
  ghost predicate Resolvable(bindings: seq<Binding>, multi: set<string>) {
    && PortsDistinct(bindings, multi)
    && (forall b :: b in bindings ==> b.1 in SINGLE_BRANCHES + TUPLE_BRANCHES)
    && (forall b :: b in bindings && b.0 in multi ==> b.1 in TUPLE_BRANCHES)
  }

  /** After `i` bindings: the ports met so far, each with its resolution. */
  ghost predicate ResolvedUpTo(bindings: seq<Binding>, i: nat, resolved: map<string, Resolved>) {
    && i <= |bindings|
    && forall port :: port in resolved ==>
         BoundTo(bindings[..i], port) != [] && resolved[port] == Resolution(BoundTo(bindings[..i], port))
  }

  lemma {:induction false} BoundToMembers(bindings: seq<Binding>, port: string)
    ensures forall a :: a in BoundTo(bindings, port) <==> (port, a) in bindings
    ensures BoundTo(bindings, port) != [] <==> port in PortsOf(bindings)
  {
    if bindings != [] {
      var last := |bindings| - 1;
      BoundToMembers(bindings[..last], port);
      assert bindings == bindings[..last] + [bindings[last]];
      PortsOfNext(bindings, last);
      assert bindings[..last + 1] == bindings;
      if BoundTo(bindings[..last], port) != [] {
        assert port in PortsOf(bindings[..last]);
      }
    }
  }

  lemma LastBoundIsTuple(bindings: seq<Binding>, multi: set<string>, i: nat, port: string)
    requires Resolvable(bindings, multi) && i < |bindings| && port in multi && BoundTo(bindings[..i], port) != []
    ensures var earlier := BoundTo(bindings[..i], port); earlier[|earlier| - 1] in TUPLE_BRANCHES
  {
    var earlier := BoundTo(bindings[..i], port);
    var last := earlier[|earlier| - 1];
    var b: Binding := (port, last);
    BoundToMembers(bindings[..i], port);
    assert b in bindings by {
      assert last in earlier;
      assert b in bindings[..i];
    }
    assert b.0 in multi;
  }

  /** A port already resolved is one that takes several providers, and holds a tuple. */
  lemma ResolvedAgainIsTuple(bindings: seq<Binding>, multi: set<string>, i: nat, resolved: map<string, Resolved>)
    requires Resolvable(bindings, multi) && i < |bindings|
    requires ResolvedUpTo(bindings, i, resolved)
    requires bindings[i].0 in resolved && bindings[i].0 in multi
    ensures resolved[bindings[i].0] == Several(BoundTo(bindings[..i], bindings[i].0))
  {
    LastBoundIsTuple(bindings, multi, i, bindings[i].0);
  }

  lemma BoundToNext(bindings: seq<Binding>, i: nat, port: string)
    requires i < |bindings|
    ensures BoundTo(bindings[..i + 1], port)
            == if port == bindings[i].0 then BoundTo(bindings[..i], port) + [bindings[i].1]
               else BoundTo(bindings[..i], port)
  {
    assert bindings[..i + 1][..i] == bindings[..i];
  }

  /** A tuple branch never meets a single object stored under its port. */
  predicate TuplesBefore(bindings: seq<Binding>, k: nat)
    requires k < |bindings|
  {
    bindings[k].1 in TUPLE_BRANCHES ==>
      forall j :: 0 <= j < k && bindings[j].0 == bindings[k].0 ==> bindings[j].1 in TUPLE_BRANCHES
  }

  /** Binding `k` can be resolved after those before it. */
  ghost predicate ResolvableAt(bindings: seq<Binding>, multi: set<string>, env: Environment, k: nat)
    requires k < |bindings|
  {
    && PortFree(bindings, k, multi) && TuplesBefore(bindings, k)
    && bindings[k].1 in SINGLE_BRANCHES + TUPLE_BRANCHES && Buildable(bindings[k].1, env)
  }

  /** When a port holds a tuple, all its adapters so far came from tuple branches. */
  lemma {:induction false} TupleMeansTuples(bindings: seq<Binding>, i: nat, port: string, j: nat)
    requires i <= |bindings| && forall k :: 0 <= k < i ==> TuplesBefore(bindings, k)
    requires var bound := BoundTo(bindings[..i], port); bound != [] && bound[|bound| - 1] in TUPLE_BRANCHES
    requires j < i && bindings[j].0 == port
    ensures bindings[j].1 in TUPLE_BRANCHES
  {
    BoundToNext(bindings, i - 1, port);
    if bindings[i - 1].0 != port {
      TupleMeansTuples(bindings, i - 1, port, j);
    } else if j < i - 1 {
      assert TuplesBefore(bindings, i - 1);
    }
  }

  lemma StoredIsResolution(bindings: seq<Binding>, i: nat, resolved: map<string, Resolved>)
    requires i < |bindings| && ResolvedUpTo(bindings, i, resolved) && resolved.Keys == PortsOf(bindings[..i])
    requires var (port, adapter) := bindings[i];
             adapter in TUPLE_BRANCHES && port in resolved ==> resolved[port].Several?
    ensures var (port, adapter) := bindings[i];
            Stored(resolved, port, adapter) == Resolution(BoundTo(bindings[..i + 1], port))
  {
    BoundToNext(bindings, i, bindings[i].0);
    BoundToMembers(bindings[..i], bindings[i].0);
  }

  lemma ResolvedExtends(bindings: seq<Binding>, i: nat, before: map<string, Resolved>, newest: Resolved)
    requires i < |bindings| && ResolvedUpTo(bindings, i, before)
    requires var now := BoundTo(bindings[..i + 1], bindings[i].0); now != [] && newest == Resolution(now)
    ensures ResolvedUpTo(bindings, i + 1, before[bindings[i].0 := newest])
  {
    var after := before[bindings[i].0 := newest];
    forall p | p in after
      ensures BoundTo(bindings[..i + 1], p) != [] && after[p] == Resolution(BoundTo(bindings[..i + 1], p))
    {
      BoundToNext(bindings, i, p);
    }
  }

  /** What a resolution error says about the bindings. */
  ghost predicate ResolutionFault(e: BindingError, bindings: seq<Binding>, multi: set<string>, env: Environment) {
    match e
    case PortDuplicate(port) =>
      port !in multi && exists i, k :: 0 <= k < i < |bindings| && bindings[k].0 == bindings[i].0 == port
    case AdapterUnknown(adapter) =>
      adapter !in SINGLE_BRANCHES + TUPLE_BRANCHES && exists b :: b in bindings && b.1 == adapter
    case DependencyMissing(adapter) => !Buildable(adapter, env) && exists b :: b in bindings && b.1 == adapter
    case NotATuple(port) =>
      exists i, k :: 0 <= k < i < |bindings| && bindings[k].0 == bindings[i].0 == port
                     && bindings[i].1 in TUPLE_BRANCHES && bindings[k].1 !in TUPLE_BRANCHES
    case _ => false
  }

  /** The chain of branches: build the adapter and store it under its port. */
  method BuildAdapter(port: string, adapter: string, resolved: map<string, Resolved>, env: Environment)
    returns (r: Result<map<string, Resolved>, BindingError>)
    ensures r.Success? ==>
              && adapter in SINGLE_BRANCHES + TUPLE_BRANCHES && Buildable(adapter, env)
              && (adapter in TUPLE_BRANCHES && port in resolved ==> resolved[port].Several?)
              && r.value == resolved[port := Stored(resolved, port, adapter)]
    ensures r.Failure? ==>
              || (r.error == DependencyMissing(adapter) && !Buildable(adapter, env))
              || (r.error == AdapterUnknown(adapter) && adapter !in SINGLE_BRANCHES + TUPLE_BRANCHES)
              || (r.error == NotATuple(port) && adapter in TUPLE_BRANCHES && port in resolved && resolved[port].One?)
  {
    if adapter in SINGLE_BRANCHES {
      if adapter == "oidc.session_revoker" && !env.sessionRevoker {
        return Failure(DependencyMissing(adapter));
      }
      if adapter == "oidc.filesystem_keys"
         && (env.keyDirectory == None || env.keyDirectory.value == "" || Text.Strip(env.keyDirectory.value) == "") {
        return Failure(DependencyMissing(adapter));
      }
      if (adapter == "content.exists" || adapter == "content.batch_exists") && !env.contentQueries {
        return Failure(DependencyMissing(adapter));
      }
      return Success(resolved[port := One(adapter)]);
    }
    if adapter in TUPLE_BRANCHES {
      if port in resolved && resolved[port].One? {
        return Failure(NotATuple(port));
      }
      var earlier := if port in resolved then resolved[port].adapters else [];
      return Success(resolved[port := Several(earlier + [adapter])]);
    }
    return Failure(AdapterUnknown(adapter));
  }

  /** The state of the loop before binding `i`. */
  ghost predicate Resolving(bindings: seq<Binding>, multi: set<string>, env: Environment, i: nat,
                            resolved: map<string, Resolved>)
  {
    && i <= |bindings| && resolved.Keys == PortsOf(bindings[..i])
    && (forall k :: 0 <= k < i ==> ResolvableAt(bindings, multi, env, k))
    && ResolvedUpTo(bindings, i, resolved)
  }

  lemma ResolvingOneMore(bindings: seq<Binding>, multi: set<string>, env: Environment, i: nat,
                         resolved: map<string, Resolved>)
    requires Resolving(bindings, multi, env, i, resolved) && i < |bindings|
    requires bindings[i].0 in resolved ==> bindings[i].0 in multi
    requires bindings[i].1 in SINGLE_BRANCHES + TUPLE_BRANCHES && Buildable(bindings[i].1, env)
    requires var (port, adapter) := bindings[i];
             adapter in TUPLE_BRANCHES && port in resolved ==> resolved[port].Several?
    ensures var (port, adapter) := bindings[i];
            Resolving(bindings, multi, env, i + 1, resolved[port := Stored(resolved, port, adapter)])
  {
    var (port, adapter) := bindings[i];
    assert resolved[port := Stored(resolved, port, adapter)].Keys == PortsOf(bindings[..i + 1]) by {
      PortsOfNext(bindings, i);
    }
    StoredIsResolution(bindings, i, resolved);
    BoundToNext(bindings, i, port);
    ResolvedExtends(bindings, i, resolved, Stored(resolved, port, adapter));
    forall k | 0 <= k < i
      ensures TuplesBefore(bindings, k)
    {
      assert ResolvableAt(bindings, multi, env, k);
    }
    NextTuplesBefore(bindings, i, resolved);
    NextPortFree(bindings, multi, i);
  }

  lemma NextPortFree(bindings: seq<Binding>, multi: set<string>, i: nat)
    requires i < |bindings| && (bindings[i].0 in PortsOf(bindings[..i]) ==> bindings[i].0 in multi)
    ensures PortFree(bindings, i, multi)
  {
    PortsOfNext(bindings, i);
  }

  lemma NextTuplesBefore(bindings: seq<Binding>, i: nat, resolved: map<string, Resolved>)
    requires i < |bindings| && ResolvedUpTo(bindings, i, resolved) && resolved.Keys == PortsOf(bindings[..i])
    requires forall k :: 0 <= k < i ==> TuplesBefore(bindings, k)
    requires var (port, adapter) := bindings[i];
             adapter in TUPLE_BRANCHES && port in resolved ==> resolved[port].Several?
    ensures TuplesBefore(bindings, i)
  {
    var (port, adapter) := bindings[i];
    PortsOfNext(bindings, i);
    forall j | 0 <= j < i && bindings[j].0 == port && adapter in TUPLE_BRANCHES
      ensures bindings[j].1 in TUPLE_BRANCHES
    {
      TupleMeansTuples(bindings, i, port, j);
    }
  }

  lemma DuplicateIsFault(bindings: seq<Binding>, multi: set<string>, env: Environment, i: nat)
    requires i < |bindings| && bindings[i].0 in PortsOf(bindings[..i]) && bindings[i].0 !in multi
    ensures ResolutionFault(PortDuplicate(bindings[i].0), bindings, multi, env)
  {
    PortsOfNext(bindings, i);
  }

  lemma ExtendedSingleIsFault(bindings: seq<Binding>, multi: set<string>, env: Environment, i: nat,
                              resolved: map<string, Resolved>)
    requires i < |bindings| && ResolvedUpTo(bindings, i, resolved)
    requires var (port, adapter) := bindings[i];
             adapter in TUPLE_BRANCHES && port in resolved && resolved[port].One?
    ensures ResolutionFault(NotATuple(bindings[i].0), bindings, multi, env)
  {
    var port := bindings[i].0;
    var bound := BoundTo(bindings[..i], port);
    assert bound != [] && resolved[port] == Resolution(bound);
    var k := BoundEarlier(bindings, i, port, bound[|bound| - 1]);
    assert bindings[k].0 == bindings[i].0 == port;
  }

  lemma BoundEarlier(bindings: seq<Binding>, i: nat, port: string, adapter: string) returns (k: nat)
    requires i <= |bindings| && adapter in BoundTo(bindings[..i], port)
    ensures k < i && bindings[k] == (port, adapter)
  {
    BoundToMembers(bindings[..i], port);
    assert (port, adapter) in bindings[..i];
    k :| 0 <= k < i && bindings[..i][k] == (port, adapter);
  }

  lemma FaultMeansUnresolvable(e: BindingError, bindings: seq<Binding>, multi: set<string>, env: Environment)
    requires ResolutionFault(e, bindings, multi, env)
    ensures exists k :: 0 <= k < |bindings| && !ResolvableAt(bindings, multi, env, k)
  {
    match e
    case PortDuplicate(port) =>
      var i, k :| 0 <= k < i < |bindings| && bindings[k].0 == bindings[i].0 == port;
      assert !ResolvableAt(bindings, multi, env, i);
    case NotATuple(port) =>
      var i, k :| 0 <= k < i < |bindings| && bindings[k].0 == bindings[i].0 == port
        && bindings[i].1 in TUPLE_BRANCHES && bindings[k].1 !in TUPLE_BRANCHES;
      assert !ResolvableAt(bindings, multi, env, i);
    case AdapterUnknown(adapter) =>
      var i :| 0 <= i < |bindings| && bindings[i].1 == adapter;
      assert !ResolvableAt(bindings, multi, env, i);
    case DependencyMissing(adapter) =>
      var i :| 0 <= i < |bindings| && bindings[i].1 == adapter;
      assert !ResolvableAt(bindings, multi, env, i);
  }

  /** It resolves exactly the bindings of which each can be resolved after those before it; then every
      bound port holds its adapters in manifest order, or the last one where that is a single object. */
  method ResolveAdapters(bindings: seq<Binding>, multi: set<string>, env: Environment)
    returns (r: Result<map<string, Resolved>, BindingError>)
    ensures r.Success? <==> forall k :: 0 <= k < |bindings| ==> ResolvableAt(bindings, multi, env, k)
    ensures r.Success? ==> r.value.Keys == PortsOf(bindings) && ResolvedUpTo(bindings, |bindings|, r.value)
    ensures r.Failure? ==> ResolutionFault(r.error, bindings, multi, env)
  {
    var resolved: map<string, Resolved> := map[];
    for i := 0 to |bindings|
      invariant Resolving(bindings, multi, env, i, resolved)
    {
      var (port, adapter) := bindings[i];
      if port in resolved && port !in multi {
        DuplicateIsFault(bindings, multi, env, i);
        FaultMeansUnresolvable(PortDuplicate(port), bindings, multi, env);
        return Failure(PortDuplicate(port));
      }
      var built := BuildAdapter(port, adapter, resolved, env);
      if built.Failure? {
        assert bindings[i] in bindings;
        if built.error.NotATuple? {
          ExtendedSingleIsFault(bindings, multi, env, i, resolved);
        }
        FaultMeansUnresolvable(built.error, bindings, multi, env);
        return Failure(built.error);
      }
      ResolvingOneMore(bindings, multi, env, i, resolved);
      resolved := built.value;
    }
    assert bindings[..|bindings|] == bindings;
    return Success(resolved);
  }

  /** Where every adapter has its branch and ports with several bindings take tuples only, nothing but
      a missing collaborator is in the way. */
  lemma ResolvableMeansEach(bindings: seq<Binding>, multi: set<string>, env: Environment, k: nat)
    requires Resolvable(bindings, multi) && k < |bindings|
    ensures ResolvableAt(bindings, multi, env, k) <==> Buildable(bindings[k].1, env)
  {
    assert bindings[k] in bindings && PortFree(bindings, k, multi);
    forall j | 0 <= j < k && bindings[j].0 == bindings[k].0
      ensures bindings[k].1 in TUPLE_BRANCHES ==> bindings[j].1 in TUPLE_BRANCHES
    {
      assert bindings[j] in bindings;
    }
  }

  // ---------------------------------------------------------------- required ports

  /** The ports whose owner is enabled. */
  function OwnedPorts(t: Tables, capabilities: set<string>): set<string> {
    set port | port in t.contracts && t.contracts[port].owner in capabilities
  }

  /** `REQUIRED_PORTS[capability]`. */
  function RequiredPorts(t: Tables, capability: string): set<string> {
    set port | port in t.contracts && t.contracts[port].owner == capability
  }

  method ValidateRequiredPorts(capabilities: seq<string>, t: Tables, adapters: map<string, Resolved>)
    returns (error: Option<BindingError>)
    ensures error.None? <==> OwnedPorts(t, set c | c in capabilities) <= adapters.Keys
    ensures error.Some? ==>
              error.value.PortUnbound? && error.value.port in OwnedPorts(t, set c | c in capabilities) - adapters.Keys
  {
    for i := 0 to |capabilities|
      invariant forall k :: 0 <= k < i ==> RequiredPorts(t, capabilities[k]) <= adapters.Keys
    {
      var todo := RequiredPorts(t, capabilities[i]);
      while todo != {}
        invariant todo <= RequiredPorts(t, capabilities[i])
        invariant RequiredPorts(t, capabilities[i]) - todo <= adapters.Keys
        decreases todo
      {
        var port :| port in todo;
        if port !in adapters {
          return Some(PortUnbound(port));
        }
        todo := todo - {port};
      }
    }
    forall port | port in OwnedPorts(t, set c | c in capabilities)
      ensures port in adapters.Keys
    {
      var k :| 0 <= k < |capabilities| && capabilities[k] == t.contracts[port].owner;
      assert port in RequiredPorts(t, capabilities[k]);
    }
    return None;
  }

  // ---------------------------------------------------------------- the three checks together

  /** What the tables must provide: a branch for every known adapter, and on a port that takes several
      providers only adapters of the tuple branches can meet the contract. */
  ghost predicate TablesFit(t: Tables) {
    && t.requirements.Keys <= SINGLE_BRANCHES + TUPLE_BRANCHES
    && forall port, adapter ::
         (port in t.multi && port in t.contracts && adapter in t.requirements
          && Text.Within(t.contracts[port].providers, t.requirements[adapter])) ==> adapter in TUPLE_BRANCHES
  }

  /** Validated bindings reach neither the duplicate-port nor the unknown-adapter error. */
  lemma ValidBindingsAreResolvable(bindings: seq<Binding>, t: Tables, capabilities: set<string>)
    requires TablesFit(t) && BindingsValid(bindings, t, capabilities)
    ensures Resolvable(bindings, t.multi)
  {
    forall b | b in bindings
      ensures b.1 in SINGLE_BRANCHES + TUPLE_BRANCHES && (b.0 in t.multi ==> b.1 in TUPLE_BRANCHES)
    {
      var i :| 0 <= i < |bindings| && bindings[i] == b;
      assert BindingOk(bindings[i], t, capabilities);
    }
  }

  lemma ValidFault(e: BindingError, bindings: seq<Binding>, multi: set<string>, env: Environment)
    requires Resolvable(bindings, multi) && ResolutionFault(e, bindings, multi, env)
    ensures e.DependencyMissing?
  {
    forall i, k | 0 <= k < i < |bindings| && bindings[k].0 == bindings[i].0
      ensures bindings[i].0 in multi && bindings[k].1 in TUPLE_BRANCHES
    {
      assert PortFree(bindings, i, multi) && bindings[k] in bindings;
    }
  }

  /** The adapter side of boot. It succeeds exactly when the bindings are valid, every bound adapter can
      be built and every owned port is bound; then the resolved ports are exactly those whose owner
      capability is enabled, and each holds its adapters in manifest order. */
  method BootPorts(capabilities: seq<string>, bindings: seq<Binding>, t: Tables, env: Environment)
    returns (r: Result<map<string, Resolved>, BindingError>)
    requires TablesFit(t)
    ensures var enabled := set c | c in capabilities;
            r.Success? <==>
              && BindingsValid(bindings, t, enabled)
              && (forall i :: 0 <= i < |bindings| ==> Buildable(bindings[i].1, env))
              && OwnedPorts(t, enabled) <= PortsOf(bindings)
    ensures r.Success? ==>
              && r.value.Keys == OwnedPorts(t, set c | c in capabilities)
              && ResolvedUpTo(bindings, |bindings|, r.value)
    ensures r.Failure? && BindingsValid(bindings, t, set c | c in capabilities) ==>
              r.error.DependencyMissing? || r.error.PortUnbound?
  {
    var enabled := set c | c in capabilities;
    var error := ValidateAdapterBindings(bindings, t, enabled);
    if error.Some? {
      return Failure(error.value);
    }
    ValidBindingsAreResolvable(bindings, t, enabled);
    var resolved := ResolveAdapters(bindings, t.multi, env);
    forall k | 0 <= k < |bindings|
      ensures ResolvableAt(bindings, t.multi, env, k) <==> Buildable(bindings[k].1, env)
    {
      ResolvableMeansEach(bindings, t.multi, env, k);
    }
    if resolved.Failure? {
      ValidFault(resolved.error, bindings, t.multi, env);
      return Failure(resolved.error);
    }
    var unbound := ValidateRequiredPorts(capabilities, t, resolved.value);
    if unbound.Some? {
      return Failure(unbound.value);
    }
    forall port | port in PortsOf(bindings)
      ensures port in OwnedPorts(t, enabled)
    {
      var b :| b in bindings && b.0 == port;
      var i :| 0 <= i < |bindings| && bindings[i] == b;
      assert BindingOk(bindings[i], t, enabled);
    }
    return Success(resolved.value);
  }

  // ---------------------------------------------------------------- the tables that ship

  const SHIPPED_REQUIREMENTS: map<string, seq<string>> := map[
    "identity.credential" := ["identity"],
    "identity.profile" := ["identity"],
    "access.authorize" := ["access"],
    "oidc.session_revoker" := ["oidc_provider"],
    "oidc.filesystem_keys" := [],
    "content.exists" := ["content"],
    "content.batch_exists" := ["content"],
    "assets.s3" := [],
    "payments.paypal" := [],
    "payments.epay" := [],
    "email.smtp" := ["settings"],
    "email.smtp2go" := ["settings"],
    "identity.notification_recipient" := ["identity"],
    "membership.subject_exists" := ["identity"],
    "identity.community_author" := ["identity"],
    "archive.openlist" := [],
    "archive.gofile" := []]

  const SHIPPED_CONTRACTS: map<string, PortContract> := map[
    "oidc.subject_authenticator" := PortContract("oidc_provider", ["identity"]),
    "oidc.subject_claims" := PortContract("oidc_provider", ["identity"]),
    "oidc.authorization_decision" := PortContract("oidc_provider", ["access"]),
    "oidc.security_events" := PortContract("oidc_provider", ["oidc_provider"]),
    "oidc.signing_keys" := PortContract("oidc_provider", []),
    "taxonomy.target_exists" := PortContract("taxonomy", ["content"]),
    "comments.target_exists" := PortContract("comments", ["content"]),
    "assets.object_storage" := PortContract("assets", []),
    "payments.provider" := PortContract("payments", []),
    "notification.email" := PortContract("notification", ["settings"]),
    "notification.recipient" := PortContract("notification", ["identity"]),
    "membership.subject_exists" := PortContract("membership", ["identity"]),
    "community.author" := PortContract("community", ["identity"]),
    "archive.delivery" := PortContract("archive", [])]

  const SHIPPED := Tables(SHIPPED_CONTRACTS, SHIPPED_REQUIREMENTS, {"notification.email"})

  lemma ShippedTablesFit()
    ensures TablesFit(SHIPPED)
  {
    forall adapter | adapter in SHIPPED.requirements
                     && Text.Within(SHIPPED.contracts["notification.email"].providers, SHIPPED.requirements[adapter])
      ensures adapter in TUPLE_BRANCHES
    {
      assert SHIPPED.contracts["notification.email"].providers[0] == "settings";
      assert "settings" in SHIPPED.requirements[adapter];
    }
  }
}
