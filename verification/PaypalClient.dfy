/** The settings-backed client cache of `inc/adapters/payments/paypal.py`: `_configure` and
    `_require_client`, and every interleaving of the calls that use them. */
module PaypalClient {
  import opened Text
  import opened Wrappers

  /** The stored settings group; a missing entry is `None`. */
  datatype Settings = Settings(
    clientId: Option<string>, clientSecret: Option<string>,
    webhookId: Option<string>, environment: Option<string>)

  datatype Config = Config(
    clientId: string, clientSecret: string, webhookId: string, production: bool,
    returnUrl: Option<string>, cancelUrl: Option<string>, timeoutSeconds: real)

  /** An SDK client: which one it is, and the credentials it was built with. */
  datatype Client = Client(
    serial: nat, production: bool, clientId: string, clientSecret: string, timeoutSeconds: real)

  datatype ProviderError = SettingsMissing | CredentialsMissing

  function ConfigOf(s: Settings): Config {
    Config(Stripped(s.clientId), Stripped(s.clientSecret), Stripped(s.webhookId),
           s.environment == Some("production"), None, None, 30.0)
  }

  /** A setting that counts as missing: absent, or nothing but space. */
  predicate Blank(setting: Option<string>) {
    setting.None? || AllSpace(setting.value)
  }

  /** `text` is the setting less the space around it; an absent setting is the empty text. */
  ghost predicate IsTrimmed(setting: Option<string>, text: string) {
    if setting.None? then text == "" else Trims(setting.value, text)
  }

  lemma StrippedMeaning(setting: Option<string>, text: string)
    ensures Stripped(setting) == text <==> IsTrimmed(setting, text)
    ensures Stripped(setting) == "" <==> Blank(setting)
  {
    if setting.Some? {
      StripMeaning(setting.value, text);
      BlankIsStripped(setting.value);
    }
  }

  /** A configuration as the settings say: texts without the space around them, and production exactly
      when the environment is that word. */
  ghost predicate IsRead(s: Settings, c: Config) {
    && IsTrimmed(s.clientId, c.clientId) && IsTrimmed(s.clientSecret, c.clientSecret)
    && IsTrimmed(s.webhookId, c.webhookId)
    && (c.production <==> s.environment == Some("production"))
    && c.returnUrl.None? && c.cancelUrl.None? && c.timeoutSeconds == 30.0
  }

  lemma ConfigIsRead(s: Settings, c: Config)
    ensures ConfigOf(s) == c <==> IsRead(s, c)
    ensures Complete(ConfigOf(s)) <==> !Blank(s.clientId) && !Blank(s.clientSecret) && !Blank(s.webhookId)
  {
    StrippedMeaning(s.clientId, c.clientId);
    StrippedMeaning(s.clientSecret, c.clientSecret);
    StrippedMeaning(s.webhookId, c.webhookId);
  }

  predicate Complete(c: Config) {
    c.clientId != "" && c.clientSecret != "" && c.webhookId != ""
  }

  predicate BuiltFrom(client: Client, c: Config) {
    client == Client(client.serial, c.production, c.clientId, c.clientSecret, c.timeoutSeconds)
  }

  // ---------------------------------------------------------------- the provider object

  /** The fields of the provider; `built` counts the clients it has constructed. */
  datatype Cache = Cache(config: Config, client: Option<Client>, built: nat)

  /** A cached client was built from the stored configuration. */
  predicate Consistent(cache: Cache) {
    cache.client.Some? ==> BuiltFrom(cache.client.value, cache.config)
  }

  function Configured(cache: Cache, config: Config): Cache {
    if config == cache.config then cache else cache.(config := config, client := None)
  }

  function WithClient(cache: Cache): Cache {
    if cache.client.Some? then cache
    else
      var c := cache.config;
      cache.(client := Some(Client(cache.built, c.production, c.clientId, c.clientSecret, c.timeoutSeconds)),
             built := cache.built + 1)
  }

  class PaypalPaymentProvider {
    var config: Config
    var client: Option<Client>
    var built: nat

    ghost function State(): Cache
      reads this
    {
      Cache(config, client, built)
    }

    constructor (initial: Option<Config>)
      ensures State() == Initial(initial)
    {
      config := if initial.Some? then initial.value else Config("", "", "", false, None, None, 30.0);
      client := None;
      built := 0;
    }

    /** What `_configure` does once the settings have been read. */
    method Configure(values: Settings) returns (r: Result<Config, ProviderError>)
      modifies this
      ensures State() == Configured(old(State()), ConfigOf(values))
      ensures IsRead(values, config)
      ensures r == if Blank(values.clientId) || Blank(values.clientSecret) || Blank(values.webhookId)
                   then Failure(SettingsMissing) else Success(config)
      ensures if config == old(config) then client == old(client) else client.None?
      ensures old(Consistent(State())) ==> Consistent(State())
    {
      var read := Config(Stripped(values.clientId), Stripped(values.clientSecret), Stripped(values.webhookId),
                         values.environment == Some("production"), None, None, 30.0);
      if read != config {
        config := read;
        client := None;
      }
      ConfigIsRead(values, read);
      var missing: seq<string> := [];
      if read.clientId == "" { missing := missing + ["paypal_client_id"]; }
      if read.clientSecret == "" { missing := missing + ["paypal_client_secret"]; }
      if read.webhookId == "" { missing := missing + ["paypal_webhook_id"]; }
      if missing != [] {
        return Failure(SettingsMissing);
      }
      return Success(read);
    }

    method RequireClient() returns (r: Result<Client, ProviderError>)
      modifies this`client, this`built
      ensures config.clientId == "" || config.clientSecret == "" ==>
                r == Failure(CredentialsMissing) && State() == old(State())
      ensures config.clientId != "" && config.clientSecret != "" ==>
                && State() == WithClient(old(State()))
                && r == Success(State().client.value)
                && (old(Consistent(State())) ==>
                    Consistent(State()) && r.value == Client(r.value.serial, config.production, config.clientId,
                                                             config.clientSecret, config.timeoutSeconds))
    {
      if config.clientId == "" || config.clientSecret == "" {
        return Failure(CredentialsMissing);
      }
      if client == None {
        client := Some(Client(built, config.production, config.clientId, config.clientSecret, config.timeoutSeconds));
        built := built + 1;
      }
      return Success(client.value);
    }
  }

  function Initial(initial: Option<Config>): Cache {
    Cache(if initial.Some? then initial.value else Config("", "", "", false, None, None, 30.0), None, 0)
  }

  // ---------------------------------------------------------------- interleaved calls

  datatype Operation = CreatePayment | GetPayment | CreateRefund | GetRefund | VerifyWebhook | CheckAvailability

  /** Where a call stands between two awaits: waiting for its settings, which have or have not been read
      yet, or in a request it makes with the client it holds, having read `snapshot`. `address` is the
      address of a webhook's second request, which goes past the client. */
  datatype Call =
    | ReadingSettings(operation: Operation, got: Option<Settings>)
    | Requesting(operation: Operation, client: Client, snapshot: Config, requests: nat, address: Option<string>)
    | Ended

  /** How a call leaves the stretch that follows its settings: refused by a check of its own before the
      client is asked for (currency, webhook body and headers), by one after it (amount, return
      addresses), or with its first request. */
  datatype Fate = Refused | RaisesWithClient | Requests

  /** `stored` are the settings as they are now; `live` says whether the provider has a settings
      source to read them from. */
  datatype System = System(cache: Cache, stored: Settings, live: bool, calls: map<nat, Call>)

  /** What can happen next. `Read` is the moment at which the awaited query of a call reads the stored
      settings, `Resume` the end of that await, `Continue` the end of a later one. Without a settings
      source there is nothing to wait for. */
  datatype Event =
    | Begin(id: nat, operation: Operation)
    | ChangeSettings(stored: Settings)
    | Read(id: nat)
    | Resume(id: nat, fate: Fate)
    | Continue(id: nat, last: bool)

  function BaseUrl(c: Config): string {
    if c.production then "https://api-m.paypal.com" else "https://api-m.sandbox.paypal.com"
  }

  predicate Ready(s: System, id: nat) {
    id in s.calls && s.calls[id].ReadingSettings? && (s.live ==> s.calls[id].got.Some?)
  }

  /** The call has begun and its query has not read the settings yet. */
  predicate AwaitsRead(s: System, id: nat) {
    s.live && id in s.calls && s.calls[id].ReadingSettings? && s.calls[id].got.None?
  }

  predicate InRequest(s: System, id: nat) {
    id in s.calls && s.calls[id].Requesting?
  }

  /** The stretch without awaits from the settings to the first request. */
  function AfterSettings(s: System, id: nat, operation: Operation, configured: Cache, fate: Fate): System {
    var c := configured.config;
    if !Complete(c) && s.live then
      s.(cache := configured, calls := s.calls[id := Ended])
    else if operation.CheckAvailability? || fate.Refused? || (operation.VerifyWebhook? && c.webhookId == "")
            || c.clientId == "" || c.clientSecret == "" then
      s.(cache := configured, calls := s.calls[id := Ended])
    else
      var cache := WithClient(configured);
      s.(cache := cache,
         calls := s.calls[id := if fate.RaisesWithClient? then Ended
                                else Requesting(operation, cache.client.value, c, 1, None)])
  }

  /** The end of a request. A webhook makes a second one, at the address of the configuration stored by
      then, and no third. */
  function AfterRequest(call: Call, config: Config, last: bool): Call
    requires call.Requesting?
  {
    if last || (call.operation.VerifyWebhook? && call.requests > 1) then Ended
    else call.(requests := call.requests + 1,
               address := if call.operation.VerifyWebhook? then Some(BaseUrl(config)) else call.address)
  }

  function Next(s: System, e: Event): System {
    match e
    case Begin(id, operation) =>
      if id in s.calls then s else s.(calls := s.calls[id := ReadingSettings(operation, None)])
    case ChangeSettings(stored) =>
      s.(stored := stored)
    case Read(id) =>
      if AwaitsRead(s, id) then
        s.(calls := s.calls[id := s.calls[id].(got := Some(s.stored))])
      else s
    case Resume(id, fate) =>
      if Ready(s, id) then
        AfterSettings(s, id, s.calls[id].operation,
                      if s.live then Configured(s.cache, ConfigOf(s.calls[id].got.value)) else s.cache, fate)
      else s
    case Continue(id, last) =>
      if InRequest(s, id) then s.(calls := s.calls[id := AfterRequest(s.calls[id], s.cache.config, last)]) else s
  }

  function Run(s: System, events: seq<Event>): System
    decreases |events|
  {
    if events == [] then s else Run(Next(s, events[0]), events[1..])
  }

  lemma {:induction false} RunConcat(s: System, a: seq<Event>, b: seq<Event>)
    ensures Run(s, a + b) == Run(Run(s, a), b)
    decreases |a|
  {
    if a == [] {
      assert a + b == b;
    } else {
      assert (a + b)[1..] == a[1..] + b;
      RunConcat(Next(s, a[0]), a[1..], b);
    }
  }

  /** A run is its last event after all the others. */
  lemma RunLast(s: System, events: seq<Event>)
    requires events != []
    ensures var last := |events| - 1; Run(s, events) == Next(Run(s, events[..last]), events[last])
  {
    var last := |events| - 1;
    RunConcat(s, events[..last], [events[last]]);
    assert events == events[..last] + [events[last]];
    assert Run(Next(Run(s, events[..last]), events[last]), []) == Next(Run(s, events[..last]), events[last]);
  }

  // ---------------------------------------------------------------- each request uses its own settings

  /** The cache is consistent, and every request is made with a client built from what its own call
      read, complete when it was read from a settings source. */
  ghost predicate Sound(s: System) {
    && Consistent(s.cache)
    && forall id :: InRequest(s, id) ==>
         BuiltFrom(s.calls[id].client, s.calls[id].snapshot) && (s.live ==> Complete(s.calls[id].snapshot))
  }

  lemma NextIsSound(s: System, e: Event)
    requires Sound(s)
    ensures Sound(Next(s, e))
  {
  }

  lemma {:induction false} RunIsSound(s: System, events: seq<Event>)
    requires Sound(s)
    ensures Sound(Run(s, events)) && Run(s, events).live == s.live
    decreases |events|
  {
    if events != [] {
      NextIsSound(s, events[0]);
      RunIsSound(Next(s, events[0]), events[1..]);
    }
  }

  /** What a call carries on from the settings it read. */
  predicate Carries(call: Call, values: Settings) {
    || (call.ReadingSettings? && call.got == Some(values))
    || (call.Requesting? && call.snapshot == ConfigOf(values))
  }

  /** The call's own query read the settings stored at event `i`, which it was waiting for, and it carries
      them. */
  ghost predicate ReadAt(begin: System, events: seq<Event>, id: nat, i: nat) {
    && i < |events| && events[i] == Read(id)
    && AwaitsRead(Run(begin, events[..i]), id)
    && id in Run(begin, events).calls
    && Carries(Run(begin, events).calls[id], Run(begin, events[..i]).stored)
  }

  lemma CarriesOn(s: System, e: Event, id: nat, values: Settings)
    requires id in s.calls && s.live && Carries(s.calls[id], values)
    ensures id in Next(s, e).calls
    ensures Next(s, e).calls[id].Ended? || Carries(Next(s, e).calls[id], values)
  {
  }

  lemma {:induction false} CarriedWasRead(begin: System, events: seq<Event>, id: nat)
    requires Sound(begin) && begin.live && begin.calls == map[]
    ensures var s := Run(begin, events);
            id in s.calls && !s.calls[id].Ended? && (s.calls[id].ReadingSettings? ==> s.calls[id].got.Some?) ==>
              exists i :: ReadAt(begin, events, id, i)
    decreases |events|
  {
    if events != [] {
      var last := |events| - 1;
      var front := events[..last];
      var before, after := Run(begin, front), Run(begin, events);
      CarriedWasRead(begin, front, id);
      RunLast(begin, events);
      RunIsSound(begin, front);
      if i: nat :| ReadAt(begin, front, id, i) {
        assert front[..i] == events[..i];
        CarriesOn(before, events[last], id, Run(begin, events[..i]).stored);
        assert after.calls[id].Ended? || ReadAt(begin, events, id, i);
      } else if id in after.calls && after.calls[id].ReadingSettings? && after.calls[id].got.Some? {
        assert events[last] == Read(id);
        assert ReadAt(begin, events, id, last);
      }
    }
  }

  /** The request of call `id` was made with what its own query read at event `i`: a client of the
      environment and with the id and secret stored then, none of them blank. */
  ghost predicate MadeWith(begin: System, events: seq<Event>, id: nat, i: nat) {
    && ReadAt(begin, events, id, i)
    && InRequest(Run(begin, events), id)
    && var values, call := Run(begin, events[..i]).stored, Run(begin, events).calls[id];
       && !Blank(values.clientId) && !Blank(values.clientSecret) && !Blank(values.webhookId)
       && IsTrimmed(values.clientId, call.client.clientId)
       && IsTrimmed(values.clientSecret, call.client.clientSecret)
       && IsTrimmed(values.webhookId, call.snapshot.webhookId)
       && (call.client.production <==> values.environment == Some("production"))
       && (call.snapshot.production <==> values.environment == Some("production"))
       && call.client.timeoutSeconds == 30.0
  }

  lemma RequestIsMadeWith(begin: System, events: seq<Event>, id: nat, i: nat)
    requires ReadAt(begin, events, id, i) && InRequest(Run(begin, events), id)
    requires Sound(Run(begin, events)) && Run(begin, events).live
    ensures MadeWith(begin, events, id, i)
  {
    ConfigIsRead(Run(begin, events[..i]).stored, Run(begin, events).calls[id].snapshot);
  }

  /** Whatever order calls, settings changes and replies come in, a cached client always matches the
      stored configuration, and a request in flight uses a client built from its call's snapshot. With
      a settings source that snapshot is complete, and client and snapshot are those of the settings that
      were stored when that very call read them: production exactly when these said "production". */
  lemma EveryRequestUsesWhatItsCallRead(initial: Option<Config>, stored: Settings, live: bool, events: seq<Event>,
                                        id: nat)
    ensures var begin := System(Initial(initial), stored, live, map[]);
            var s := Run(begin, events);
            && Consistent(s.cache)
            && (InRequest(s, id) ==> BuiltFrom(s.calls[id].client, s.calls[id].snapshot))
            && (InRequest(s, id) && live ==>
                Complete(s.calls[id].snapshot) && exists i :: MadeWith(begin, events, id, i))
  {
    var begin := System(Initial(initial), stored, live, map[]);
    RunIsSound(begin, events);
    if live && InRequest(Run(begin, events), id) {
      CarriedWasRead(begin, events, id);
      var i: nat :| ReadAt(begin, events, id, i);
      RequestIsMadeWith(begin, events, id, i);
    }
  }

  /** When the settings of a call end in a request: nothing it read is blank, the call makes requests at all
      and none of its own checks refuses it. Its client is then the one that was held, if the same
      configuration is read again, and a new one otherwise. */
  lemma RequestStartsIff(s: System, id: nat, fate: Fate)
    requires s.live && Ready(s, id)
    ensures var values, next := s.calls[id].got.value, Next(s, Resume(id, fate));
            && id in next.calls && IsRead(values, next.cache.config)
            && (InRequest(next, id) <==>
                && !Blank(values.clientId) && !Blank(values.clientSecret) && !Blank(values.webhookId)
                && !s.calls[id].operation.CheckAvailability? && fate.Requests?)
            && (InRequest(next, id) ==>
                next.calls[id].client.serial
                == if IsRead(values, s.cache.config) && s.cache.client.Some? then s.cache.client.value.serial
                   else s.cache.built)
            && (!InRequest(next, id) ==> next.calls[id].Ended?)
            && (Blank(values.clientId) || Blank(values.clientSecret) || Blank(values.webhookId) ==>
                next.cache.built == s.cache.built)
  {
    var values := s.calls[id].got.value;
    ConfigIsRead(values, Next(s, Resume(id, fate)).cache.config);
    ConfigIsRead(values, s.cache.config);
  }

  /** Without a settings source the configuration given at first is used, and a request starts exactly when
      it has what the call needs. */
  lemma UnconfiguredRequestStartsIff(s: System, id: nat, fate: Fate)
    requires !s.live && Ready(s, id)
    ensures var c, next := s.cache.config, Next(s, Resume(id, fate));
            && id in next.calls && next.cache.config == c
            && (InRequest(next, id) <==>
                && c.clientId != "" && c.clientSecret != ""
                && (s.calls[id].operation.VerifyWebhook? ==> c.webhookId != "")
                && !s.calls[id].operation.CheckAvailability? && fate.Requests?)
  {
  }

  /** A webhook makes at most two requests, the second one to an address of its own; any other call's
      requests all go to its client's. */
  ghost predicate RequestsInOrder(s: System) {
    forall id :: InRequest(s, id) ==>
      var call := s.calls[id];
      && call.requests >= 1
      && (call.operation.VerifyWebhook? ==> call.requests <= 2)
      && (call.address.Some? <==> call.operation.VerifyWebhook? && call.requests == 2)
      && (call.address.Some? ==>
          call.address.value == "https://api-m.paypal.com" || call.address.value == "https://api-m.sandbox.paypal.com")
  }

  lemma {:induction false} RunKeepsRequestsInOrder(s: System, events: seq<Event>)
    requires RequestsInOrder(s)
    ensures RequestsInOrder(Run(s, events))
    decreases |events|
  {
    if events != [] {
      RunKeepsRequestsInOrder(Next(s, events[0]), events[1..]);
    }
  }

  /** Once taken, the client and the snapshot stay those of the call, whatever else happens, and so does
      the address of a webhook's second request. */
  lemma {:induction false} HeldClientIsKept(s: System, events: seq<Event>, id: nat)
    requires InRequest(s, id)
    ensures var was, calls := s.calls[id], Run(s, events).calls;
            id in calls && (calls[id].Requesting? ==>
              && calls[id].client == was.client && calls[id].snapshot == was.snapshot
              && calls[id].operation == was.operation
              && (was.requests > 1 ==> calls[id].address == was.address))
    decreases |events|
  {
    if events != [] {
      var next := Next(s, events[0]);
      assert id in next.calls;
      if next.calls[id].Requesting? {
        HeldClientIsKept(next, events[1..], id);
      } else {
        EndedStaysEnded(next, events[1..], id);
      }
    }
  }

  lemma {:induction false} EndedStaysEnded(s: System, events: seq<Event>, id: nat)
    requires id in s.calls && s.calls[id].Ended?
    ensures id in Run(s, events).calls && Run(s, events).calls[id].Ended?
    decreases |events|
  {
    if events != [] {
      EndedStaysEnded(Next(s, events[0]), events[1..], id);
    }
  }

  /** A second call that reads the same settings gets the very same client, and none is built. */
  lemma SameSettingsReuseTheClient(s: System, id: nat, fate: Fate)
    requires Sound(s) && s.live && Ready(s, id)
    requires ConfigOf(s.calls[id].got.value) == s.cache.config && s.cache.client.Some?
    ensures Next(s, Resume(id, fate)).cache == s.cache
    ensures InRequest(Next(s, Resume(id, fate)), id) ==>
              Some(Next(s, Resume(id, fate)).calls[id].client) == s.cache.client
  {
  }

  // ---------------------------------------------------------------- the webhook's own address

  /** The settings that an event makes the provider's, if it ends some call's read. */
  function Delivery(s: System, e: Event): Option<Config> {
    if s.live && e.Resume? && Ready(s, e.id) then Some(ConfigOf(s.calls[e.id].got.value)) else None
  }

  function DeliveryAt(s: System, events: seq<Event>, i: nat): Option<Config>
    requires i < |events|
  {
    Delivery(Run(s, events[..i]), events[i])
  }

  /** Event `i` delivers settings, and none after it does. */
  ghost predicate IsLastDelivery(s: System, events: seq<Event>, i: nat) {
    && i < |events| && DeliveryAt(s, events, i).Some?
    && forall j :: i < j < |events| ==> DeliveryAt(s, events, j).None?
  }

  lemma StepFollowsDelivery(s: System, e: Event)
    ensures Next(s, e).cache.config == if Delivery(s, e).Some? then Delivery(s, e).value else s.cache.config
  {
  }

  /** One more event is the last delivery itself, or leaves the last delivery where it was. */
  lemma LastDeliveryOneMore(s: System, events: seq<Event>, i: nat)
    requires events != []
    ensures var last := |events| - 1;
            && (i < last ==> DeliveryAt(s, events, i) == DeliveryAt(s, events[..last], i))
            && (IsLastDelivery(s, events, i) <==>
                if DeliveryAt(s, events, last).Some? then i == last else IsLastDelivery(s, events[..last], i))
  {
    var last := |events| - 1;
    forall j: nat | j < last
      ensures DeliveryAt(s, events[..last], j) == DeliveryAt(s, events, j)
    {
      assert events[..last][..j] == events[..j];
    }
  }

  /** The stored configuration is the last one delivered, if there was any. */
  lemma {:induction false} CacheFollowsDelivery(s: System, events: seq<Event>)
    ensures Run(s, events).cache.config == s.cache.config || exists i :: IsLastDelivery(s, events, i)
    ensures forall i :: IsLastDelivery(s, events, i) ==>
              Run(s, events).cache.config == DeliveryAt(s, events, i).value
    decreases |events|
  {
    if events != [] {
      var last := |events| - 1;
      CacheFollowsDelivery(s, events[..last]);
      RunLast(s, events);
      StepFollowsDelivery(Run(s, events[..last]), events[last]);
      forall i: nat {
        LastDeliveryOneMore(s, events, i);
      }
      if DeliveryAt(s, events, last).Some? {
        assert IsLastDelivery(s, events, last);
      } else if i: nat :| IsLastDelivery(s, events[..last], i) {
        assert IsLastDelivery(s, events, i);
      }
    }
  }

  /** From any sound state in which the provider is configured as the webhook's client was. */
  lemma AddressFollowsDelivery(s: System, events: seq<Event>, id: nat)
    requires Sound(s) && InRequest(s, id) && s.calls[id].operation.VerifyWebhook?
    requires s.cache.config == s.calls[id].snapshot
    requires InRequest(Run(s, events), id) && Run(s, events).calls[id].requests == 1
    ensures var sent := Next(Run(s, events), Continue(id, false)).calls[id];
            && sent.Requesting? && sent.client == s.calls[id].client
            && sent.client.production == s.calls[id].snapshot.production
            && sent.address == Some(BaseUrl(Run(s, events).cache.config))
            && (sent.address.value == BaseUrl(s.calls[id].snapshot) <==>
                forall i :: IsLastDelivery(s, events, i) ==>
                  DeliveryAt(s, events, i).value.production == sent.client.production)
  {
    HeldClientIsKept(s, events, id);
    CacheFollowsDelivery(s, events);
  }

  /** When a call takes its client, the provider's configuration is its snapshot. */
  lemma RequestStartsInStep(s: System, id: nat, fate: Fate)
    requires Ready(s, id) && InRequest(Next(s, Resume(id, fate)), id)
    ensures var next := Next(s, Resume(id, fate));
            && next.calls[id].operation == s.calls[id].operation
            && next.cache.config == next.calls[id].snapshot && next.calls[id].requests == 1
  {
  }

  /** The webhook's second request goes to an address that is read from the provider after an await. It
      is the address of the environment that the call's client belongs to exactly when the settings
      delivered last since the first request, by whatever call, name that environment; if none were
      delivered it always is. `before` is the run up to the webhook's own settings, `events` what
      happens during its first request. */
  lemma WebhookAddressFollowsDelivery(initial: Option<Config>, stored: Settings, live: bool, before: seq<Event>,
                                      id: nat, events: seq<Event>)
    requires var s0 := Run(System(Initial(initial), stored, live, map[]), before);
             Ready(s0, id) && s0.calls[id].operation.VerifyWebhook?
    requires var s0 := Run(System(Initial(initial), stored, live, map[]), before);
             var s := Next(s0, Resume(id, Requests));
             InRequest(s, id) && InRequest(Run(s, events), id) && Run(s, events).calls[id].requests == 1
    ensures var s0 := Run(System(Initial(initial), stored, live, map[]), before);
            var s := Next(s0, Resume(id, Requests));
            var sent := Next(Run(s, events), Continue(id, false)).calls[id];
            && sent.Requesting? && sent.client == s.calls[id].client && sent.address.Some?
            && sent.client.production == s.calls[id].snapshot.production
            && (|| sent.address.value == "https://api-m.paypal.com"
                || sent.address.value == "https://api-m.sandbox.paypal.com")
            && ((sent.address.value == "https://api-m.paypal.com" <==> sent.client.production) <==>
                forall i :: IsLastDelivery(s, events, i) ==>
                  DeliveryAt(s, events, i).value.production == sent.client.production)
  {
    var begin := System(Initial(initial), stored, live, map[]);
    var s0 := Run(begin, before);
    RunIsSound(begin, before);
    NextIsSound(s0, Resume(id, Requests));
    RequestStartsInStep(s0, id, Requests);
    AddressFollowsDelivery(Next(s0, Resume(id, Requests)), events, id);
    BaseUrlsDiffer();
  }

  lemma BaseUrlsDiffer()
    ensures "https://api-m.paypal.com" != "https://api-m.sandbox.paypal.com"
  {
    assert "https://api-m.paypal.com"[14] != "https://api-m.sandbox.paypal.com"[14];
  }

  const SANDBOX := Settings(Some("id"), Some("secret"), Some("hook"), Some("sandbox"))
  const PRODUCTION := SANDBOX.(environment := Some("production"))

  lemma BothSettingsAreComplete()
    ensures ConfigOf(SANDBOX) == Config("id", "secret", "hook", false, None, None, 30.0)
    ensures ConfigOf(PRODUCTION) == Config("id", "secret", "hook", true, None, None, 30.0)
  {
    assert Strip("id") == "id" && Strip("secret") == "secret" && Strip("hook") == "hook";
  }

  lemma ThreeEvents(s: System, a: Event, b: Event, c: Event)
    ensures Run(s, [a, b, c]) == Next(Next(Next(s, a), b), c)
  {
    assert [a, b, c][1..] == [b, c] && [b, c][1..] == [c];
    assert Run(Next(Next(s, a), b), [c]) == Next(Next(Next(s, a), b), c);
  }

  /** A webhook in its first request, made with a sandbox client. */
  function WebhookBegun(): System {
    Run(System(Initial(None), SANDBOX, true, map[]), [Begin(0, VerifyWebhook), Read(0), Resume(0, Requests)])
  }

  lemma WebhookBegins()
    ensures var s := WebhookBegun();
            && s.live && s.calls.Keys == {0} && InRequest(s, 0) && s.calls[0].operation.VerifyWebhook?
            && s.calls[0].requests == 1 && s.calls[0].snapshot == s.cache.config == ConfigOf(SANDBOX)
  {
    BothSettingsAreComplete();
    ThreeEvents(System(Initial(None), SANDBOX, true, map[]), Begin(0, VerifyWebhook), Read(0), Resume(0, Requests));
  }

  /** Another call reads the settings while the webhook waits. */
  lemma AnotherCallReads(s: System)
    requires s.live && Complete(ConfigOf(s.stored)) && s.calls.Keys == {0} && InRequest(s, 0)
    ensures var moved := Run(s, [Begin(1, GetPayment), Read(1), Resume(1, Requests)]);
            moved.cache.config == ConfigOf(s.stored) && 0 in moved.calls && moved.calls[0] == s.calls[0]
  {
    var begun := Next(s, Begin(1, GetPayment));
    assert begun.calls[0] == s.calls[0] && AwaitsRead(begun, 1);
    var read := Next(begun, Read(1));
    assert read.calls[0] == s.calls[0] && Ready(read, 1) && read.calls[1].got == Some(s.stored);
    ThreeEvents(s, Begin(1, GetPayment), Read(1), Resume(1, Requests));
  }

  /** So the address can move: the settings change, and another call reads them before the webhook goes
      on. */
  lemma WebhookAddressMayMove()
    ensures var events := [Begin(1, GetPayment), Read(1), Resume(1, Requests)];
            var moved := Run(Next(WebhookBegun(), ChangeSettings(PRODUCTION)), events);
            var sent := Next(moved, Continue(0, false)).calls;
            && 0 in sent && sent[0].Requesting? && !sent[0].client.production
            && sent[0].address == Some("https://api-m.paypal.com")
  {
    WebhookBegins();
    BothSettingsAreComplete();
    RunIsSound(System(Initial(None), SANDBOX, true, map[]), [Begin(0, VerifyWebhook), Read(0), Resume(0, Requests)]);
    AnotherCallReads(Next(WebhookBegun(), ChangeSettings(PRODUCTION)));
  }
}
