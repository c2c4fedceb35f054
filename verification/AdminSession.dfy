/** The administrator session of the single-page application: `initializeSession`,
    `completeAuthentication`, `signOut` and `clearSession` of `admin/src/auth/session.ts`, and
    `handleUnauthorized` of `admin/src/auth/unauthorized.ts`, interleaved at their awaits. */
module AdminSession {
  import opened Wrappers

  datatype Status = Loading | Anonymous | Authenticated | Expired | Error

  /** What `fetchAdminSession` delivered: a session with its subject, or nothing usable (a rejection, no
      body, no subject). */
  type Reply = Option<string>

  /** Where an operation is suspended.
      - `ProbingCookie`, `ReadingUser`, `Exchanging`, `ClearingUser`: the four awaits of
        initialization; `Failing`: its rejection is on the way to the final `catch`.
      - `AwaitingCallback`, `ExchangingCallback`, `ClearingCallback`: the three awaits of
        `completeAuthentication`.
      - `LoggingOut`, `Redirecting`: the two awaits of `signOut`.
      - `Reauthenticating`: the navigation of `handleUnauthorized`. */
  datatype Op =
    | ProbingCookie | ReadingUser | Exchanging(token: string) | ClearingUser | Failing(lost: Option<string>)
    | AwaitingCallback | ExchangingCallback(token: string) | ClearingCallback
    | LoggingOut | Redirecting
    | Reauthenticating

  /** The reactive state, the two module-level promises and the suspended operations. */
  datatype State = State(
    status: Status, token: Option<string>, me: Option<string>,
    initialized: bool, reauthenticating: bool, ops: map<nat, Op>)

  const FRESH := State(Loading, None, None, false, false, map[])

  function Suspend(s: State, id: nat, op: Op): State {
    s.(ops := s.ops[id := op])
  }

  function Finish(s: State, id: nat): State {
    s.(ops := s.ops - {id})
  }

  function Cleared(s: State): State {
    s.(status := Anonymous, token := None, me := None, initialized := false)
  }

  /** A string that is there and not empty, the only kind an `if` or `!` takes for a token. */
  predicate Truthy(token: Option<string>) {
    token.Some? && token.value != ""
  }

  // ---------------------------------------------------------------- stretches between awaits

  /** What can happen next. `ok` says whether the awaited promise was fulfilled; `liveToken` is the token of
      a user who has not expired. */
  datatype Event =
    | CallInitialize(id: nat)
    | CookieProbed(id: nat, reply: Reply)
    | UserRead(id: nat, ok: bool, liveToken: Option<string>)
    | Exchanged(id: nat, reply: Reply)
    | UserCleared(id: nat, ok: bool)
    | Caught(id: nat)
    | CallComplete(id: nat)
    | CallbackDone(id: nat, accessToken: Option<string>)
    | CallSignOut(id: nat)
    | LoggedOut(id: nat)
    | Redirected(id: nat)
    | Unauthorized(id: nat)
    | Navigated(id: nat)

  predicate Enabled(s: State, e: Event) {
    match e
    case CallInitialize(id) => id !in s.ops
    case CookieProbed(id, _) => id in s.ops && s.ops[id].ProbingCookie?
    case UserRead(id, _, _) => id in s.ops && s.ops[id].ReadingUser?
    case Exchanged(id, _) => id in s.ops && (s.ops[id].Exchanging? || s.ops[id].ExchangingCallback?)
    case UserCleared(id, _) => id in s.ops && (s.ops[id].ClearingUser? || s.ops[id].ClearingCallback?)
    case Caught(id) => id in s.ops && s.ops[id].Failing?
    case CallComplete(id) => id !in s.ops
    case CallbackDone(id, _) => id in s.ops && s.ops[id].AwaitingCallback?
    case CallSignOut(id) => id !in s.ops
    case LoggedOut(id) => id in s.ops && s.ops[id].LoggingOut?
    case Redirected(id) => id in s.ops && s.ops[id].Redirecting?
    case Unauthorized(id) => id !in s.ops
    case Navigated(id) => id in s.ops && s.ops[id].Reauthenticating?
  }

  function Next(s: State, e: Event): State
    requires Enabled(s, e)
  {
    match e
    case CallInitialize(id) =>
      if s.initialized then s
      else Suspend(s.(token := None, initialized := true), id, ProbingCookie)
    case CookieProbed(id, reply) =>
      if reply.Some? then Finish(s.(me := reply, status := Authenticated), id) else Suspend(s, id, ReadingUser)
    case UserRead(id, ok, liveToken) =>
      if !ok then Suspend(s, id, Failing(None))
      else if Truthy(liveToken) then Suspend(s.(token := liveToken), id, Exchanging(liveToken.value))
      else Finish(s.(token := None, me := None, status := Anonymous), id)
    case Exchanged(id, reply) =>
      if s.ops[id].Exchanging? then
        if reply.Some? then Suspend(s.(me := reply, token := None), id, ClearingUser)
        else Suspend(s, id, Failing(Some(s.ops[id].token)))
      else
        if reply.Some? then Suspend(s.(me := reply, token := None), id, ClearingCallback)
        else Finish(Cleared(s), id)
    case UserCleared(id, ok) =>
      if s.ops[id].ClearingUser? then
        if ok then Finish(s.(status := Authenticated), id) else Suspend(s, id, Failing(None))
      else
        if ok then Finish(s.(status := Authenticated), id) else Finish(Cleared(s), id)
    case Caught(id) =>
      Finish(s.(token := None, me := None, status := Error, initialized := false), id)
    case CallComplete(id) =>
      Suspend(s, id, AwaitingCallback)
    case CallbackDone(id, accessToken) =>
      if Truthy(accessToken) then Suspend(s.(token := accessToken), id, ExchangingCallback(accessToken.value))
      else Finish(Cleared(s), id)
    case CallSignOut(id) =>
      Suspend(s, id, LoggingOut)
    case LoggedOut(id) =>
      Suspend(Cleared(s), id, Redirecting)
    case Redirected(id) =>
      Finish(s, id)
    case Unauthorized(id) =>
      if (s.status.Loading? || s.status.Anonymous?) && !Truthy(s.token) then s
      else if s.reauthenticating then s
      else Suspend(s.(status := Expired, token := None, me := None, reauthenticating := true), id, Reauthenticating)
    case Navigated(id) =>
      Finish(s.(reauthenticating := false), id)
  }

  ghost predicate IsRun(s: State, events: seq<Event>)
    decreases |events|
  {
    events == [] || (Enabled(s, events[0]) && IsRun(Next(s, events[0]), events[1..]))
  }

  ghost function Run(s: State, events: seq<Event>): State
    requires IsRun(s, events)
    decreases |events|
  {
    if events == [] then s else Run(Next(s, events[0]), events[1..])
  }

  // ---------------------------------------------------------------- the token

  /** An upgrade window: from the assignment of a token to the exchange that ends it, or to the `catch`
      of the operation that opened it. */
  predicate Window(op: Op, token: string) {
    op == Exchanging(token) || op == Failing(Some(token)) || op == ExchangingCallback(token)
  }

  /** A token in memory belongs to an open window; one reauthentication runs at a time, and exactly when
      the module remembers it. */
  ghost predicate Sound(s: State) {
    && (s.token.Some? ==> exists id :: id in s.ops && Window(s.ops[id], s.token.value))
    && (forall id, id' :: IsReauth(s, id) && IsReauth(s, id') ==> id == id')
    && (s.reauthenticating <==> exists id :: IsReauth(s, id))
  }

  lemma TokenStaysInWindow(s: State, e: Event)
    requires Sound(s) && Enabled(s, e) && Next(s, e).token.Some?
    ensures var next := Next(s, e); exists id :: id in next.ops && Window(next.ops[id], next.token.value)
  {
    var next := Next(s, e);
    if e.id in next.ops && Window(next.ops[e.id], next.token.value) {
    } else {
      var id :| id in s.ops && Window(s.ops[id], s.token.value);
      assert id in next.ops && next.ops[id] == s.ops[id];
    }
  }

  /** A step touches only the operation it names. */
  lemma OthersStay(s: State, e: Event, id: nat)
    requires Enabled(s, e) && id != e.id
    ensures id in Next(s, e).ops <==> id in s.ops
    ensures id in s.ops ==> Next(s, e).ops[id] == s.ops[id]
  {
  }

  predicate IsReauth(s: State, id: nat) {
    id in s.ops && s.ops[id].Reauthenticating?
  }

  lemma OwnReauthentication(s: State, e: Event)
    requires Enabled(s, e)
    ensures var next := Next(s, e);
            if IsReauth(next, e.id) then !s.reauthenticating && next.reauthenticating
            else next.reauthenticating == (s.reauthenticating && !IsReauth(s, e.id))
  {
  }

  lemma ReauthenticationIsSingle(s: State, e: Event)
    requires Sound(s) && Enabled(s, e)
    ensures forall id, id' :: IsReauth(Next(s, e), id) && IsReauth(Next(s, e), id') ==> id == id'
    ensures Next(s, e).reauthenticating <==> exists id :: IsReauth(Next(s, e), id)
  {
    var next := Next(s, e);
    OwnReauthentication(s, e);
    forall id | id != e.id
      ensures IsReauth(next, id) <==> IsReauth(s, id)
    {
      OthersStay(s, e, id);
    }
    if s.reauthenticating {
      var id :| IsReauth(s, id);
      assert IsReauth(next, id) || id == e.id;
    }
  }

  lemma NextIsSound(s: State, e: Event)
    requires Sound(s) && Enabled(s, e)
    ensures Sound(Next(s, e))
  {
    ReauthenticationIsSingle(s, e);
    if Next(s, e).token.Some? {
      TokenStaysInWindow(s, e);
    }
  }

  /** Under every interleaving of initializations, completions, sign-outs and 401 responses, the access
      token in memory is the token of an upgrade window that is still open; so when nothing is
      suspended there is none. */
  lemma {:induction false} TokenOnlyInOpenWindow(s: State, events: seq<Event>)
    requires Sound(s) && IsRun(s, events)
    ensures Sound(Run(s, events))
    ensures Run(s, events).ops == map[] ==> Run(s, events).token.None?
    decreases |events|
  {
    if events != [] {
      NextIsSound(s, events[0]);
      TokenOnlyInOpenWindow(Next(s, events[0]), events[1..]);
    }
  }

  // ---------------------------------------------------------------- authenticated means somebody

  predicate Clearing(op: Op) {
    op.ClearingUser? || op.ClearingCallback?
  }

  predicate SomebodyIfAuthenticated(s: State) {
    s.status.Authenticated? ==> s.me.Some?
  }

  /** While an operation waits for the OIDC user to be removed, the session it exchanged is set. */
  ghost predicate Settled(s: State) {
    && SomebodyIfAuthenticated(s)
    && ((exists id :: id in s.ops && Clearing(s.ops[id])) ==> s.me.Some?)
  }

  /** The step takes the session away while an operation is in that last wait. */
  ghost predicate Undercuts(s: State, e: Event)
    requires Enabled(s, e)
  {
    Next(s, e).me.None? && exists id :: id in Next(s, e).ops && Clearing(Next(s, e).ops[id])
  }

  lemma StepSettles(s: State, e: Event)
    requires Settled(s) && Enabled(s, e) && !Undercuts(s, e)
    ensures Settled(Next(s, e))
  {
  }

  /** A run in which no step undercuts another operation. */
  ghost predicate Undisturbed(s: State, events: seq<Event>)
    requires IsRun(s, events)
    decreases |events|
  {
    events == [] || (!Undercuts(s, events[0]) && Undisturbed(Next(s, events[0]), events[1..]))
  }

  /** Operations may overlap as they like; as long as none undercuts another in its last wait, an
      authenticated session has its administrator. */
  lemma {:induction false} UndisturbedRunsAreSettled(s: State, events: seq<Event>)
    requires Settled(s) && IsRun(s, events) && Undisturbed(s, events)
    ensures Settled(Run(s, events))
    decreases |events|
  {
    if events != [] {
      StepSettles(s, events[0]);
      UndisturbedRunsAreSettled(Next(s, events[0]), events[1..]);
    }
  }

  /** The condition is exact: after any step that undercuts an operation, that operation can go on to
      declare an authenticated session without anybody in it. */
  lemma UndercuttingBreaks(s: State, e: Event)
    requires Enabled(s, e) && Undercuts(s, e)
    ensures exists next :: Enabled(Next(s, e), next) && !SomebodyIfAuthenticated(Next(Next(s, e), next))
  {
    var s' := Next(s, e);
    var id :| id in s'.ops && Clearing(s'.ops[id]);
    var next := UserCleared(id, true);
    assert Enabled(s', next);
    assert Next(s', next).status.Authenticated? && Next(s', next).me.None?;
  }

  lemma OneMore(s: State, events: seq<Event>)
    ensures events == [] ==> IsRun(s, events) && Run(s, events) == s
    ensures events != [] && Enabled(s, events[0]) && IsRun(Next(s, events[0]), events[1..]) ==>
              IsRun(s, events) && Run(s, events) == Run(Next(s, events[0]), events[1..])
  {
  }

  lemma ThreeSteps(s: State, a: Event, b: Event, c: Event)
    requires Enabled(s, a) && Enabled(Next(s, a), b) && Enabled(Next(Next(s, a), b), c)
    ensures IsRun(s, [a, b, c]) && Run(s, [a, b, c]) == Next(Next(Next(s, a), b), c)
  {
    OneMore(Next(Next(Next(s, a), b), c), []);
    OneMore(Next(Next(s, a), b), [c]);
    OneMore(Next(s, a), [b, c]);
    OneMore(s, [a, b, c]);
  }

  lemma {:induction false} RunConcat(s: State, a: seq<Event>, b: seq<Event>)
    requires IsRun(s, a) && IsRun(Run(s, a), b)
    ensures IsRun(s, a + b) && Run(s, a + b) == Run(Run(s, a), b)
    decreases |a|
  {
    if a == [] {
      assert a + b == b;
    } else {
      assert (a + b)[1..] == a[1..] + b;
      RunConcat(Next(s, a[0]), a[1..], b);
    }
  }

  /** A login that has exchanged its token and waits for its OIDC user to be removed. */
  const WAITING := State(Loading, None, Some("u"), false, false, map[0 := ClearingCallback])

  lemma LoginWaits()
    ensures IsRun(FRESH, [CallComplete(0), CallbackDone(0, Some("t")), Exchanged(0, Some("u"))])
    ensures Run(FRESH, [CallComplete(0), CallbackDone(0, Some("t")), Exchanged(0, Some("u"))]) == WAITING
  {
    ThreeSteps(FRESH, CallComplete(0), CallbackDone(0, Some("t")), Exchanged(0, Some("u")));
  }

  lemma SignOutUndercuts()
    ensures IsRun(WAITING, [CallSignOut(1), LoggedOut(1), UserCleared(0, true)])
    ensures !SomebodyIfAuthenticated(Run(WAITING, [CallSignOut(1), LoggedOut(1), UserCleared(0, true)]))
  {
    ThreeSteps(WAITING, CallSignOut(1), LoggedOut(1), UserCleared(0, true));
  }

  /** Such an overlap is reachable: a sign-out that ends while a login removes its OIDC user. */
  lemma OverlapBreaks()
    ensures exists events :: IsRun(FRESH, events) && !SomebodyIfAuthenticated(Run(FRESH, events))
  {
    LoginWaits();
    SignOutUndercuts();
    RunConcat(FRESH, [CallComplete(0), CallbackDone(0, Some("t")), Exchanged(0, Some("u"))],
              [CallSignOut(1), LoggedOut(1), UserCleared(0, true)]);
  }

  ghost predicate OneAtMost(s: State) {
    forall id, id' :: id in s.ops && id' in s.ops ==> id == id'
  }

  lemma OneOpDoesNotUndercut(s: State, e: Event)
    requires Settled(s) && Enabled(s, e) && OneAtMost(s) && OneAtMost(Next(s, e))
    ensures !Undercuts(s, e)
  {
    var next := Next(s, e);
    forall id | id in next.ops && Clearing(next.ops[id])
      ensures next.me.Some?
    {
      if id != e.id {
        OthersStay(s, e, id);
        assert e.id !in s.ops && e.id !in next.ops;
      }
    }
  }

  /** Operations that do not overlap: at most one is suspended at any time. */
  ghost predicate OneAtATime(s: State, events: seq<Event>)
    requires IsRun(s, events)
    decreases |events|
  {
    && OneAtMost(s)
    && (events != [] ==> OneAtATime(Next(s, events[0]), events[1..]))
  }

  lemma {:induction false} OneAtATimeIsUndisturbed(s: State, events: seq<Event>)
    requires Settled(s) && IsRun(s, events) && OneAtATime(s, events)
    ensures Undisturbed(s, events)
    decreases |events|
  {
    if events != [] {
      var e, next := events[0], Next(s, events[0]);
      assert OneAtATime(next, events[1..]);
      assert OneAtMost(next);
      OneOpDoesNotUndercut(s, e);
      StepSettles(s, e);
      OneAtATimeIsUndisturbed(next, events[1..]);
    }
  }

  /** When the operations do not overlap, each leaves a session in which authenticated means that the
      administrator is set and no token is left. */
  lemma NonOverlappingOperationsEndWell(events: seq<Event>)
    requires IsRun(FRESH, events) && OneAtATime(FRESH, events) && Run(FRESH, events).ops == map[]
    ensures var s := Run(FRESH, events);
            s.token.None? && (s.status.Authenticated? ==> s.me.Some?)
  {
    TokenOnlyInOpenWindow(FRESH, events);
    OneAtATimeIsUndisturbed(FRESH, events);
    UndisturbedRunsAreSettled(FRESH, events);
  }

  // ---------------------------------------------------------------- one operation by itself

  lemma StepThen(s: State, e: Event, rest: seq<Event>)
    requires Enabled(s, e) && IsRun(Next(s, e), rest)
    ensures IsRun(s, [e] + rest) && Run(s, [e] + rest) == Run(Next(s, e), rest)
  {
    assert ([e] + rest)[1..] == rest;
  }

  lemma LastStep(s: State, e: Event)
    requires Enabled(s, e)
    ensures IsRun(s, [e]) && Run(s, [e]) == Next(s, e)
  {
    OneMore(Next(s, e), []);
    StepThen(s, e, []);
    assert [e] + [] == [e];
  }

  /** What the awaits of an initialization deliver: the cookie's session, whether the user could be read
      and with which live token, the exchanged session, and whether the user was removed. */
  datatype Replies = Replies(cookie: Reply, readable: bool, liveToken: Option<string>, exchanged: Reply, removed: bool)

  predicate Upgrades(r: Replies) {
    r.readable && Truthy(r.liveToken) && r.exchanged.Some? && r.removed
  }

  /** What an initialization leaves when nothing else happens meanwhile. */
  function Initialized(s: State, r: Replies): State {
    if r.cookie.Some? then s.(token := None, me := r.cookie, status := Authenticated, initialized := true)
    else if Upgrades(r) then s.(token := None, me := r.exchanged, status := Authenticated, initialized := true)
    else if r.readable && !Truthy(r.liveToken) then
      s.(token := None, me := None, status := Anonymous, initialized := true)
    else s.(token := None, me := None, status := Error)
  }

  function ExchangeEvents(id: nat, r: Replies): seq<Event> {
    [Exchanged(id, r.exchanged)]
    + if r.exchanged.None? then [Caught(id)]
      else [UserCleared(id, r.removed)] + if r.removed then [] else [Caught(id)]
  }

  function UserEvents(id: nat, r: Replies): seq<Event> {
    [UserRead(id, r.readable, r.liveToken)]
    + if !r.readable then [Caught(id)] else if Truthy(r.liveToken) then ExchangeEvents(id, r) else []
  }

  function InitializeEvents(id: nat, r: Replies): seq<Event> {
    [CallInitialize(id), CookieProbed(id, r.cookie)] + if r.cookie.Some? then [] else UserEvents(id, r)
  }

  function Failed(s: State, id: nat): State {
    Finish(s.(token := None, me := None, status := Error, initialized := false), id)
  }

  lemma ExchangeAlone(s: State, id: nat, r: Replies)
    requires id in s.ops && s.ops[id].Exchanging?
    ensures IsRun(s, ExchangeEvents(id, r))
    ensures Run(s, ExchangeEvents(id, r))
            == if r.exchanged.Some? && r.removed
               then Finish(s.(token := None, me := r.exchanged, status := Authenticated), id) else Failed(s, id)
  {
    var s1 := Next(s, Exchanged(id, r.exchanged));
    if r.exchanged.None? {
      LastStep(s1, Caught(id));
      StepThen(s, Exchanged(id, r.exchanged), [Caught(id)]);
    } else {
      var e := UserCleared(id, r.removed);
      LastStep(s1, e);
      if r.removed {
        assert [e] + [] == [e];
        StepThen(s, Exchanged(id, r.exchanged), [e]);
      } else {
        LastStep(Next(s1, e), Caught(id));
        StepThen(s1, e, [Caught(id)]);
        StepThen(s, Exchanged(id, r.exchanged), [e] + [Caught(id)]);
      }
    }
  }

  lemma UserAlone(s: State, id: nat, r: Replies)
    requires id in s.ops && s.ops[id].ReadingUser?
    ensures IsRun(s, UserEvents(id, r))
    ensures Run(s, UserEvents(id, r))
            == if Upgrades(r) then Finish(s.(token := None, me := r.exchanged, status := Authenticated), id)
               else if r.readable && !Truthy(r.liveToken) then
                 Finish(s.(token := None, me := None, status := Anonymous), id)
               else Failed(s, id)
  {
    var e := UserRead(id, r.readable, r.liveToken);
    var s1 := Next(s, e);
    if !r.readable {
      LastStep(s1, Caught(id));
      StepThen(s, e, [Caught(id)]);
    } else if Truthy(r.liveToken) {
      ExchangeAlone(s1, id, r);
      StepThen(s, e, ExchangeEvents(id, r));
    } else {
      LastStep(s, e);
      assert [e] + [] == [e];
    }
  }

  /** Without interference the stretches of an initialization add up to the outcome above: authenticated
      with the cookie's administrator or the exchanged one, anonymous when there is no live user, and an
      error, to be tried again, in every other case. */
  lemma InitializeAlone(s: State, id: nat, r: Replies)
    requires id !in s.ops && !s.initialized
    ensures IsRun(s, InitializeEvents(id, r))
    ensures Run(s, InitializeEvents(id, r)) == Initialized(s, r)
  {
    var e, probed := CallInitialize(id), CookieProbed(id, r.cookie);
    var s1 := Next(s, e);
    if r.cookie.Some? {
      LastStep(s1, probed);
      StepThen(s, e, [probed]);
      assert [e] + [probed] == InitializeEvents(id, r);
    } else {
      var s2 := Next(s1, probed);
      UserAlone(s2, id, r);
      StepThen(s1, probed, UserEvents(id, r));
      StepThen(s, e, [probed] + UserEvents(id, r));
      assert [e] + ([probed] + UserEvents(id, r)) == InitializeEvents(id, r);
    }
    assert s.ops[id := ProbingCookie] - {id} == s.ops;
    assert s.ops[id := ProbingCookie][id := ReadingUser] - {id} == s.ops;
  }

  /** What a login completion leaves: the exchanged administrator if all three awaits deliver, and a
      cleared session otherwise. */
  function Completed(s: State, received: Option<string>, exchanged: Reply, removed: bool): State {
    if Truthy(received) && exchanged.Some? && removed then
      s.(token := None, me := exchanged, status := Authenticated)
    else Cleared(s)
  }

  function CompleteEvents(id: nat, received: Option<string>, exchanged: Reply, removed: bool): seq<Event> {
    [CallComplete(id), CallbackDone(id, received)]
    + if Truthy(received) then CallbackEvents(id, exchanged, removed) else []
  }

  function CallbackEvents(id: nat, exchanged: Reply, removed: bool): seq<Event> {
    [Exchanged(id, exchanged)] + if exchanged.Some? then [UserCleared(id, removed)] else []
  }

  lemma CallbackAlone(s: State, id: nat, exchanged: Reply, removed: bool)
    requires id in s.ops && s.ops[id].ExchangingCallback?
    ensures IsRun(s, CallbackEvents(id, exchanged, removed))
    ensures Run(s, CallbackEvents(id, exchanged, removed))
            == if exchanged.Some? && removed
               then Finish(s.(token := None, me := exchanged, status := Authenticated), id)
               else Finish(Cleared(s), id)
  {
    var traded, cleared := Exchanged(id, exchanged), UserCleared(id, removed);
    if exchanged.None? {
      LastStep(s, traded);
      assert [traded] + [] == [traded];
    } else {
      var s1 := Next(s, traded);
      assert s1.ops - {id} == s.ops - {id};
      LastStep(s1, cleared);
      StepThen(s, traded, [cleared]);
    }
  }

  lemma CompleteAlone(s: State, id: nat, received: Option<string>, exchanged: Reply, removed: bool)
    requires id !in s.ops
    ensures IsRun(s, CompleteEvents(id, received, exchanged, removed))
    ensures Run(s, CompleteEvents(id, received, exchanged, removed)) == Completed(s, received, exchanged, removed)
  {
    var call, done := CallComplete(id), CallbackDone(id, received);
    var rest := CallbackEvents(id, exchanged, removed);
    var s1 := Next(s, call);
    assert s.ops[id := AwaitingCallback] - {id} == s.ops;
    if !Truthy(received) {
      LastStep(s1, done);
      StepThen(s, call, [done]);
      assert [call] + [done] == CompleteEvents(id, received, exchanged, removed);
    } else {
      var s2 := Next(s1, done);
      assert s2.ops - {id} == s.ops;
      CallbackAlone(s2, id, exchanged, removed);
      StepThen(s1, done, rest);
      StepThen(s, call, [done] + rest);
      assert [call] + ([done] + rest) == CompleteEvents(id, received, exchanged, removed);
    }
  }

  /** A sign-out clears the session, whatever the server and the redirect do. */
  lemma SignOutAlone(s: State, id: nat)
    requires id !in s.ops
    ensures IsRun(s, [CallSignOut(id), LoggedOut(id), Redirected(id)])
    ensures Run(s, [CallSignOut(id), LoggedOut(id), Redirected(id)]) == Cleared(s)
  {
    ThreeSteps(s, CallSignOut(id), LoggedOut(id), Redirected(id));
    assert s.ops[id := LoggingOut][id := Redirecting] - {id} == s.ops;
  }

  predicate Ignores401(s: State) {
    s.reauthenticating || ((s.status.Loading? || s.status.Anonymous?) && !Truthy(s.token))
  }

  /** A 401 that is not ignored expires the session, and its redirect is forgotten when it is over. */
  lemma UnauthorizedAlone(s: State, id: nat)
    requires id !in s.ops && !Ignores401(s)
    ensures IsRun(s, [Unauthorized(id), Navigated(id)])
    ensures Run(s, [Unauthorized(id), Navigated(id)]) == s.(status := Expired, token := None, me := None)
  {
    var s1 := Next(s, Unauthorized(id));
    LastStep(s1, Navigated(id));
    StepThen(s, Unauthorized(id), [Navigated(id)]);
    assert [Unauthorized(id)] + [Navigated(id)] == [Unauthorized(id), Navigated(id)];
    assert s.ops[id := Reauthenticating] - {id} == s.ops;
  }

  // ---------------------------------------------------------------- the functions as they are written

  /** The module's variables. Each method is one of its functions from beginning to end, given what its
      awaits deliver and with nothing else in between. */
  class Session {
    var status: Status
    var accessToken: Option<string>
    var me: Option<string>
    var initializePromise: bool
    var reauthPromise: bool

    /** The state while `ops` are suspended elsewhere. */
    ghost function View(ops: map<nat, Op>): State
      reads this
    {
      State(status, accessToken, me, initializePromise, reauthPromise, ops)
    }

    constructor ()
      ensures View(map[]) == FRESH
    {
      status, accessToken, me := Loading, None, None;
      initializePromise, reauthPromise := false, false;
    }

    method ClearSession()
      modifies this
      ensures status == Anonymous && accessToken == None && me == None && !initializePromise
      ensures reauthPromise == old(reauthPromise)
    {
      status := Anonymous;
      accessToken := None;
      me := None;
      initializePromise := false;
    }

    /** Authenticated exactly when there is a cookie session or the user's token buys one, and then that
        one's administrator is set; anonymous when there is no live user; no token is left; and only a
        failure leaves it to be tried again. */
    method InitializeSession(r: Replies)
      modifies this
      ensures old(initializePromise) ==>
                forall ops, id :: id !in ops ==>
                  View(ops) == old(View(ops)) == Next(old(View(ops)), CallInitialize(id))
      ensures !old(initializePromise) ==>
                && (status == Authenticated <==>
                    || r.cookie.Some?
                    || (r.readable && r.liveToken.Some? && r.liveToken.value != "" && r.exchanged.Some? && r.removed))
                && (status == Anonymous <==>
                    r.cookie.None? && r.readable && (r.liveToken.None? || r.liveToken.value == ""))
                && status in {Authenticated, Anonymous, Error}
                && me == (if status != Authenticated then None else if r.cookie.Some? then r.cookie else r.exchanged)
                && accessToken == None && (initializePromise <==> status != Error)
      ensures !old(initializePromise) ==>
                forall ops, id :: id !in ops ==>
                  IsRun(old(View(ops)), InitializeEvents(id, r))
                  && View(ops) == Run(old(View(ops)), InitializeEvents(id, r))
    {
      ghost var before := View(map[]);
      if initializePromise { return; }
      initializePromise := true;
      accessToken := None;
      if r.cookie != None {
        me := r.cookie;
        status := Authenticated;
      } else {
        var thrown := !r.readable;
        if !thrown {
          if r.liveToken != None && r.liveToken.value != "" {
            accessToken := r.liveToken;
            thrown := r.exchanged == None;
            if !thrown {
              me := r.exchanged;
              accessToken := None;
              thrown := !r.removed;
              if !thrown {
                status := Authenticated;
              }
            }
          } else {
            accessToken := None;
            me := None;
            status := Anonymous;
          }
        }
        if thrown {
          accessToken := None;
          me := None;
          status := Error;
          initializePromise := false;
        }
      }
      assert View(map[]) == Initialized(before, r);
      forall ops, id | id !in ops
        ensures IsRun(old(View(ops)), InitializeEvents(id, r))
        ensures View(ops) == Run(old(View(ops)), InitializeEvents(id, r))
      {
        InitializeAlone(old(View(ops)), id, r);
      }
    }

    /** It either ends with the exchanged administrator or raises, and then the session is cleared. */
    method CompleteAuthentication(received: Option<string>, exchanged: Reply, removed: bool) returns (raised: bool)
      modifies this
      ensures raised <==> !(received.Some? && received.value != "" && exchanged.Some? && removed)
      ensures accessToken == None && me == (if raised then None else exchanged)
      ensures status == if raised then Anonymous else Authenticated
      ensures forall ops, id :: id !in ops ==>
                IsRun(old(View(ops)), CompleteEvents(id, received, exchanged, removed))
                && View(ops) == Run(old(View(ops)), CompleteEvents(id, received, exchanged, removed))
    {
      raised := received == None || received.value == "";
      if !raised {
        accessToken := received;
        raised := exchanged == None;
        if !raised {
          me := exchanged;
          accessToken := None;
          raised := !removed;
          if !raised {
            status := Authenticated;
          }
        }
      }
      if raised {
        ClearSession();
      }
      forall ops, id | id !in ops
        ensures IsRun(old(View(ops)), CompleteEvents(id, received, exchanged, removed))
        ensures View(ops) == Run(old(View(ops)), CompleteEvents(id, received, exchanged, removed))
      {
        CompleteAlone(old(View(ops)), id, received, exchanged, removed);
      }
    }

    method SignOut()
      modifies this
      ensures status == Anonymous && accessToken == None && me == None && !initializePromise
      ensures forall ops, id :: id !in ops ==>
                IsRun(old(View(ops)), [CallSignOut(id), LoggedOut(id), Redirected(id)])
                && View(ops) == Run(old(View(ops)), [CallSignOut(id), LoggedOut(id), Redirected(id)])
    {
      ClearSession();
      forall ops, id | id !in ops
        ensures IsRun(old(View(ops)), [CallSignOut(id), LoggedOut(id), Redirected(id)])
        ensures View(ops) == Run(old(View(ops)), [CallSignOut(id), LoggedOut(id), Redirected(id)])
      {
        SignOutAlone(old(View(ops)), id);
      }
    }

    /** Before login without a token, and while a redirect runs, nothing changes; otherwise the session
        has expired, and initialization is not asked for again. */
    method HandleUnauthorized()
      modifies this
      ensures initializePromise == old(initializePromise) && reauthPromise == old(reauthPromise)
      ensures var ignored := old(reauthPromise) || (old(status) in {Loading, Anonymous}
                             && (old(accessToken).None? || old(accessToken).value == ""));
              if ignored then
                forall ops, id :: id !in ops ==> View(ops) == old(View(ops)) == Next(old(View(ops)), Unauthorized(id))
              else
                && status == Expired && accessToken == None && me == None
                && forall ops, id :: id !in ops ==>
                     IsRun(old(View(ops)), [Unauthorized(id), Navigated(id)])
                     && View(ops) == Run(old(View(ops)), [Unauthorized(id), Navigated(id)])
    {
      if (status == Loading || status == Anonymous) && (accessToken == None || accessToken.value == "") { return; }
      if reauthPromise { return; }
      reauthPromise := true;
      status := Expired;
      accessToken := None;
      me := None;
      reauthPromise := false;
      forall ops, id | id !in ops
        ensures IsRun(old(View(ops)), [Unauthorized(id), Navigated(id)])
        ensures View(ops) == Run(old(View(ops)), [Unauthorized(id), Navigated(id)])
      {
        UnauthorizedAlone(old(View(ops)), id);
      }
    }
  }
}
