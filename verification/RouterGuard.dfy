/** The navigation guard of the administration application: `authenticatedHome` and the `beforeEach` guard of
    `admin/src/router/index.ts`, over a table of named routes. */
module RouterGuard {
  import opened Wrappers
  import AdminSession

  /** A registered route: the guard's demands in its `meta`, and the record's own `redirect`, which the
      router follows before any guard runs. */
  datatype Route = Route(requiresAuth: bool, requiredCapability: Option<string>, redirect: Option<string>)

  type Table = map<string, Route>

  const LOGIN := "login"
  const CALLBACK := "auth-callback"
  const DENIED := "accessDenied"

  const HOMES := [
    "dashboard", "users", "content-articles", "user-permissions", "user-points", "user-membership",
    "user-gift-cards", "settings", "system-audit", "system-assets", "system-operations", "system-oidc"]

  /** The part of the session the guard reads; without an administrator the capabilities are empty. */
  datatype Session = Session(status: AdminSession.Status, capabilities: set<string>)

  predicate IsSettled(session: Session) {
    !session.status.Loading? && !session.status.Error?
  }

  function Arrival(table: Table, name: string): string
    requires name in table
  {
    if table[name].redirect.Some? then table[name].redirect.value else name
  }

  // ---------------------------------------------------------------- what a table must offer

  /** Anybody may be shown this route. */
  predicate IsOpenToAll(table: Table, name: string) {
    && name in table && table[name].redirect.None?
    && !table[name].requiresAuth && !AdminSession.Truthy(table[name].requiredCapability)
  }

  /** The route, or the one it redirects to, demands no capability but the one listed for it, and is no
      step of the login. */
  predicate IsHome(table: Table, name: string) {
    && name in table && Arrival(table, name) in table
    && var place := Arrival(table, name);
    && place != LOGIN && place != CALLBACK
    && (AdminSession.Truthy(table[place].requiredCapability) ==>
          table[place].requiredCapability == table[name].requiredCapability)
  }

  predicate Fits(table: Table) {
    IsOpenToAll(table, LOGIN) && IsOpenToAll(table, DENIED) && forall name :: name in HOMES ==> IsHome(table, name)
  }

  // ---------------------------------------------------------------- the home of an administrator

  predicate MayEnter(table: Table, capabilities: set<string>, name: string)
    requires name in table
  {
    table[name].requiredCapability.Some? ==> table[name].requiredCapability.value in capabilities
  }

  /** The first name whose capability is held, or the page that says there is none. */
  function FirstOpen(table: Table, capabilities: set<string>, names: seq<string>): (home: string)
    requires forall name :: name in names ==> name in table
    ensures home == DENIED || home in names
  {
    if names == [] then DENIED
    else if MayEnter(table, capabilities, names[0]) then names[0]
    else FirstOpen(table, capabilities, names[1..])
  }

  /** No earlier home could be entered, and "access denied" is the home only of those who may enter none. */
  lemma {:induction false} FirstOpenIsFirst(table: Table, capabilities: set<string>, names: seq<string>, k: nat)
    requires forall name :: name in names ==> name in table
    requires DENIED !in names && k < |names|
    ensures var home := FirstOpen(table, capabilities, names);
            && (home != DENIED ==> MayEnter(table, capabilities, home))
            && (MayEnter(table, capabilities, names[k]) ==> home in names[..k + 1])
  {
    if MayEnter(table, capabilities, names[0]) {
    } else if k == 0 {
      if |names| > 1 {
        FirstOpenIsFirst(table, capabilities, names[1..], 0);
      }
    } else {
      FirstOpenIsFirst(table, capabilities, names[1..], k - 1);
      assert names[..k + 1] == [names[0]] + names[1..][..k];
    }
  }

  method AuthenticatedHome(table: Table, capabilities: set<string>) returns (home: string)
    requires forall name :: name in HOMES ==> name in table
    ensures home == FirstOpen(table, capabilities, HOMES)
  {
    var i := 0;
    while i < |HOMES|
      invariant 0 <= i <= |HOMES|
      invariant FirstOpen(table, capabilities, HOMES) == FirstOpen(table, capabilities, HOMES[i..])
    {
      var requiredCapability := table[HOMES[i]].requiredCapability;
      if requiredCapability.None? || requiredCapability.value in capabilities {
        return HOMES[i];
      }
      i := i + 1;
    }
    return DENIED;
  }

  // ---------------------------------------------------------------- one run of the guard

  /** The guard runs for `place`; `after` is the session once initialization, if the guard asked for one,
      has ended. */
  datatype Visit = Visit(place: string, withCode: bool, before: Session, after: Session)

  predicate AsksForSession(v: Visit) {
    !(v.place == CALLBACK && v.withCode) && !IsSettled(v.before)
  }

  predicate DemandsMet(route: Route, session: Session) {
    && (route.requiresAuth ==> session.status.Authenticated?)
    && (AdminSession.Truthy(route.requiredCapability) ==> route.requiredCapability.value in session.capabilities)
  }

  /** Where the guard sends the visitor instead; `None` lets the visit through. */
  function Verdict(table: Table, v: Visit): Option<string>
    requires Fits(table) && v.place in table
  {
    var route := table[v.place];
    if route.requiresAuth && !v.after.status.Authenticated? then Some(LOGIN)
    else if (v.place == LOGIN || v.place == CALLBACK) && v.after.status.Authenticated? then
      Some(FirstOpen(table, v.after.capabilities, HOMES))
    else if !DemandsMet(route, v.after) then Some(DENIED)
    else None
  }

  /** The guard, its initialization delivering `initialized`. */
  method BeforeEach(table: Table, place: string, withCode: bool, session: Session, initialized: Session)
    returns (verdict: Option<string>, v: Visit)
    requires Fits(table) && place in table
    ensures v.place == place && v.withCode == withCode && v.before == session
    ensures v.after == if AsksForSession(v) then initialized else session
    ensures verdict == Verdict(table, v)
    ensures verdict.None? <==> DemandsMet(table[place], v.after)
                               && !(place in {LOGIN, CALLBACK} && v.after.status.Authenticated?)
  {
    var isAuthCallback := place == CALLBACK;
    var isAuthCompletion := place == LOGIN || isAuthCallback;
    var now := session;
    if !(isAuthCallback && withCode) && (session.status.Loading? || session.status.Error?) {
      now := initialized;
    }
    v := Visit(place, withCode, session, now);
    var meta := table[place];
    if meta.requiresAuth && !now.status.Authenticated? {
      return Some(LOGIN), v;
    }
    if isAuthCompletion && now.status.Authenticated? {
      var home := AuthenticatedHome(table, now.capabilities);
      return Some(home), v;
    }
    if meta.requiredCapability.Some? && meta.requiredCapability.value != ""
       && meta.requiredCapability.value !in now.capabilities {
      return Some(DENIED), v;
    }
    return None, v;
  }

  // ---------------------------------------------------------------- a whole navigation

  predicate IsVisit(table: Table, v: Visit) {
    v.place in table && (AsksForSession(v) || v.after == v.before)
  }

  /** `next` is the visit that follows when `v` is sent elsewhere. */
  predicate Follows(table: Table, v: Visit, next: Visit)
    requires Fits(table) && v.place in table
  {
    && Verdict(table, v).Some? && Verdict(table, v).value in table
    && next.place == Arrival(table, Verdict(table, v).value)
    && !next.withCode && next.before == v.after
  }

  /** A navigation as far as it has come: every visit but the last was sent to the next one. */
  predicate IsTrail(table: Table, trail: seq<Visit>)
    requires Fits(table)
  {
    && trail != []
    && (forall i :: 0 <= i < |trail| ==> IsVisit(table, trail[i]))
    && (forall i :: 0 <= i < |trail| - 1 ==> Follows(table, trail[i], trail[i + 1]))
  }

  /** A visit that is sent elsewhere can go on: the guard never names a route that is not there. */
  lemma SentSomewhere(table: Table, v: Visit)
    requires Fits(table) && IsVisit(table, v) && Verdict(table, v).Some?
    ensures Verdict(table, v).value in table && Arrival(table, Verdict(table, v).value) in table
    ensures exists next :: IsVisit(table, next) && Follows(table, v, next)
  {
    var name := Verdict(table, v).value;
    assert name == LOGIN || name == DENIED || name in HOMES;
    var next := Visit(Arrival(table, name), false, v.after, v.after);
    assert IsVisit(table, next) && Follows(table, v, next);
  }

  /** Who was sent away from a visit with a settled session is let through at the next. */
  lemma SecondVisitIsLast(table: Table, v: Visit, next: Visit)
    requires Fits(table) && IsVisit(table, v) && Follows(table, v, next) && IsVisit(table, next)
    requires IsSettled(v.after)
    ensures Verdict(table, next).None?
  {
    var name := Verdict(table, v).value;
    if name != LOGIN && name != DENIED {
      assert name in HOMES && IsHome(table, name);
      HomeMayBeEntered(table, v.after.capabilities, HOMES);
    }
  }

  lemma {:induction false} HomeMayBeEntered(table: Table, capabilities: set<string>, names: seq<string>)
    requires forall name :: name in names ==> name in table
    ensures var home := FirstOpen(table, capabilities, names);
            home == DENIED || (home in table && MayEnter(table, capabilities, home))
  {
    if names != [] {
      HomeMayBeEntered(table, capabilities, names[1..]);
    }
  }

  /** Once the session is settled a navigation is redirected at most once, whatever the route and the
      capabilities, and where it ends the demands of the route are met. */
  lemma SettledNavigationRedirectsOnce(table: Table, trail: seq<Visit>)
    requires Fits(table) && IsTrail(table, trail) && IsSettled(trail[0].before)
    ensures |trail| <= 2
    ensures var end := trail[|trail| - 1];
            Verdict(table, end).None? <==>
              DemandsMet(table[end.place], trail[0].before)
              && !(end.place in {LOGIN, CALLBACK} && trail[0].before.status.Authenticated?)
    ensures |trail| == 2 ==> Verdict(table, trail[1]).None?
  {
    if |trail| >= 2 {
      assert |trail| > 2 ==> Follows(table, trail[1], trail[2]);
      assert Follows(table, trail[0], trail[1]);
      SecondVisitIsLast(table, trail[0], trail[1]);
    }
  }

  /** From any session, and whatever each initialization delivers, a navigation is redirected at most
      twice. */
  lemma NavigationRedirectsTwice(table: Table, trail: seq<Visit>)
    requires Fits(table) && IsTrail(table, trail)
    ensures |trail| <= 3
    ensures |trail| == 3 ==> Verdict(table, trail[2]).None?
    ensures |trail| == 3 ==> trail[1].place == LOGIN && trail[1].after.status.Authenticated?
  {
    if |trail| >= 3 {
      assert |trail| > 3 ==> Follows(table, trail[2], trail[3]);
      assert Follows(table, trail[0], trail[1]) && Follows(table, trail[1], trail[2]);
      if IsSettled(trail[0].after) {
        SecondVisitIsLast(table, trail[0], trail[1]);
        assert false;
      }
      assert trail[1].place == LOGIN && trail[1].after.status.Authenticated?;
      SecondVisitIsLast(table, trail[1], trail[2]);
    }
  }

  // ---------------------------------------------------------------- the routes that are registered

  /** A record without a name goes by its path. */
  const PUBLIC_ROUTES: Table := map[
    LOGIN := Route(false, None, None),
    CALLBACK := Route(false, None, None),
    "/logged-out" := Route(false, None, Some(LOGIN)),
    DENIED := Route(false, None, None),
    "error" := Route(false, None, None),
    "notfound" := Route(false, None, None)
  ]

  const APP_ROUTES: Table := map[
    "/" := Route(true, None, None),
    "dashboard" := Route(true, Some("admin.dashboard.read"), None),
    "users" := Route(true, Some("identity.users.read"), None),
    "user-permissions" := Route(true, Some("access.roles.read"), None),
    "user-points" := Route(true, Some("points.programs.read"), None),
    "user-membership" := Route(true, Some("membership.read"), None),
    "user-gift-cards" := Route(true, Some("gift_cards.manage"), None),
    "content-articles" := Route(true, Some("content.read"), None),
    "content-write" := Route(true, Some("content.write"), None),
    "content-taxonomies" := Route(true, Some("taxonomy.read"), None),
    "content-comments" := Route(true, Some("comments.read"), None),
    "community-discussions" := Route(true, Some("community.read_admin"), None),
    "community-tags" := Route(true, Some("community.tags.manage"), None),
    "settings" := Route(true, Some("settings.read"), Some("settings-general")),
    "settings-general" := Route(true, Some("settings.read"), None),
    "settings-membership" := Route(true, Some("membership.levels.read"), None),
    "system-audit" := Route(true, Some("audit.read"), None),
    "system-operations" := Route(true, Some("audit.read"), None),
    "system-assets" := Route(true, Some("assets.read"), None),
    "system-notifications" := Route(true, Some("notification.read"), None),
    "system-oidc" := Route(true, Some("oidc_provider.clients.read"), None)
  ]

  /** Every home is registered by the application, under a name of its own, with the capability it is
      listed for. */
  lemma HomesAreRegistered(k: nat)
    requires k < |HOMES|
    ensures IsHome(APP_ROUTES, HOMES[k])
    ensures APP_ROUTES[Arrival(APP_ROUTES, HOMES[k])].requiredCapability == APP_ROUTES[HOMES[k]].requiredCapability
  {
  }

  lemma HomeOfApplication(public: Table, app: Table, name: string)
    requires IsHome(app, name)
    ensures IsHome(public + app, name)
  {
  }

  lemma PublicStaysPublic(public: Table, app: Table, name: string)
    requires IsOpenToAll(public, name) && name !in app
    ensures IsOpenToAll(public + app, name)
  {
  }

  lemma PublicRoutesArePublic()
    ensures IsOpenToAll(PUBLIC_ROUTES, LOGIN) && IsOpenToAll(PUBLIC_ROUTES, DENIED)
    ensures LOGIN !in APP_ROUTES && DENIED !in APP_ROUTES
  {
  }

  lemma ShippedRoutesFit()
    ensures Fits(PUBLIC_ROUTES + APP_ROUTES)
  {
    PublicRoutesArePublic();
    PublicStaysPublic(PUBLIC_ROUTES, APP_ROUTES, LOGIN);
    PublicStaysPublic(PUBLIC_ROUTES, APP_ROUTES, DENIED);
    forall name | name in HOMES
      ensures IsHome(PUBLIC_ROUTES + APP_ROUTES, name)
    {
      var k :| 0 <= k < |HOMES| && HOMES[k] == name;
      HomesAreRegistered(k);
      HomeOfApplication(PUBLIC_ROUTES, APP_ROUTES, name);
    }
  }

  // ---------------------------------------------------------------- the homes that ship

  /** The home is the `k`-th name exactly when its capability is held and no earlier name's is. */
  lemma {:induction false} FirstOpenIff(table: Table, capabilities: set<string>, names: seq<string>, k: nat)
    requires forall name :: name in names ==> name in table
    requires k < |names| && DENIED !in names && forall i, j :: 0 <= i < j < |names| ==> names[i] != names[j]
    ensures FirstOpen(table, capabilities, names) == names[k] <==>
              MayEnter(table, capabilities, names[k])
              && forall j :: 0 <= j < k ==> !MayEnter(table, capabilities, names[j])
  {
    if k > 0 && !MayEnter(table, capabilities, names[0]) {
      FirstOpenIff(table, capabilities, names[1..], k - 1);
    } else if k == 0 && |names| > 1 {
      assert names[0] !in names[1..];
    }
  }

  /** What each home demands, in the order in which they are tried. */
  const DEMANDS := [
    "admin.dashboard.read", "identity.users.read", "content.read", "access.roles.read", "points.programs.read",
    "membership.read", "gift_cards.manage", "settings.read", "audit.read", "assets.read", "audit.read",
    "oidc_provider.clients.read"]

  lemma HomeDemand(k: nat)
    requires k < |HOMES|
    ensures HOMES[k] == ["dashboard", "users", "content-articles", "user-permissions", "user-points",
                         "user-membership", "user-gift-cards", "settings", "system-audit", "system-assets",
                         "system-operations", "system-oidc"][k]
    ensures HOMES[k] in APP_ROUTES && HOMES[k] != DENIED
    ensures APP_ROUTES[HOMES[k]].requiredCapability == Some(DEMANDS[k])
  {
  }

  lemma HomesDiffer(i: nat, j: nat)
    requires i < j < |HOMES|
    ensures HOMES[i] != HOMES[j]
  {
  }

  /** Among the registered routes the home is the `k`-th exactly when what it demands is held and nothing
      that an earlier one demands is. */
  lemma ShippedHomes(capabilities: set<string>, k: nat)
    requires k < |HOMES|
    ensures Fits(PUBLIC_ROUTES + APP_ROUTES)
    ensures FirstOpen(PUBLIC_ROUTES + APP_ROUTES, capabilities, HOMES) == HOMES[k] <==>
              DEMANDS[k] in capabilities && forall j :: 0 <= j < k ==> DEMANDS[j] !in capabilities
  {
    var table := PUBLIC_ROUTES + APP_ROUTES;
    ShippedRoutesFit();
    forall j | 0 <= j < |HOMES|
      ensures HOMES[j] != DENIED && HOMES[j] in table
      ensures MayEnter(table, capabilities, HOMES[j]) <==> DEMANDS[j] in capabilities
    {
      HomeDemand(j);
    }
    forall i, j | 0 <= i < j < |HOMES|
      ensures HOMES[i] != HOMES[j]
    {
      HomesDiffer(i, j);
    }
    FirstOpenIff(table, capabilities, HOMES, k);
  }

  lemma RecordRedirects()
    ensures Arrival(APP_ROUTES, "settings") == "settings-general" && Arrival(APP_ROUTES, "users") == "users"
  {
  }
}
