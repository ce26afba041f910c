/** The router of `src/router/index.js`: the route table with its metadata,
    the session snapshot taken once when the module loads (with the cleanup
    of a stale user entry), the roles read from the stored user, and the
    `beforeEach` guard, which sets the page title and either lets the
    navigation through or redirects it to another named route. */
module Router {
  import opened Wrappers
  import opened Json
  import opened WebStorage

  /** A route's `meta`: its title, its `public` flag (any value, or missing)
      and the roles it lists (read only by the disabled role check). */
  datatype RouteMeta = RouteMeta(title: Option<string>, isPublic: Option<Value>, roles: Option<seq<string>>)

  datatype Route = Route(path: string, name: string, meta: RouteMeta)

  function PublicPage(path: string, name: string, title: string): Route {
    Route(path, name, RouteMeta(Some(title), Some(Bool(true)), None))
  }

  function PrivatePage(path: string, name: string, title: string): Route {
    Route(path, name, RouteMeta(Some(title), None, None))
  }

  function RestrictedPage(path: string, name: string, title: string, roles: seq<string>): Route {
    Route(path, name, RouteMeta(Some(title), None, Some(roles)))
  }

  /** The routes in the order they are declared. */
  const Routes: seq<Route> := [
    PrivatePage("/", "home", "Home"),
    PrivatePage("/system", "system", "System settings"),
    PublicPage("/auth/login", "auth_login", "Login"),
    PublicPage("/auth/check", "auth_check", "Validating user session"),
    PublicPage("/auth/register", "auth_register", "Register"),
    PublicPage("/auth/recover", "auth_recover", "Password recovery"),
    RestrictedPage("/admin/users", "admin_users", "Manage users", ["superadmin", "admin"]),
    RestrictedPage("/admin/users/review", "admin_users_review", "Users pending activation", ["superadmin", "admin"]),
    PublicPage("/:pathMatch(.*)*", "404", "Not Found - HTTP 404"),
    PublicPage("/403", "403", "Forbidden - HTTP 403")
  ]

  /** The first route of `routes` called `name`, as `next({ name })` resolves it. */
  function FindRouteIn(routes: seq<Route>, name: string): (r: Option<Route>)
    ensures r.Some? ==> r.value in routes && r.value.name == name
    ensures r.None? ==> forall i :: 0 <= i < |routes| ==> routes[i].name != name
  {
    if |routes| == 0 then None
    else if routes[0].name == name then Some(routes[0])
    else FindRouteIn(routes[1..], name)
  }

  function FindRoute(name: string): Option<Route> {
    FindRouteIn(Routes, name)
  }

  /** No two routes share a name, so a name picks out one route. */
  lemma RouteNamesDistinct()
    ensures forall i, j :: 0 <= i < j < |Routes| ==> Routes[i].name != Routes[j].name
  {
  }

  // ---------------------------------------------------------------------------
  // Session snapshot

  /** `!!localStorage.getItem('access_token')`: a stored, non-empty token. */
  predicate IsAuthenticated(token: Option<string>) {
    token.Some? && |token.value| > 0
  }

  /** `getUserRoles()`: `JSON.parse(user)?.roles ?? []`. A missing entry is
      parsed as the text `null` (what `JSON.parse(null)` does); text that does
      not parse, a value without `roles` and a `null` one all give `[]`. */
  function UserRoles(user: Option<string>): (r: Value)
    ensures r != Null
    ensures r == Arr([]) ||
            (Parse(user.GetOr("null")).Some? && Member(Parse(user.GetOr("null")).value, "roles") == Some(r))
    ensures Parse(user.GetOr("null")).Some? && Member(Parse(user.GetOr("null")).value, "roles").Some? &&
            Member(Parse(user.GetOr("null")).value, "roles") != Some(Null) ==>
              Member(Parse(user.GetOr("null")).value, "roles") == Some(r)
  {
    match Parse(user.GetOr("null"))
    case None => Arr([])
    case Some(v) =>
      match Member(v, "roles")
      case None => Arr([])
      case Some(Null) => Arr([])
      case Some(roles) => roles
  }

  /** Without a stored user there are no roles. */
  lemma MissingUserHasNoRoles()
    ensures UserRoles(None) == Arr([])
  {
    RoundTrip(Null);
    assert Stringify(Null) == "null";
  }

  /** Stored text that does not parse yields no roles. */
  lemma UnparseableUserHasNoRoles(text: string)
    requires Parse(text).None?
    ensures UserRoles(Some(text)) == Arr([])
  {
  }

  /** Stored text that parses to an object with non-null `roles` yields
      exactly those roles; one without `roles`, or with `roles: null`,
      yields none. */
  lemma StoredRolesAreRead(text: string, ms: seq<(string, Value)>)
    requires Parse(text) == Some(Obj(ms))
    ensures var r := UserRoles(Some(text));
            match LookupLast(ms, "roles")
            case None => r == Arr([])
            case Some(Null) => r == Arr([])
            case Some(roles) => r == roles
  {
    assert Some(text).GetOr("null") == text;
    assert Member(Obj(ms), "roles") == LookupLast(ms, "roles");
  }

  /** What the module computes when it loads: the authentication snapshot
      and the roles. */
  datatype Session = Session(authenticated: bool, roles: Value)

  /** `removeAccessToken()`. */
  method RemoveAccessToken(store: Storage)
    modifies store
    ensures store.items == old(store.items) - {AccessTokenKey, UserKey}
  {
    store.RemoveItem(AccessTokenKey);
    store.RemoveItem(UserKey);
  }

  /** The module's top-level statements: take the snapshot, drop the token
      and the user when there is no usable token, then read the roles. */
  method Startup(store: Storage) returns (session: Session)
    modifies store
    ensures session.authenticated == IsAuthenticated(old(store.GetItem(AccessTokenKey)))
    ensures store.items == if session.authenticated then old(store.items)
                           else old(store.items) - {AccessTokenKey, UserKey}
    ensures session.roles == UserRoles(store.GetItem(UserKey))
    ensures !session.authenticated ==> UserKey !in store.items && session.roles == Arr([])
  {
    var authenticated := IsAuthenticated(store.GetItem(AccessTokenKey));
    if !authenticated {
      RemoveAccessToken(store);
    }
    MissingUserHasNoRoles();
    var roles := UserRoles(store.GetItem(UserKey));
    session := Session(authenticated, roles);
  }

  // ---------------------------------------------------------------------------
  // Navigation guard

  /** `next()` or `next({ name })`. */
  datatype Decision = Allow | Redirect(name: string)

  /** What one run of the guard does: the title it writes and how it calls `next`. */
  datatype Navigation = Navigation(title: string, decision: Decision)

  /** `VITE_APP_TITLE` and `VITE_APP_DESC`, each possibly undefined. */
  datatype AppEnv = AppEnv(appTitle: Option<string>, appDescription: Option<string>)

  /** `(meta.public ?? false) === true`. */
  predicate IsPublic(meta: RouteMeta) {
    meta.isPublic == Some(Bool(true))
  }

  /** A route title written this way is non-empty, so it is truthy. */
  predicate HasTitle(meta: RouteMeta) {
    meta.title.Some? && |meta.title.value| > 0
  }

  function PageTitle(meta: RouteMeta, env: AppEnv): string {
    if HasTitle(meta) then meta.title.value + " - " + env.appTitle.GetOr("")
    else env.appTitle.GetOr("") + " - " + env.appDescription.GetOr("")
  }

  function Decide(authenticated: bool, to: Route): Decision {
    if !authenticated && !IsPublic(to.meta) then
      if to.name == "auth_login" then Allow else Redirect("auth_login")
    else if authenticated && to.name in ["auth_login", "auth_register"] then Redirect("auth_check")
    else Allow
  }

  /** The `beforeEach` callback on the target `to` under a session snapshot. */
  function BeforeEach(authenticated: bool, to: Route, env: AppEnv): Navigation {
    Navigation(PageTitle(to.meta, env), Decide(authenticated, to))
  }

  /** The title is `"<title> - <app title>"` for a target with a title, and
      `"<app title> - <app description>"` otherwise. */
  lemma TitleFormat(authenticated: bool, to: Route, env: AppEnv)
    ensures var t := BeforeEach(authenticated, to, env).title;
            var app := env.appTitle.GetOr("");
            if HasTitle(to.meta) then
              |t| == |to.meta.title.value| + 3 + |app| &&
              t[..|to.meta.title.value|] == to.meta.title.value &&
              t[|to.meta.title.value|..|to.meta.title.value| + 3] == " - " &&
              t[|t| - |app|..] == app
            else
              |t| == |app| + 3 + |env.appDescription.GetOr("")| &&
              t[..|app|] == app && t[|app|..|app| + 3] == " - " &&
              t[|app| + 3..] == env.appDescription.GetOr("")
  {
    var t := BeforeEach(authenticated, to, env).title;
    var app := env.appTitle.GetOr("");
    if HasTitle(to.meta) {
      var title := to.meta.title.value;
      assert t == title + " - " + app;
      assert t[..|title|] == title;
      assert t[|title|..|title| + 3] == " - ";
      assert t[|t| - |app|..] == app;
    } else {
      assert t == app + " - " + env.appDescription.GetOr("");
      assert t[..|app|] == app;
      assert t[|app|..|app| + 3] == " - ";
      assert t[|app| + 3..] == env.appDescription.GetOr("");
    }
  }

  /** Two different titles never produce the same page title. */
  lemma TitlesTellPagesApart(m1: RouteMeta, m2: RouteMeta, env: AppEnv)
    requires HasTitle(m1) && HasTitle(m2) && m1.title != m2.title
    ensures PageTitle(m1, env) != PageTitle(m2, env)
  {
    var a, b, app := m1.title.value, m2.title.value, env.appTitle.GetOr("");
    assert PageTitle(m1, env) == a + (" - " + app);
    assert PageTitle(m2, env) == b + (" - " + app);
    SameSuffixSamePrefix(a, b, " - " + app);
  }

  lemma SameSuffixSamePrefix(x: string, y: string, rest: string)
    ensures x + rest == y + rest ==> x == y
  {
    if x + rest == y + rest {
      assert |x| == |y|;
      assert x == (x + rest)[..|x|];
      assert y == (y + rest)[..|y|];
    }
  }

  /** Without a session, a target that is not public is redirected to the
      login page, except the login page itself. */
  lemma GuestOnPrivatePage(to: Route, env: AppEnv)
    requires !IsPublic(to.meta)
    ensures BeforeEach(false, to, env).decision ==
            if to.name == "auth_login" then Allow else Redirect("auth_login")
  {
  }

  /** Without a session, a public target is let through. */
  lemma GuestOnPublicPage(to: Route, env: AppEnv)
    requires IsPublic(to.meta)
    ensures BeforeEach(false, to, env).decision == Allow
  {
  }

  /** With a session, the login and registration pages send the user to the
      session check, and every other target is let through. */
  lemma SignedInNavigation(to: Route, env: AppEnv)
    ensures to.name == "auth_login" || to.name == "auth_register" ==>
              BeforeEach(true, to, env).decision == Redirect("auth_check")
    ensures to.name != "auth_login" && to.name != "auth_register" ==>
              BeforeEach(true, to, env).decision == Allow
  {
  }

  /** The roles a route lists never change the decision. */
  lemma RolesNeverRedirect(authenticated: bool, to: Route, roles: Option<seq<string>>, env: AppEnv)
    ensures BeforeEach(authenticated, to.(meta := to.meta.(roles := roles)), env).decision ==
            BeforeEach(authenticated, to, env).decision
  {
  }

  lemma LoginAndCheckRoutes()
    ensures FindRoute("auth_login") == Some(PublicPage("/auth/login", "auth_login", "Login"))
    ensures FindRoute("auth_check") == Some(PublicPage("/auth/check", "auth_check", "Validating user session"))
  {
    assert Routes[0].name == "home" && Routes[1].name == "system";
    assert Routes[1..][1..] == Routes[2..];
    assert Routes[2..][1..] == Routes[3..];
  }

  /** Every redirect names a route of the table, and the guard lets that
      route through under the same snapshot: a navigation settles after at
      most one redirect. */
  lemma RedirectSettles(authenticated: bool, to: Route, env: AppEnv)
    ensures var d := BeforeEach(authenticated, to, env).decision;
            d.Redirect? ==>
              FindRoute(d.name).Some? &&
              BeforeEach(authenticated, FindRoute(d.name).value, env).decision == Allow
  {
    RedirectTarget(authenticated, to);
    LoginAndCheckRoutes();
    TargetAllowed(authenticated);
  }

  /** A guest is only ever sent to the login page, a signed-in user only to
      the session check. */
  lemma RedirectTarget(authenticated: bool, to: Route)
    ensures Decide(authenticated, to).Redirect? ==>
              Decide(authenticated, to).name == if authenticated then "auth_check" else "auth_login"
  {
  }

  lemma TargetAllowed(authenticated: bool)
    ensures !authenticated ==> Decide(false, PublicPage("/auth/login", "auth_login", "Login")) == Allow
    ensures authenticated ==> Decide(true, PublicPage("/auth/check", "auth_check", "Validating user session")) == Allow
  {
  }
}
