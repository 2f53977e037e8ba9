/** The router of src/App.tsx: the `ProtectedRoute` guard and the route
    table it is used in. */
module AppRoutes {
  import Auth
  import Text

  /** What a guard renders: a redirect, its children, or nothing at all
      because reading the current user threw. */
  datatype GuardResult = Navigate(to: string) | RenderChildren | Raises

  /** `ProtectedRoute`; `adminOnly` is false unless the route sets it. */
  function ProtectedRoute(user: Auth.Lookup, adminOnly: bool): (r: GuardResult)
    ensures user.NoUser? ==> r == Navigate("/login")
    ensures user.Found? && adminOnly && !Auth.IsAdmin(user.user) ==> r == Navigate("/schedule")
    ensures r == RenderChildren <==> user.Found? && (!adminOnly || Auth.IsAdmin(user.user))
    ensures r == Raises <==> user.Raises?
  {
    match user
    case Raises => Raises
    case NoUser => Navigate("/login")
    case Found(u) => if adminOnly && !Auth.IsAdmin(u) then Navigate("/schedule") else RenderChildren
  }

  /** The pages the router can show. */
  datatype Page = Login | Schedule | Book | Admin

  /** What one path renders. */
  datatype Screen = Show(page: Page) | Redirect(to: string) | Blank | Crash

  /** Trailing slashes dropped, keeping the first character: a route's
      pattern accepts any number of slashes after its path. */
  function TrimTrailingSlashes(path: string): (p: string)
    ensures p <= path
    ensures |path| >= 1 ==> |p| >= 1
    ensures |p| <= 1 || p[|p| - 1] != '/'
    ensures forall i :: |p| <= i < |path| ==> path[i] == '/'
    decreases |path|
  {
    if |path| > 1 && path[|path| - 1] == '/' then TrimTrailingSlashes(path[..|path| - 1]) else path
  }

  /** The path as the route table compares it: an empty path is "/",
      trailing slashes are dropped, and ASCII letters are lower-cased, since
      routes match without regard to case. Non-ASCII letters are never
      folded onto ASCII ones by that match, so this is exact for the
      all-ASCII route paths. */
  function RoutePath(path: string): (p: string)
    ensures |p| >= 1
    ensures p[0] == Text.LowerChar(if path == "" then '/' else path[0])
  {
    Text.ToLower(TrimTrailingSlashes(if path == "" then "/" else path))
  }

  /** The route table: /login unguarded, /schedule and /book behind the plain
      guard, /admin behind the admin-only guard, / sent to /schedule; any
      other path matches no route and renders nothing. */
  function Route(path: string, user: Auth.Lookup): (s: Screen)
    ensures RoutePath(path) == "/login" ==> s == Show(Login)
    ensures RoutePath(path) == "/" ==> s == Redirect("/schedule")
    ensures RoutePath(path) !in {"/login", "/schedule", "/book", "/admin", "/"} ==> s == Blank
  {
    var p := RoutePath(path);
    if p == "/login" then Show(Login)
    else if p == "/schedule" then Guarded(ProtectedRoute(user, false), Schedule)
    else if p == "/book" then Guarded(ProtectedRoute(user, false), Book)
    else if p == "/admin" then Guarded(ProtectedRoute(user, true), Admin)
    else if p == "/" then Redirect("/schedule")
    else Blank
  }

  /** A path already written as a route writes it: lower-case, without a
      trailing slash. */
  lemma RoutePathOfCanonical(path: string)
    requires |path| >= 1 && (|path| == 1 || path[|path| - 1] != '/')
    requires forall i :: 0 <= i < |path| ==> !Text.IsAsciiUpper(path[i])
    ensures RoutePath(path) == path
  {
    assert TrimTrailingSlashes(path) == path;
  }

  /** Case and trailing slashes do not matter: "/SCHEDULE/" shows what
      "/schedule" shows. */
  lemma MatchIgnoresCaseAndTrailingSlash(path: string, user: Auth.Lookup)
    requires path != ""
    ensures RoutePath(Text.ToUpper(path) + "/") == RoutePath(path)
    ensures Route(Text.ToUpper(path) + "/", user) == Route(path, user)
  {
    TrailingSlashDropped(Text.ToUpper(path));
    TrimCommutesWithUpper(path);
    Text.LowerAfterUpper(TrimTrailingSlashes(path));
  }

  lemma TrailingSlashDropped(path: string)
    requires path != ""
    ensures TrimTrailingSlashes(path + "/") == TrimTrailingSlashes(path)
  {
    assert (path + "/")[..|path + "/"| - 1] == path;
  }

  lemma {:induction false} TrimCommutesWithUpper(path: string)
    ensures TrimTrailingSlashes(Text.ToUpper(path)) == Text.ToUpper(TrimTrailingSlashes(path))
    decreases |path|
  {
    var up := Text.ToUpper(path);
    if |path| > 1 && path[|path| - 1] == '/' {
      assert up[|up| - 1] == '/';
      assert up[..|up| - 1] == Text.ToUpper(path[..|path| - 1]);
      TrimCommutesWithUpper(path[..|path| - 1]);
    } else if |path| > 1 {
      assert up[|up| - 1] != '/';
    }
  }

  function Guarded(g: GuardResult, page: Page): Screen {
    match g
    case Navigate(to) => Redirect(to)
    case RenderChildren => Show(page)
    case Raises => Crash
  }

  /** A guarded page is shown exactly to the users its guard admits: any
      signed-in user for /schedule and /book, only an admin for /admin, and
      only on a path that names that page. */
  lemma GuardedPagesShown(path: string, user: Auth.Lookup)
    ensures Route(path, user) == Show(Schedule) <==> RoutePath(path) == "/schedule" && user.Found?
    ensures Route(path, user) == Show(Book) <==> RoutePath(path) == "/book" && user.Found?
    ensures Route(path, user) == Show(Admin)
            <==> RoutePath(path) == "/admin" && user.Found? && Auth.IsAdmin(user.user)
  {
  }

  /** Redirects followed at most `fuel` times. */
  function Follow(path: string, user: Auth.Lookup, fuel: nat): Screen
    decreases fuel
  {
    match Route(path, user)
    case Redirect(to) => if fuel == 0 then Redirect(to) else Follow(to, user, fuel - 1)
    case s => s
  }

  /** Where the two redirect targets lead: the login page, and the schedule
      page behind the plain guard. */
  lemma RedirectTargets(user: Auth.Lookup)
    ensures Route("/login", user) == Show(Login)
    ensures Route("/schedule", user) == Guarded(ProtectedRoute(user, false), Schedule)
  {
    RoutePathOfCanonical("/login");
    RoutePathOfCanonical("/schedule");
  }

  /** Redirects never loop: from any path, at most two of them lead to a page,
      to nothing, or to the exception, and signed-out visitors of a guarded
      page or of / end on the login page. */
  lemma RedirectsSettle(path: string, user: Auth.Lookup)
    ensures !Follow(path, user, 2).Redirect?
    ensures user.NoUser? && RoutePath(path) in {"/", "/schedule", "/book", "/admin"}
            ==> Follow(path, user, 2) == Show(Login)
  {
    RedirectTargets(user);
    var first := Route(path, user);
    if first.Redirect? {
      assert first.to == "/login" || first.to == "/schedule";
      if first.to == "/schedule" && user.NoUser? {
        assert Route("/schedule", user) == Redirect("/login");
      }
    }
  }

  /** A signed-in user who is not an admin and asks for /admin ends on the
      schedule page. */
  lemma NonAdminLandsOnSchedule(user: Auth.Lookup)
    requires user.Found? && !Auth.IsAdmin(user.user)
    ensures Follow("/admin", user, 2) == Show(Schedule)
  {
    RoutePathOfCanonical("/admin");
    RedirectTargets(user);
    assert Route("/admin", user) == Redirect("/schedule");
  }
}
