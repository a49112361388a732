/** The route table and the route guard of the app (src/App.tsx). */
module Routing {
  import opened Base
  import opened Types
  import opened Auth

  /** What a path renders: the loading placeholder, a redirect, one of the
      three pages, or nothing (no route matches). */
  datatype Screen = Loading | Redirect(to: string) | LoginPage | AdminPage | TeacherPage | NoMatch

  /** `ProtectedRoute`: loading first; then a missing user or a role not
      allowed goes to /login; otherwise the page. */
  function Protected(user: Option<User>, isLoading: bool, allowed: seq<Role>, page: Screen): (r: Screen)
    ensures isLoading ==> r == Loading
    ensures !isLoading && (user.None? || user.value.role !in allowed) ==> r == Redirect("/login")
    ensures !isLoading && user.Some? && user.value.role in allowed ==> r == page
  {
    if isLoading then Loading
    else if user.None? || user.value.role !in allowed then Redirect("/login")
    else page
  }

  /** The route table. /login does not wait for loading: with a user it
      sends admins to /admin and anyone else to /teacher. */
  function Route(path: string, a: AuthState): (r: Screen)
    ensures path == "/login" && a.user.None? ==> r == LoginPage
    ensures path == "/login" && a.user.Some? ==> r == Redirect(if a.user.value.role == AdminRole then "/admin" else "/teacher")
    ensures path == "/admin" ==> r == Protected(a.user, a.isLoading, [AdminRole], AdminPage)
    ensures path == "/teacher" ==> r == Protected(a.user, a.isLoading, [TeacherRole], TeacherPage)
    ensures path == "/" ==> r == Redirect("/login")
    ensures path !in {"/login", "/admin", "/teacher", "/"} ==> r == NoMatch
  {
    if path == "/login" then
      match a.user
      case Some(u) => Redirect(if u.role == AdminRole then "/admin" else "/teacher")
      case None => LoginPage
    else if path == "/admin" then Protected(a.user, a.isLoading, [AdminRole], AdminPage)
    else if path == "/teacher" then Protected(a.user, a.isLoading, [TeacherRole], TeacherPage)
    else if path == "/" then Redirect("/login")
    else NoMatch
  }

  /** Follows at most `steps` redirects from `path`. */
  function Follow(path: string, a: AuthState, steps: nat): Screen
    decreases steps
  {
    var s := Route(path, a);
    if s.Redirect? && steps > 0 then Follow(s.to, a, steps - 1) else s
  }

  /** The page a settled session lands on. */
  function Home(a: AuthState): Screen {
    match a.user
    case None => LoginPage
    case Some(u) => if u.role == AdminRole then AdminPage else TeacherPage
  }

  /** Once loading is over, every route of the table lands, within three
      redirects, on the current user's own page (the login page with no
      user): there is no redirect loop, and each dashboard admits only
      its own role. */
  lemma RoutesSettle(path: string, a: AuthState)
    requires !a.isLoading && path in {"/login", "/admin", "/teacher", "/"}
    ensures Follow(path, a, 3) == Home(a)
  {
  }

  /** While loading, the dashboards show only the placeholder, whoever is logged in. */
  lemma LoadingHidesDashboards(a: AuthState)
    requires a.isLoading
    ensures Route("/admin", a) == Loading && Route("/teacher", a) == Loading
  {
  }

  /** Logging in with the admin's demo credentials and reloading lands the
      login page on the admin dashboard. */
  lemma AdminLoginLandsOnDashboard(s: AuthState)
    ensures var after := Mount(Initial(Login(s, "admin@example.com", "admin123").1.stored));
            Follow("/login", after, 3) == AdminPage
  {
    DemoAccounts(s);
    LoginSurvivesReload(s, "admin@example.com", "admin123");
    var after := Mount(Initial(Login(s, "admin@example.com", "admin123").1.stored));
    RoutesSettle("/login", after);
  }
}
