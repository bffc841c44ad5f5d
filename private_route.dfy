/**
 * The two route guards: `PrivateRoute` admits an authenticated user with the
 * route's role (if it names one) and redirects everyone else; `PublicRoute`
 * admits only unauthenticated visitors.
 */
module PrivateRoute {
  import opened Js

  /** A guard renders its children or navigates elsewhere. */
  datatype RouteOutcome = Redirect(to: string) | Children

  /** The dashboard of a role: students to theirs, anyone else to the admin one. */
  function DashboardFor(userRole: Option<string>): (r: string)
    ensures userRole == Some("student") ==> r == "/student/dashboard"
    ensures userRole != Some("student") ==> r == "/admin/dashboard"
  {
    if userRole == Some("student") then "/student/dashboard" else "/admin/dashboard"
  }

  /** A JavaScript-truthy `allowedRole` prop: given and non-empty. */
  predicate NamesRole(allowedRole: Option<string>) {
    allowedRole.Some? && allowedRole.value != ""
  }

  /** `PrivateRoute({ allowedRole })`. */
  function PrivateRoute(isAuthenticated: bool, userRole: Option<string>, allowedRole: Option<string>): (r: RouteOutcome)
    ensures !isAuthenticated ==> r == Redirect("/login")
    ensures r.Redirect? ==> r.to in {"/login", "/student/dashboard", "/admin/dashboard"}
  {
    if !isAuthenticated then Redirect("/login")
    else if NamesRole(allowedRole) && userRole != Some(allowedRole.value) then Redirect(DashboardFor(userRole))
    else Children
  }

  /** `PublicRoute`. */
  function PublicRoute(isAuthenticated: bool, userRole: Option<string>): (r: RouteOutcome)
    ensures r == Children <==> !isAuthenticated
    ensures isAuthenticated ==> r == Redirect(DashboardFor(userRole))
  {
    if isAuthenticated then Redirect(DashboardFor(userRole)) else Children
  }

  /** The children are shown exactly to an authenticated user when the route
      names no role or the user has that role; a wrong role goes to the
      user's own dashboard. */
  lemma PrivateRouteAdmits(isAuthenticated: bool, userRole: Option<string>, allowedRole: Option<string>)
    ensures PrivateRoute(isAuthenticated, userRole, allowedRole) == Children <==>
      isAuthenticated && (!NamesRole(allowedRole) || userRole == Some(allowedRole.value))
    ensures isAuthenticated && NamesRole(allowedRole) && userRole != Some(allowedRole.value) ==>
      PrivateRoute(isAuthenticated, userRole, allowedRole) == Redirect(DashboardFor(userRole))
  {
  }

  /** On a route that names no role the two guards are complementary: each
      visitor gets the children from exactly one of them. */
  lemma GuardsComplementary(isAuthenticated: bool, userRole: Option<string>)
    ensures (PrivateRoute(isAuthenticated, userRole, None) == Children) != (PublicRoute(isAuthenticated, userRole) == Children)
  {
  }

  /** The role each dashboard route is guarded with in the route table. */
  function DashboardRole(path: string): Option<string> {
    if path == "/student/dashboard" then Some("student")
    else if path == "/admin/dashboard" then Some("admin")
    else None
  }

  /** For the two roles the application knows, a redirect by either guard
      lands on a dashboard whose guard admits the user, so there is no second
      redirect. */
  lemma RedirectLandsOnOwnDashboard(role: string, allowedRole: Option<string>)
    requires role == "student" || role == "admin"
    ensures var target := DashboardFor(Some(role));
      PrivateRoute(true, Some(role), DashboardRole(target)) == Children &&
      (PrivateRoute(true, Some(role), allowedRole).Redirect? ==> PrivateRoute(true, Some(role), allowedRole).to == target) &&
      PublicRoute(true, Some(role)).to == target
  {
  }
}
