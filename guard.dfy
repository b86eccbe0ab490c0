/** The Angular route guard in front of the admin pages: a decision on the
    session's login flag and role claim. */
module AdminGuard {
  /** What the guard tells the router: let the navigation through, or
      send the user to another route instead. */
  datatype Decision = Allow | Redirect(path: string)

  const LoginRoute := "/login"
  const ProjectsRoute := "/projects"
  const AdminRole := "Admin"

  /** `adminGuard`: the login check first, the role check second. */
  function Decide(isLoggedIn: bool, role: string): (d: Decision)
    ensures d == Redirect(LoginRoute) <==> !isLoggedIn
    ensures d == Redirect(ProjectsRoute) <==> isLoggedIn && role != AdminRole
    ensures d == Allow <==> isLoggedIn && role == AdminRole
  {
    if !isLoggedIn then Redirect(LoginRoute)
    else if role != AdminRole then Redirect(ProjectsRoute)
    else Allow
  }
}
