/** The route guards in front of the user and admin pages. */
module Auth {
  import opened Models

  const LoginFirst := "請先登入！"
  const SignInPath := "/signin"
  const HomePath := "/"

  /** What the guard reads from the request: whether the session is
      authenticated, and whether its user is an admin. */
  datatype Request = Request(isAuthenticated: bool, isAdmin: bool)

  /** Let the request through, or redirect it with an optional flash
      notice. */
  datatype Outcome = Next | Redirect(path: string, notice: Option<string>)

  /** Signed-in users pass; everyone else goes to the sign-in page with a
      notice. */
  function Authenticated(req: Request): (r: Outcome)
    ensures r.Next? <==> req.isAuthenticated
    ensures !req.isAuthenticated ==> r == Redirect(SignInPath, Some(LoginFirst))
  {
    if req.isAuthenticated then Next else Redirect(SignInPath, Some(LoginFirst))
  }

  /** Signed-in admins pass; a signed-in user who is not an admin goes home
      without a notice; a visitor who is not signed in is treated as by
      `Authenticated`. */
  function AuthenticatedAdmin(req: Request): (r: Outcome)
    ensures r.Next? <==> req.isAuthenticated && req.isAdmin
    ensures req.isAuthenticated && !req.isAdmin ==> r == Redirect(HomePath, None)
    ensures !req.isAuthenticated ==> r == Authenticated(req)
    ensures r.Next? ==> Authenticated(req).Next?
  {
    if req.isAuthenticated then
      if req.isAdmin then Next else Redirect(HomePath, None)
    else
      Redirect(SignInPath, Some(LoginFirst))
  }

  /** The admin guard has three distinguishable outcomes, and a
      non-admin's outcome differs from a visitor's. */
  lemma AdminGuardOutcomesDiffer(admin: Request, member: Request, visitor: Request)
    requires admin.isAuthenticated && admin.isAdmin
    requires member.isAuthenticated && !member.isAdmin
    requires !visitor.isAuthenticated
    ensures AuthenticatedAdmin(admin) != AuthenticatedAdmin(member)
    ensures AuthenticatedAdmin(member) != AuthenticatedAdmin(visitor)
    ensures AuthenticatedAdmin(admin) != AuthenticatedAdmin(visitor)
  {
  }
}
