/** The routing decisions of `App`: the guard on protected pages and where
    the header and footer are shown. */
module App {
  import opened Wrappers
  import opened Interfaces
  import opened Actions
  import AuthReducer

  /** What a protected route renders. */
  datatype Outcome = Redirect(to: string) | Children

  /** `ProtectedRoute`: without a session or a user, back to the home page;
      with a required role the user's `rol` does not have, to the
      unauthorized page; otherwise the page itself. */
  function ProtectedRoute(isLoggedIn: bool, user: Option<IUser>, roleRequired: Option<Role>): Outcome {
    if !isLoggedIn || user.None? then Redirect("/")
    else if roleRequired.Some? && user.value.rol != roleRequired then Redirect("/unauthorized")
    else Children
  }

  lemma ProtectedRouteSpec(isLoggedIn: bool, user: Option<IUser>, roleRequired: Option<Role>)
    ensures ProtectedRoute(isLoggedIn, user, roleRequired) == Redirect("/") <==> !isLoggedIn || user.None?
    ensures ProtectedRoute(isLoggedIn, user, roleRequired) == Redirect("/unauthorized") <==>
      isLoggedIn && user.Some? && roleRequired.Some? && user.value.rol != roleRequired
    ensures ProtectedRoute(isLoggedIn, user, roleRequired) == Children <==>
      isLoggedIn && user.Some? && (roleRequired.None? || user.value.rol == roleRequired)
  {
  }

  /** The profile page requires the `USER` role, so an administrator is sent
      to the unauthorized page, and a user without a role is kept out of
      both protected areas. */
  lemma RolesAreExclusive(user: IUser)
    ensures user.rol == Some(Admin) ==> ProtectedRoute(true, Some(user), Some(User)) == Redirect("/unauthorized")
    ensures user.rol.None? ==>
      ProtectedRoute(true, Some(user), Some(User)) == Redirect("/unauthorized")
      && ProtectedRoute(true, Some(user), Some(Admin)) == Redirect("/unauthorized")
  {
  }

  /** What the guard sees in the session after an action: the logged-in flag
      some user-list actions set without a session user does not open a
      protected page, while a login opens the pages of the user's role. */
  lemma GuardAfterActions(us: seq<IUser>, session: Session, roleRequired: Option<Role>)
    ensures var s := AuthReducer.Reduce(AuthReducer.InitialState, FetchUsuarios(us));
      s.isLoggedIn && ProtectedRoute(s.isLoggedIn, s.user, roleRequired) == Redirect("/")
    ensures forall s :: var r := AuthReducer.Reduce(s, LoginUser(session));
      ProtectedRoute(r.isLoggedIn, r.user, session.user.rol) == Children
    ensures forall s :: var r := AuthReducer.Reduce(s, LogoutUser);
      ProtectedRoute(r.isLoggedIn, r.user, roleRequired) == Redirect("/")
  {
  }

  /** The pages that show neither header nor footer. */
  const BarePages: set<string> :=
    {"/register", "/admin", "/admin/productos", "/admin/categorias", "/admin/promociones", "/admin/usuarios"}

  function ShowHeader(pathname: string): bool {
    pathname != "/register" && pathname != "/admin" && pathname != "/admin/productos"
    && pathname != "/admin/categorias" && pathname != "/admin/promociones" && pathname != "/admin/usuarios"
  }

  function ShowFooter(pathname: string): bool {
    pathname != "/register" && pathname != "/admin" && pathname != "/admin/productos"
    && pathname != "/admin/categorias" && pathname != "/admin/promociones" && pathname != "/admin/usuarios"
  }

  /** The header is hidden exactly on the six listed pages, and the footer
      is shown exactly where the header is. */
  lemma HeaderAndFooter(pathname: string)
    ensures !ShowHeader(pathname) <==> pathname in BarePages
    ensures ShowFooter(pathname) == ShowHeader(pathname)
    ensures ShowHeader("/") && ShowHeader("/admin/")
  {
  }
}
