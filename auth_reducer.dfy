/** `authReducer`: the session (user, token, role, logged-in flag), the
    profile being viewed and the administrator's user list. */
module AuthReducer {
  import opened Wrappers
  import opened Interfaces
  import opened Actions
  import Seqs

  /** What `userById` holds: a user record (`USER_ID`, `UPDATE_USER`), or the
      whole `{ user, token, rol }` payload that `AUTH_USER` stores there. */
  datatype UserEntry = Profile(profile: IUser) | SessionRecord(session: Session)

  datatype AuthState = AuthState(
    user: Option<IUser>,
    userById: Option<UserEntry>,
    users: Option<seq<IUser>>,
    token: Option<string>,
    rol: Option<Role>,
    isLoggedIn: bool,
    error: Option<string>,
    loading: bool)

  /** Logged out, nothing loaded, and an empty (not null) user list. */
  const InitialState := AuthState(None, None, Some([]), None, None, false, None, false)

  function UserKey(u: IUser): Id { u.id }

  /** `state.userById.id === payload.id`: a stored session payload has no
      `id` of its own, so it never matches. */
  predicate EntryHasId(e: UserEntry, id: Id) {
    e.Profile? && e.profile.id == id
  }

  /** The fields a successful login, registration or verification writes. */
  function StartSession(s: AuthState, session: Session): AuthState {
    s.(user := Some(session.user), token := Some(session.token), rol := session.rol,
       isLoggedIn := true, error := None)
  }

  function Reduce(s: AuthState, a: Action): AuthState {
    match a
    case LoadingStart => s.(loading := true)
    case LoadingEnd => s.(loading := false)
    case AuthError(m) => s.(error := Some(m))
    case AuthUser(session) => StartSession(s, session).(userById := Some(SessionRecord(session)))
    case LoginUser(session) => StartSession(s, session)
    case LogoutUser => InitialState
    case RegisterUser(session) => StartSession(s, session)
    case UserId(u) => s.(userById := Some(Profile(u)), isLoggedIn := true, error := None)
    case UpdateUser(u) =>
      s.(user := if s.user.Some? && s.user.value.id == u.id then Some(u) else s.user,
         userById := if s.userById.Some? && EntryHasId(s.userById.value, u.id) then Some(Profile(u)) else s.userById,
         users := if s.users.Some? then Some(Seqs.ReplaceKeyed(s.users.value, UserKey, u)) else None,
         isLoggedIn := true,
         error := None)
    case FetchUsuarios(us) => s.(users := Some(us), isLoggedIn := true, error := None)
    case DeleteUsuario(id) =>
      s.(users := if s.users.Some? then Some(Seqs.RemoveKeyed(s.users.value, UserKey, id)) else None,
         isLoggedIn := true,
         error := None)
    case _ => s
  }

  /** `LOGOUT_USER` returns the initial state whatever the state was:
      logged out, with no user, token or role, and an empty user list. */
  lemma LogoutResets(s: AuthState)
    ensures var r := Reduce(s, LogoutUser);
      && r == InitialState
      && !r.isLoggedIn && r.user.None? && r.token.None? && r.rol.None? && r.users == Some([])
  {
  }

  /** `LOGIN_USER` and `REGISTER_USER` take user, token and role from the
      payload, mark the session as logged in and clear the error, and leave
      the user list, the viewed profile and `loading` alone. */
  lemma SessionFromPayload(s: AuthState, session: Session)
    ensures forall a :: a == LoginUser(session) || a == RegisterUser(session) ==>
      var r := Reduce(s, a);
      && r.user == Some(session.user) && r.token == Some(session.token) && r.rol == session.rol
      && r.isLoggedIn && r.error.None?
      && r.users == s.users && r.userById == s.userById && r.loading == s.loading
  {
  }

  /** `AUTH_USER` does the same and also stores the whole payload as
      `userById`. */
  lemma AuthUserStoresPayload(s: AuthState, session: Session)
    ensures var r := Reduce(s, AuthUser(session));
      && r.userById == Some(SessionRecord(session))
      && r == StartSession(s, session).(userById := r.userById)
      && r.isLoggedIn && r.error.None?
  {
  }

  /** `AUTH_ERROR` records the message and nothing else; in particular it does
      not end loading. */
  lemma AuthErrorOnlyError(s: AuthState, m: string)
    ensures Reduce(s, AuthError(m)) == s.(error := Some(m))
    ensures Reduce(s, AuthError(m)).loading == s.loading
  {
  }

  /** `UPDATE_USER` replaces the session user and the viewed profile only when
      their id is the payload's, replaces by id in the user list (a null list
      stays null), and a second identical update changes nothing more. */
  lemma UpdateUserById(s: AuthState, u: IUser)
    ensures var r := Reduce(s, UpdateUser(u));
      && (r.user == if s.user.Some? && s.user.value.id == u.id then Some(u) else s.user)
      && (r.userById == if s.userById.Some? && s.userById.value.Profile? && s.userById.value.profile.id == u.id
                        then Some(Profile(u)) else s.userById)
      && (s.users.None? ==> r.users.None?)
      && (s.users.Some? ==>
            && r.users.Some? && |r.users.value| == |s.users.value|
            && forall i :: 0 <= i < |s.users.value| ==>
                 r.users.value[i] == if s.users.value[i].id == u.id then u else s.users.value[i])
      && r.isLoggedIn && r.error.None? && r.token == s.token && r.rol == s.rol && r.loading == s.loading
      && Reduce(r, UpdateUser(u)) == r
  {
    if s.users.Some? {
      Seqs.ReplaceKeyedIdempotent(s.users.value, UserKey, u);
    }
  }

  /** `DELETE_USUARIO` removes every user with the id, keeps the others in
      order and as often as they occur, and leaves a null list null. */
  lemma DeleteUsuarioById(s: AuthState, id: Id)
    ensures var r := Reduce(s, DeleteUsuario(id));
      && (s.users.None? ==> r.users.None?)
      && (s.users.Some? ==>
            && r.users.Some?
            && (forall x :: multiset(r.users.value)[x] == if x.id == id then 0 else multiset(s.users.value)[x])
            && Seqs.IsSubseq(r.users.value, s.users.value))
      && r == s.(users := r.users, isLoggedIn := true, error := None)
  {
    if s.users.Some? {
      Seqs.RemoveKeyedCounts(s.users.value, UserKey, id);
      Seqs.RemoveKeyedSubseq(s.users.value, UserKey, id);
    }
  }

  /** `USER_ID` and `FETCH_USUARIOS` store their payload and mark the session
      logged in, even when no user is in the session. */
  lemma ProfileAndListLoads(s: AuthState, u: IUser, us: seq<IUser>)
    ensures Reduce(s, UserId(u)) == s.(userById := Some(Profile(u)), isLoggedIn := true, error := None)
    ensures Reduce(s, FetchUsuarios(us)) == s.(users := Some(us), isLoggedIn := true, error := None)
    ensures Reduce(InitialState, FetchUsuarios(us)).isLoggedIn && Reduce(InitialState, FetchUsuarios(us)).user.None?
  {
  }

  /** The loading actions change only `loading`; the actions of the other
      slices leave this one as it is. */
  lemma OtherActionsIgnored(s: AuthState, a: Action)
    requires !(a.AuthError? || a.AuthUser? || a.LoginUser? || a.LogoutUser? || a.RegisterUser?
               || a.UserId? || a.UpdateUser? || a.FetchUsuarios? || a.DeleteUsuario?)
    ensures a.LoadingStart? ==> Reduce(s, a) == s.(loading := true)
    ensures a.LoadingEnd? ==> Reduce(s, a) == s.(loading := false)
    ensures !a.LoadingStart? && !a.LoadingEnd? ==> Reduce(s, a) == s
  {
  }
}
