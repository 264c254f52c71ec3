/** The user table of the administration dashboard (`UsuarioManagement`):
    the filter form and the users it lets through. */
module UsuarioManagement {
  import opened Wrappers
  import opened Interfaces
  import Text
  import Seqs

  datatype Filters = Filters(nombre: string, email: string, rol: string, activo: string)

  /** `initialFilters`, which `resetFilters` restores. */
  const InitialFilters := Filters("", "", "", "")

  /** `user.rol === filters.rol`: a missing role never equals a filter text. */
  predicate MatchRol(user: IUser, f: Filters) {
    f.rol == "" || (user.rol.Some? && RoleName(user.rol.value) == f.rol)
  }

  /** `user.activo?.toString() === filters.activo`. */
  predicate MatchActivo(user: IUser, f: Filters) {
    f.activo == "" || (user.activo.Some? && Text.BoolText(user.activo.value) == f.activo)
  }

  predicate Matches(user: IUser, f: Filters) {
    && Text.Contains(Text.Lower(user.nombre), Text.Lower(f.nombre))
    && Text.Contains(Text.Lower(user.email), Text.Lower(f.email))
    && MatchRol(user, f)
    && MatchActivo(user, f)
  }

  function MatchesFilters(f: Filters): IUser -> bool {
    user => Matches(user, f)
  }

  /** `users?.filter(...) || []`. */
  function FilteredUsers(users: Option<seq<IUser>>, f: Filters): seq<IUser> {
    if users.None? then [] else Seqs.Filter(users.value, MatchesFilters(f))
  }

  /** A null list shows nobody; otherwise exactly the matching users, in
      order and with their multiplicity. */
  lemma FilteredUsersSpec(users: Option<seq<IUser>>, f: Filters)
    ensures users.None? ==> FilteredUsers(users, f) == []
    ensures users.Some? ==>
      && Seqs.IsSubseq(FilteredUsers(users, f), users.value)
      && forall u :: multiset(FilteredUsers(users, f))[u] == if Matches(u, f) then multiset(users.value)[u] else 0
  {
  }

  /** The role filter compares the role text exactly: "ADMIN" picks the
      administrators and "admin" picks nobody. */
  lemma RoleFilterIsExact(user: IUser, f: Filters)
    requires f.rol != ""
    ensures MatchRol(user, f) <==> user.rol.Some? && RoleName(user.rol.value) == f.rol
    ensures f.rol == "admin" ==> !MatchRol(user, f)
  {
  }

  /** With the initial filters every user passes, so the table shows the
      whole list. */
  lemma InitialFiltersShowAll(users: seq<IUser>)
    ensures FilteredUsers(Some(users), InitialFilters) == users
  {
    forall i | 0 <= i < |users| ensures Matches(users[i], InitialFilters) {
      Text.ContainsEmpty(Text.Lower(users[i].nombre));
      Text.ContainsEmpty(Text.Lower(users[i].email));
    }
    Seqs.FilterKeepsAll(users, MatchesFilters(InitialFilters));
  }
}
