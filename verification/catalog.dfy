/** The six services side by side over one store: the commands each accepts, the store
    invariant they keep together, and the rule that a refused command changes nothing. */
module Catalog {
  import Table
  import opened Domain
  import opened Models
  import DirectorService
  import GenreService
  import GroupService
  import RoleService
  import MovieService
  import UserService

  /** The commands every service offers: create and update from a request, delete by id. */
  datatype Op<R> = Create(request: R) | Update(request: R) | Delete(id: int)

  /** A command addressed to one of the six services. */
  datatype Command =
    | DirectorCommand(directorOp: Op<DirectorRequest>)
    | GenreCommand(genreOp: Op<GenreRequest>)
    | GroupCommand(groupOp: Op<GroupRequest>)
    | RoleCommand(roleOp: Op<RoleRequest>)
    | MovieCommand(movieOp: Op<MovieRequest>)
    | UserCommand(userOp: Op<UserRequest>)

  /** Runs one command; `now` is the clock reading a user creation stamps. A refused
      command leaves the store as it was and reports no id. */
  function Apply(s: Store, cmd: Command, now: DateTime): (t: Transition)
    ensures !t.result.isSuccessful ==> t.store == s && t.result.id == 0
  {
    match cmd
    case DirectorCommand(op) => ApplyDirector(s, op)
    case GenreCommand(op) => ApplyGenre(s, op)
    case GroupCommand(op) => ApplyGroup(s, op)
    case RoleCommand(op) => ApplyRole(s, op)
    case MovieCommand(op) => ApplyMovie(s, op)
    case UserCommand(op) => ApplyUser(s, op, now)
  }

  function ApplyDirector(s: Store, op: Op<DirectorRequest>): (t: Transition)
    ensures !t.result.isSuccessful ==> t.store == s && t.result.id == 0
  {
    match op
    case Create(r) => DirectorService.Create(s, r)
    case Update(r) => DirectorService.Update(s, r)
    case Delete(id) => DirectorService.Delete(s, id)
  }

  function ApplyGenre(s: Store, op: Op<GenreRequest>): (t: Transition)
    ensures !t.result.isSuccessful ==> t.store == s && t.result.id == 0
  {
    match op
    case Create(r) => GenreService.Create(s, r)
    case Update(r) => GenreService.Update(s, r)
    case Delete(id) => GenreService.Delete(s, id)
  }

  function ApplyGroup(s: Store, op: Op<GroupRequest>): (t: Transition)
    ensures !t.result.isSuccessful ==> t.store == s && t.result.id == 0
  {
    match op
    case Create(r) => GroupService.Create(s, r)
    case Update(r) => GroupService.Update(s, r)
    case Delete(id) => GroupService.Delete(s, id)
  }

  function ApplyRole(s: Store, op: Op<RoleRequest>): (t: Transition)
    ensures !t.result.isSuccessful ==> t.store == s && t.result.id == 0
  {
    match op
    case Create(r) => RoleService.Create(s, r)
    case Update(r) => RoleService.Update(s, r)
    case Delete(id) => RoleService.Delete(s, id)
  }

  function ApplyMovie(s: Store, op: Op<MovieRequest>): (t: Transition)
    ensures !t.result.isSuccessful ==> t.store == s && t.result.id == 0
  {
    match op
    case Create(r) => MovieService.Create(s, r)
    case Update(r) => MovieService.Update(s, r)
    case Delete(id) => MovieService.Delete(s, id)
  }

  function ApplyUser(s: Store, op: Op<UserRequest>, now: DateTime): (t: Transition)
    ensures !t.result.isSuccessful ==> t.store == s && t.result.id == 0
  {
    match op
    case Create(r) => UserService.Create(s, r, now)
    case Update(r) => UserService.Update(s, r)
    case Delete(id) => UserService.Delete(s, id)
  }

  /** The store invariant: no two records of a table share their uniqueness key, and every
      join row belongs to a stored movie or user. */
  ghost predicate Consistent(s: Store) {
    && Table.UniqueBy(s.directors, DirectorService.NameKey)
    && Table.UniqueBy(s.genres, GenreService.Name)
    && Table.UniqueBy(s.groups, GroupService.Name)
    && Table.UniqueBy(s.roles, RoleService.Name)
    && Table.UniqueBy(s.movies, MovieService.Name)
    && Table.UniqueBy(s.users, UserService.UserName)
    && MovieService.LinksAttached(s)
    && UserService.RolesAttached(s)
  }

  /** Every command keeps the store invariant. */
  lemma ApplyKeepsConsistent(s: Store, cmd: Command, now: DateTime)
    requires Consistent(s)
    ensures Consistent(Apply(s, cmd, now).store)
  {
    match cmd
    case DirectorCommand(_) => DirectorCommandKeeps(s, cmd, now);
    case GenreCommand(_) => GenreCommandKeeps(s, cmd, now);
    case GroupCommand(_) => GroupCommandKeeps(s, cmd, now);
    case RoleCommand(_) => RoleCommandKeeps(s, cmd, now);
    case MovieCommand(_) => MovieCommandKeeps(s, cmd, now);
    case UserCommand(_) => UserCommandKeeps(s, cmd, now);
  }

  /** One command kind at a time: the invariant each service keeps, carried over to `Apply`. */
  lemma DirectorCommandKeeps(s: Store, cmd: Command, now: DateTime)
    requires Consistent(s) && cmd.DirectorCommand?
    ensures Consistent(Apply(s, cmd, now).store)
  {
    DirectorKeeps(s, cmd.directorOp);
  }

  lemma GenreCommandKeeps(s: Store, cmd: Command, now: DateTime)
    requires Consistent(s) && cmd.GenreCommand?
    ensures Consistent(Apply(s, cmd, now).store)
  {
    GenreKeeps(s, cmd.genreOp);
  }

  lemma GroupCommandKeeps(s: Store, cmd: Command, now: DateTime)
    requires Consistent(s) && cmd.GroupCommand?
    ensures Consistent(Apply(s, cmd, now).store)
  {
    GroupKeeps(s, cmd.groupOp);
  }

  lemma RoleCommandKeeps(s: Store, cmd: Command, now: DateTime)
    requires Consistent(s) && cmd.RoleCommand?
    ensures Consistent(Apply(s, cmd, now).store)
  {
    RoleKeeps(s, cmd.roleOp);
  }

  lemma MovieCommandKeeps(s: Store, cmd: Command, now: DateTime)
    requires Consistent(s) && cmd.MovieCommand?
    ensures Consistent(Apply(s, cmd, now).store)
  {
    MovieKeeps(s, cmd.movieOp);
  }

  lemma UserCommandKeeps(s: Store, cmd: Command, now: DateTime)
    requires Consistent(s) && cmd.UserCommand?
    ensures Consistent(Apply(s, cmd, now).store)
  {
    UserKeeps(s, cmd.userOp, now);
  }

  lemma DirectorKeeps(s: Store, op: Op<DirectorRequest>)
    requires Consistent(s)
    ensures Consistent(ApplyDirector(s, op).store)
  {
    match op
    case Create(r) =>
      DirectorService.CreateKeepsNamesUnique(s, r);
    case Update(r) =>
      DirectorService.UpdateKeepsNamesUnique(s, r);
    case Delete(id) =>
  }

  lemma GenreKeeps(s: Store, op: Op<GenreRequest>)
    requires Consistent(s)
    ensures Consistent(ApplyGenre(s, op).store)
  {
    match op
    case Create(r) =>
      GenreService.CreateKeepsNamesUnique(s, r);
    case Update(r) =>
      GenreService.UpdateKeepsNamesUnique(s, r);
    case Delete(id) =>
  }

  lemma GroupKeeps(s: Store, op: Op<GroupRequest>)
    requires Consistent(s)
    ensures Consistent(ApplyGroup(s, op).store)
  {
    match op
    case Create(r) =>
      GroupService.CreateKeepsNamesUnique(s, r);
    case Update(r) =>
      GroupService.UpdateKeepsNamesUnique(s, r);
    case Delete(id) =>
  }

  lemma RoleKeeps(s: Store, op: Op<RoleRequest>)
    requires Consistent(s)
    ensures Consistent(ApplyRole(s, op).store)
  {
    match op
    case Create(r) =>
      RoleService.CreateKeepsNamesUnique(s, r);
    case Update(r) =>
      RoleService.UpdateKeepsNamesUnique(s, r);
    case Delete(id) =>
  }

  lemma MovieKeeps(s: Store, op: Op<MovieRequest>)
    requires Consistent(s)
    ensures Consistent(ApplyMovie(s, op).store)
  {
    match op
    case Create(r) =>
      MovieService.CreateKeepsNamesUnique(s, r);
      MovieService.CreateKeepsLinksAttached(s, r);
    case Update(r) =>
      MovieService.UpdateKeepsNamesUnique(s, r);
      MovieService.UpdateKeepsLinksAttached(s, r);
    case Delete(id) =>
      MovieService.DeleteKeepsLinksAttached(s, id);
  }

  lemma UserKeeps(s: Store, op: Op<UserRequest>, now: DateTime)
    requires Consistent(s)
    ensures Consistent(ApplyUser(s, op, now).store)
  {
    match op
    case Create(r) =>
      UserService.CreateKeepsNamesUnique(s, r, now);
      UserService.CreateKeepsRolesAttached(s, r, now);
    case Update(r) =>
      UserService.UpdateKeepsNamesUnique(s, r);
      UserService.UpdateKeepsRolesAttached(s, r);
    case Delete(id) =>
      UserService.DeleteKeepsRolesAttached(s, id);
  }
}
