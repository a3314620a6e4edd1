/** UserService: users unique by their trimmed user name (compared case-sensitively), stamped
    with a registration time on creation, keeping their password when an update leaves it
    blank, and removed together with their UserRole join rows. */
module UserService {
  import opened Options
  import opened Text
  import opened Seqs
  import Table
  import opened Domain
  import opened Models

  const DuplicateMessage := "User with the same username already exists!"
  const NotFoundMessage := "User not found!"
  const CreatedMessage := "User created successfully."
  const UpdatedMessage := "User updated successfully."
  const DeletedMessage := "User deleted successfully."

  /** The key no two users may share. */
  function UserName(u: User): string {
    u.userName
  }

  /** Some stored user, other than `except` if given, has exactly this user name. */
  predicate NameTaken(s: Store, userName: string, except: Option<int>) {
    exists k :: k in s.users && Some(k) != except && s.users[k].userName == userName
  }

  /** The duplicate test with row `id` excluded implies the plain one; the plain one implies
      it unless row `id` itself holds the user name; and under unique keys, row `id`'s own
      user name never counts as taken against it. */
  lemma NameTakenExceptSelf(s: Store, userName: string, id: int)
    ensures NameTaken(s, userName, Some(id)) ==> NameTaken(s, userName, None)
    ensures NameTaken(s, userName, None) && !(id in s.users && s.users[id].userName == userName) ==> NameTaken(s, userName, Some(id))
    ensures Table.UniqueBy(s.users, UserName) && id in s.users && s.users[id].userName == userName ==> !NameTaken(s, userName, Some(id))
  {
  }

  /** The user a create request describes, registered at `now`: user name, first name,
      last name and address trimmed (missing ones kept missing), the password as sent. */
  function FromRequest(req: UserRequest, now: DateTime): (u: User)
    ensures TrimmedFrom(req.userName, u.userName)
    ensures u.password == req.password
    ensures u.firstName == TrimOrNull(req.firstName) && u.lastName == TrimOrNull(req.lastName)
    ensures u.address == TrimOrNull(req.address)
    ensures u.gender == req.gender && u.birthDate == req.birthDate && u.score == req.score
    ensures u.isActive == req.isActive
    ensures u.countryId == req.countryId && u.cityId == req.cityId && u.groupId == req.groupId
    ensures u.registrationDate == now
  {
    User(
      Trim(req.userName), req.password, TrimOrNull(req.firstName), TrimOrNull(req.lastName),
      req.gender, req.birthDate, now, req.score, req.isActive, TrimOrNull(req.address),
      req.countryId, req.cityId, req.groupId)
  }

  /** Stored user `u` after an update with `req`: a blank (missing or all white space)
      password keeps the stored one, and the registration date is never touched. */
  function Updated(u: User, req: UserRequest): (v: User)
    ensures TrimmedFrom(req.userName, v.userName)
    ensures IsNullOrWhiteSpace(req.password) ==> v.password == u.password
    ensures !IsNullOrWhiteSpace(req.password) ==> v.password == req.password
    ensures v.registrationDate == u.registrationDate
    ensures v == FromRequest(req, u.registrationDate).(password := v.password)
  {
    u.(
      userName := Trim(req.userName),
      password := if IsNullOrWhiteSpace(req.password) then u.password else req.password,
      firstName := TrimOrNull(req.firstName),
      lastName := TrimOrNull(req.lastName),
      gender := req.gender,
      birthDate := req.birthDate,
      score := req.score,
      isActive := req.isActive,
      address := TrimOrNull(req.address),
      countryId := req.countryId,
      cityId := req.cityId,
      groupId := req.groupId)
  }

  /** The name of the user's stored group, or "" when the user has none. */
  function GroupName(s: Store, u: User): (r: string)
    ensures u.groupId.Some? && u.groupId.value in s.groups ==> r == s.groups[u.groupId.value].name
    ensures !(u.groupId.Some? && u.groupId.value in s.groups) ==> r == ""
  {
    if u.groupId.Some? && u.groupId.value in s.groups then s.groups[u.groupId.value].name else ""
  }

  /** A stored user as `List` and `Item` show it; the password is never part of it. */
  function ToResponse(s: Store, id: int, u: User): (r: UserResponse)
    ensures r.id == id && r.userName == u.userName
    ensures r.firstName == u.firstName && r.lastName == u.lastName
    ensures r.gender == u.gender && r.birthDate == u.birthDate
    ensures r.registrationDate == u.registrationDate
    ensures r.score == u.score && r.isActive == u.isActive && r.address == u.address
    ensures r.groupName == GroupName(s, u)
  {
    UserResponse(
      id, u.userName, u.firstName, u.lastName, u.gender, u.birthDate,
      u.registrationDate, u.score, u.isActive, u.address, GroupName(s, u))
  }

  /** `List()`: every user once, in ascending id (the query has no ordering of its own). */
  function List(s: Store): (r: seq<UserResponse>)
    ensures |r| == |s.users|
    ensures forall i :: 0 <= i < |r| ==> r[i].id in s.users && r[i] == ToResponse(s, r[i].id, s.users[r[i].id])
    ensures forall i, j :: 0 <= i < j < |r| ==> r[i].id < r[j].id
    ensures forall id :: id in s.users ==> exists i :: 0 <= i < |r| && r[i].id == id
  {
    var keys := Table.SortedKeys(s.users.Keys);
    var r := Responses(s, keys);
    ListFacts(s, keys, r);
    r
  }

  function Responses(s: Store, keys: seq<int>): (r: seq<UserResponse>)
    requires forall i :: 0 <= i < |keys| ==> keys[i] in s.users
    ensures |r| == |keys|
    ensures forall i :: 0 <= i < |r| ==> r[i] == ToResponse(s, keys[i], s.users[keys[i]])
  {
    seq(|keys|, i requires 0 <= i < |keys| => ToResponse(s, keys[i], s.users[keys[i]]))
  }

  lemma ListFacts(s: Store, keys: seq<int>, r: seq<UserResponse>)
    requires |r| == |keys| == |s.users|
    requires forall i, j :: 0 <= i < j < |keys| ==> keys[i] < keys[j]
    requires forall k :: k in keys <==> k in s.users
    requires forall i :: 0 <= i < |r| ==> keys[i] in s.users && r[i] == ToResponse(s, keys[i], s.users[keys[i]])
    ensures forall i :: 0 <= i < |r| ==> r[i].id in s.users && r[i] == ToResponse(s, r[i].id, s.users[r[i].id])
    ensures forall i, j :: 0 <= i < j < |r| ==> r[i].id < r[j].id
    ensures forall id :: id in s.users ==> exists i :: 0 <= i < |r| && r[i].id == id
  {
    forall i | 0 <= i < |r| ensures r[i].id in s.users && r[i] == ToResponse(s, r[i].id, s.users[r[i].id]) {
      assert r[i].id == keys[i];
    }
    forall i, j | 0 <= i < j < |r| ensures r[i].id < r[j].id {
      assert r[i].id == keys[i] && r[j].id == keys[j];
    }
    forall id | id in s.users ensures exists i :: 0 <= i < |r| && r[i].id == id {
      var i :| 0 <= i < |keys| && keys[i] == id;
      assert r[i].id == id;
    }
  }

  /** `Item(id)`: the user's response, or absent when no user has that id. */
  function Item(s: Store, id: int): (r: Option<UserResponse>)
    ensures r.Some? <==> id in s.users
    ensures r.Some? ==> r.value == ToResponse(s, id, s.users[id])
  {
    if id in s.users then Some(ToResponse(s, id, s.users[id])) else None
  }

  /** A stored user as the edit form shows it: every editable field, and no password. */
  function AsRequest(id: int, u: User): (r: UserRequest)
    ensures r.id == id && r.userName == u.userName && r.password.None?
    ensures r.firstName == u.firstName && r.lastName == u.lastName && r.address == u.address
    ensures r.gender == u.gender && r.birthDate == u.birthDate && r.score == u.score
    ensures r.isActive == u.isActive
    ensures r.countryId == u.countryId && r.cityId == u.cityId && r.groupId == u.groupId
  {
    UserRequest(id, u.userName, None, u.firstName, u.lastName, u.gender, u.birthDate,
                u.score, u.isActive, u.address, u.countryId, u.cityId, u.groupId)
  }

  /** `Edit(id)`: the stored fields as a request, or absent when no user has that id. The
      request never carries the stored password. */
  function Edit(s: Store, id: int): (r: Option<UserRequest>)
    ensures r.Some? <==> id in s.users
    ensures r.Some? ==> r.value.password.None? && r.value == AsRequest(id, s.users[id])
  {
    if id in s.users then Some(AsRequest(id, s.users[id])) else None
  }

  /** `Create(request)` at time `now`: refused when a user already has the trimmed user
      name; otherwise adds one user under a fresh id, registered at `now`. */
  function Create(s: Store, req: UserRequest, now: DateTime): (t: Transition)
    ensures NameTaken(s, Trim(req.userName), None) ==> t == Transition(s, Error(DuplicateMessage))
    ensures !NameTaken(s, Trim(req.userName), None) ==>
      && t.result == Success(CreatedMessage, t.result.id)
      && t.result.id !in s.users
      && t.store == s.(users := s.users[t.result.id := FromRequest(req, now)])
  {
    if NameTaken(s, Trim(req.userName), None) then
      Transition(s, Error(DuplicateMessage))
    else
      var id := Table.FreshId(s.users);
      Transition(s.(users := s.users[id := FromRequest(req, now)]), Success(CreatedMessage, id))
  }

  /** `Update(request)`: the duplicate check, which skips the user being updated, comes
      before the existence check; on success only that user changes, as `Updated` says. */
  function Update(s: Store, req: UserRequest): (t: Transition)
    ensures NameTaken(s, Trim(req.userName), Some(req.id)) ==> t == Transition(s, Error(DuplicateMessage))
    ensures !NameTaken(s, Trim(req.userName), Some(req.id)) && req.id !in s.users
      ==> t == Transition(s, Error(NotFoundMessage))
    ensures !NameTaken(s, Trim(req.userName), Some(req.id)) && req.id in s.users
      ==> t == Transition(s.(users := s.users[req.id := Updated(s.users[req.id], req)]), Success(UpdatedMessage, req.id))
  {
    if NameTaken(s, Trim(req.userName), Some(req.id)) then
      Transition(s, Error(DuplicateMessage))
    else if req.id !in s.users then
      Transition(s, Error(NotFoundMessage))
    else
      Transition(s.(users := s.users[req.id := Updated(s.users[req.id], req)]), Success(UpdatedMessage, req.id))
  }

  /** Rows that survive deleting user `id`. */
  function OtherUser(id: int): UserRole -> bool {
    (row: UserRole) => row.userId != id
  }

  /** `Delete(id)`: refused, with nothing removed, for a missing user; otherwise removes the
      user and every UserRole row of it, and no other row. */
  function Delete(s: Store, id: int): (t: Transition)
    ensures id !in s.users ==> t == Transition(s, Error(NotFoundMessage))
    ensures id in s.users ==>
      && t.result == Success(DeletedMessage, id)
      && t.store == s.(users := s.users - {id}, userRoles := t.store.userRoles)
      && forall row: UserRole :: multiset(t.store.userRoles)[row] == (if row.userId == id then 0 else multiset(s.userRoles)[row])
  {
    if id !in s.users then
      Transition(s, Error(NotFoundMessage))
    else
      Transition(s.(users := s.users - {id}, userRoles := Filter(s.userRoles, OtherUser(id))), Success(DeletedMessage, id))
  }

  /** A create keeps user names distinct. */
  lemma CreateKeepsNamesUnique(s: Store, req: UserRequest, now: DateTime)
    requires Table.UniqueBy(s.users, UserName)
    ensures Table.UniqueBy(Create(s, req, now).store.users, UserName)
  {
    var t := Create(s, req, now);
    if t.result.isSuccessful {
      Table.InsertKeepsUnique(s.users, UserName, t.result.id, FromRequest(req, now));
    }
  }

  /** An update keeps user names distinct. */
  lemma UpdateKeepsNamesUnique(s: Store, req: UserRequest)
    requires Table.UniqueBy(s.users, UserName)
    ensures Table.UniqueBy(Update(s, req).store.users, UserName)
  {
    var t := Update(s, req);
    if t.result.isSuccessful {
      Table.ReplaceKeepsUnique(s.users, UserName, req.id, Updated(s.users[req.id], req));
    }
  }

  /** Reading back a created user gives the trimmed fields and no password; saving that
      read-back unchanged keeps the stored password and changes nothing else. */
  lemma EditAfterCreate(s: Store, req: UserRequest, now: DateTime)
    ensures var t := Create(s, req, now);
      t.result.isSuccessful ==>
        && Edit(t.store, t.result.id) == Some(AsRequest(t.result.id, FromRequest(req, now)))
        && Updated(FromRequest(req, now), AsRequest(t.result.id, FromRequest(req, now))) == FromRequest(req, now)
  {
    ReadBackFixed(Create(s, req, now).result.id, req, now);
  }

  /** Saving the edit form of a freshly created user changes nothing: the trimmed fields
      trim to themselves and the missing password keeps the stored one. */
  lemma ReadBackFixed(id: int, req: UserRequest, now: DateTime)
    ensures var u := FromRequest(req, now);
      && AsRequest(id, u).userName == Trim(req.userName)
      && AsRequest(id, u).address == TrimOrNull(req.address)
      && Updated(u, AsRequest(id, u)) == u
  {
    TrimIdempotent(req.userName);
    if req.firstName.Some? { TrimIdempotent(req.firstName.value); }
    if req.lastName.Some? { TrimIdempotent(req.lastName.value); }
    if req.address.Some? { TrimIdempotent(req.address.value); }
  }

  /** A password made only of white space counts as blank: the stored one is kept. */
  lemma WhiteSpacePasswordKept(u: User, req: UserRequest)
    requires req.password.Some?
    ensures Trim(req.password.value) == "" ==> Updated(u, req).password == u.password
  {
    BlankIffTrimsToEmpty(req.password.value);
  }

  /** Applying the same successful update twice changes nothing the second time. */
  lemma UpdateIdempotent(s: Store, req: UserRequest)
    ensures var t := Update(s, req);
      t.result.isSuccessful ==> Update(t.store, req) == Transition(t.store, Success(UpdatedMessage, req.id))
  {
    var t := Update(s, req);
    if t.result.isSuccessful {
      SecondUpdate(s, t.store, req);
    }
  }

  lemma SecondUpdate(s: Store, s2: Store, req: UserRequest)
    requires !NameTaken(s, Trim(req.userName), Some(req.id)) && req.id in s.users
    requires s2 == s.(users := s.users[req.id := Updated(s.users[req.id], req)])
    ensures Update(s2, req) == Transition(s2, Success(UpdatedMessage, req.id))
  {
    var u := Updated(s.users[req.id], req);
    UpdatedTwice(s.users[req.id], req);
    NameStillFree(s.users, s2.users, req.id, Trim(req.userName));
    assert !NameTaken(s2, Trim(req.userName), Some(req.id));
    Table.SameValue(s2.users, req.id, u);
  }

  /** Updating a user twice with the same request gives the once-updated user. */
  lemma UpdatedTwice(u: User, req: UserRequest)
    ensures Updated(Updated(u, req), req) == Updated(u, req)
  {
  }

  /** Changing only user `id` cannot make a user name taken by a user other than `id`. */
  lemma NameStillFree(before: map<int, User>, after: map<int, User>, id: int, name: string)
    requires forall k :: k != id ==> (k in after <==> k in before)
    requires forall k :: k != id && k in after ==> after[k] == before[k]
    requires forall k :: k in before && k != id ==> before[k].userName != name
    ensures forall k :: k in after && k != id ==> after[k].userName != name
  {
  }

  /** Every UserRole row belongs to a stored user (the foreign key of UserRole.UserId). */
  ghost predicate RolesAttached(s: Store) {
    forall i :: 0 <= i < |s.userRoles| ==> s.userRoles[i].userId in s.users
  }

  /** Create, Update and Delete never leave a UserRole row pointing at a missing user. */
  lemma CreateKeepsRolesAttached(s: Store, req: UserRequest, now: DateTime)
    requires RolesAttached(s)
    ensures RolesAttached(Create(s, req, now).store)
  {
  }

  lemma UpdateKeepsRolesAttached(s: Store, req: UserRequest)
    requires RolesAttached(s)
    ensures RolesAttached(Update(s, req).store)
  {
  }

  lemma DeleteKeepsRolesAttached(s: Store, id: int)
    requires RolesAttached(s)
    ensures RolesAttached(Delete(s, id).store)
  {
    var t := Delete(s, id);
    if t.result.isSuccessful {
      RolesStayAttachedAfterRemoval(s.userRoles, t.store.userRoles, s.users, id);
    }
  }

  lemma RolesStayAttachedAfterRemoval(before: seq<UserRole>, after: seq<UserRole>, users: map<int, User>, id: int)
    requires forall i :: 0 <= i < |before| ==> before[i].userId in users
    requires forall row: UserRole :: multiset(after)[row] == (if row.userId == id then 0 else multiset(before)[row])
    ensures forall i :: 0 <= i < |after| ==> after[i].userId in users - {id}
  {
    forall i | 0 <= i < |after| ensures after[i].userId in users - {id} {
      var row := after[i];
      assert multiset(after)[row] > 0;
      assert row in before;
      var k :| 0 <= k < |before| && before[k] == row;
    }
  }

  /** The detail view and the list view agree: `Item(id)` shows `x` exactly when `x` is
      the row of the listing whose id is `id`. */
  lemma ItemInList(s: Store, id: int, x: UserResponse)
    ensures Item(s, id) == Some(x) <==> x in List(s) && x.id == id
  {
    var r := List(s);
    ListedAsShown(s, r);
    ItemShown(s, id);
    Table.ListedIffViewed(s.users, r, ResponseId, Shown(s), id, x);
  }

  function ResponseId(x: UserResponse): int {
    x.id
  }

  /** A stored user as the listing shows it, as a function of its id and record. */
  function Shown(s: Store): (int, User) -> UserResponse {
    (k: int, u: User) => ToResponse(s, k, u)
  }

  /** The listing's own contract, restated through `ResponseId` and `Shown`. */
  lemma ListedAsShown(s: Store, r: seq<UserResponse>)
    requires forall i :: 0 <= i < |r| ==> r[i].id in s.users && r[i] == ToResponse(s, r[i].id, s.users[r[i].id])
    requires forall id :: id in s.users ==> exists i :: 0 <= i < |r| && r[i].id == id
    ensures forall i :: 0 <= i < |r| ==>
      ResponseId(r[i]) in s.users && r[i] == Shown(s)(ResponseId(r[i]), s.users[ResponseId(r[i])])
    ensures forall k :: k in s.users ==> exists i :: 0 <= i < |r| && ResponseId(r[i]) == k
  {
    forall k | k in s.users ensures exists i :: 0 <= i < |r| && ResponseId(r[i]) == k {
      var i :| 0 <= i < |r| && r[i].id == k;
      assert ResponseId(r[i]) == k;
    }
  }

  lemma ItemShown(s: Store, id: int)
    ensures Item(s, id) == if id in s.users then Some(Shown(s)(id, s.users[id])) else None
  {
  }

  /** A delete succeeds exactly when the id is stored, and afterwards it cannot be read
      back. */
  lemma DeleteThenItemAbsent(s: Store, id: int)
    ensures Delete(s, id).result.isSuccessful <==> id in s.users
    ensures Item(Delete(s, id).store, id).None?
  {
  }
}
