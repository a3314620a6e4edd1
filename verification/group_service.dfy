/** GroupService: groups listed by name, unique by their trimmed name (compared
    case-sensitively), carrying an optional trimmed description, and not deletable while a
    user belongs to them. */
module GroupService {
  import opened Options
  import opened Text
  import opened Ordering
  import Table
  import opened Domain
  import opened Models

  const DuplicateMessage := "Group with the same name already exists!"
  const NotFoundMessage := "Group not found!"
  const HasUsersMessage := "Group can't be deleted because it has relational users!"
  const CreatedMessage := "Group created successfully."
  const UpdatedMessage := "Group updated successfully."
  const DeletedMessage := "Group deleted successfully."

  /** The key no two groups may share, and the key of the overridden `Query`'s order. */
  function Name(g: Group): string {
    g.name
  }

  /** Some stored group, other than `except` if given, is named exactly `name`. */
  predicate NameTaken(s: Store, name: string, except: Option<int>) {
    exists k :: k in s.groups && Some(k) != except && s.groups[k].name == name
  }

  /** The duplicate test with row `id` excluded implies the plain one; the plain one implies
      it unless row `id` itself holds the name; and under unique keys, row `id`'s own
      name never counts as taken against it. */
  lemma NameTakenExceptSelf(s: Store, name: string, id: int)
    ensures NameTaken(s, name, Some(id)) ==> NameTaken(s, name, None)
    ensures NameTaken(s, name, None) && !(id in s.groups && s.groups[id].name == name) ==> NameTaken(s, name, Some(id))
    ensures Table.UniqueBy(s.groups, Name) && id in s.groups && s.groups[id].name == name ==> !NameTaken(s, name, Some(id))
  {
  }

  /** Some user refers to group `id` (the group's `Users` navigation is not empty). */
  predicate HasUsers(s: Store, id: int) {
    exists k :: k in s.users && s.users[k].groupId == Some(id)
  }

  /** The group's `Users` navigation: the users whose group reference is `id`. */
  function UsersOf(s: Store, id: int): (r: map<int, User>)
    ensures forall k :: k in r <==> k in s.users && s.users[k].groupId == Some(id)
    ensures forall k :: k in r ==> r[k] == s.users[k]
  {
    map k | k in s.users && s.users[k].groupId == Some(id) :: s.users[k]
  }

  /** `Users.Count > 0` holds exactly when some stored user refers to the group. */
  lemma UsersCountedIffHasUsers(s: Store, id: int)
    ensures |UsersOf(s, id)| > 0 <==> HasUsers(s, id)
  {
    var users := UsersOf(s, id);
    if HasUsers(s, id) {
      var k :| k in s.users && s.users[k].groupId == Some(id);
      assert k in users.Keys;
      assert |users.Keys| > 0;
    } else if |users| > 0 {
      assert |users.Keys| > 0;
      var k := Table.PickKey(users.Keys);
      assert false;
    }
  }

  /** The group a request describes: name and description trimmed, a missing description
      kept missing. */
  function FromRequest(req: GroupRequest): (g: Group)
    ensures TrimmedFrom(req.name, g.name)
    ensures g.description.None? <==> req.description.None?
    ensures req.description.Some? ==> TrimmedFrom(req.description.value, g.description.value)
  {
    Group(Trim(req.name), TrimOrNull(req.description))
  }

  /** `List()`: every group once, ordered by name under `leq`. */
  function List(s: Store, leq: (string, string) -> bool): (r: seq<GroupResponse>)
    requires TotalPreorder(leq)
    ensures |r| == |s.groups|
    ensures forall i :: 0 <= i < |r| ==>
      r[i].id in s.groups && r[i] == GroupResponse(r[i].id, s.groups[r[i].id].name, s.groups[r[i].id].description)
    ensures forall id :: id in s.groups ==> exists i :: 0 <= i < |r| && r[i].id == id
    ensures forall i, j :: 0 <= i < j < |r| ==> leq(r[i].name, r[j].name)
  {
    OnKeyPreorder(Name, leq);
    var rows := Table.Ordered(s.groups, OnKey(Name, leq));
    var r := Responses(rows);
    ListFacts(s, leq, rows, r);
    r
  }

  function Responses(rows: seq<(int, Group)>): (r: seq<GroupResponse>)
    ensures |r| == |rows|
    ensures forall i :: 0 <= i < |r| ==> r[i] == GroupResponse(rows[i].0, rows[i].1.name, rows[i].1.description)
  {
    seq(|rows|, i requires 0 <= i < |rows| => GroupResponse(rows[i].0, rows[i].1.name, rows[i].1.description))
  }

  lemma ListFacts(s: Store, leq: (string, string) -> bool, rows: seq<(int, Group)>, r: seq<GroupResponse>)
    requires |r| == |rows|
    requires forall i :: 0 <= i < |rows| ==> rows[i].0 in s.groups && rows[i].1 == s.groups[rows[i].0]
    requires forall k :: k in s.groups ==> (k, s.groups[k]) in rows
    requires forall i, j :: 0 <= i < j < |rows| ==> OnKey(Name, leq)(rows[i].1, rows[j].1)
    requires forall i :: 0 <= i < |r| ==> r[i] == GroupResponse(rows[i].0, rows[i].1.name, rows[i].1.description)
    ensures forall i :: 0 <= i < |r| ==>
      r[i].id in s.groups && r[i] == GroupResponse(r[i].id, s.groups[r[i].id].name, s.groups[r[i].id].description)
    ensures forall id :: id in s.groups ==> exists i :: 0 <= i < |r| && r[i].id == id
    ensures forall i, j :: 0 <= i < j < |r| ==> leq(r[i].name, r[j].name)
  {
    forall id | id in s.groups ensures exists i :: 0 <= i < |r| && r[i].id == id {
      var i :| 0 <= i < |rows| && rows[i] == (id, s.groups[id]);
      assert r[i].id == id;
    }
    forall i, j | 0 <= i < j < |r| ensures leq(r[i].name, r[j].name) {
      assert OnKey(Name, leq)(rows[i].1, rows[j].1);
      assert leq(Name(rows[i].1), Name(rows[j].1));
    }
  }

  /** `Item(id)`: the group's response, or absent when no group has that id. */
  function Item(s: Store, id: int): (r: Option<GroupResponse>)
    ensures r.Some? <==> id in s.groups
    ensures r.Some? ==> r.value == GroupResponse(id, s.groups[id].name, s.groups[id].description)
  {
    if id in s.groups then Some(GroupResponse(id, s.groups[id].name, s.groups[id].description)) else None
  }

  /** `Edit(id)`: the stored fields as a request, or absent when no group has that id. */
  function Edit(s: Store, id: int): (r: Option<GroupRequest>)
    ensures r.Some? <==> id in s.groups
    ensures r.Some? ==> r.value == GroupRequest(id, s.groups[id].name, s.groups[id].description)
  {
    if id in s.groups then Some(GroupRequest(id, s.groups[id].name, s.groups[id].description)) else None
  }

  /** `Create(request)`: refused when a group already has the trimmed name; otherwise adds
      one group under a fresh id. */
  function Create(s: Store, req: GroupRequest): (t: Transition)
    ensures NameTaken(s, Trim(req.name), None) ==> t == Transition(s, Error(DuplicateMessage))
    ensures !NameTaken(s, Trim(req.name), None)
      ==> && t.result == Success(CreatedMessage, t.result.id)
          && t.result.id !in s.groups
          && t.store == s.(groups := s.groups[t.result.id := FromRequest(req)])
  {
    if NameTaken(s, Trim(req.name), None) then
      Transition(s, Error(DuplicateMessage))
    else
      var id := Table.FreshId(s.groups);
      Transition(s.(groups := s.groups[id := FromRequest(req)]), Success(CreatedMessage, id))
  }

  /** `Update(request)`: the duplicate check, which skips the group being updated, comes
      before the existence check; on success only that group's name and description change. */
  function Update(s: Store, req: GroupRequest): (t: Transition)
    ensures NameTaken(s, Trim(req.name), Some(req.id)) ==> t == Transition(s, Error(DuplicateMessage))
    ensures !NameTaken(s, Trim(req.name), Some(req.id)) && req.id !in s.groups
      ==> t == Transition(s, Error(NotFoundMessage))
    ensures !NameTaken(s, Trim(req.name), Some(req.id)) && req.id in s.groups
      ==> t == Transition(s.(groups := s.groups[req.id := FromRequest(req)]), Success(UpdatedMessage, req.id))
  {
    if NameTaken(s, Trim(req.name), Some(req.id)) then
      Transition(s, Error(DuplicateMessage))
    else if req.id !in s.groups then
      Transition(s, Error(NotFoundMessage))
    else
      Transition(s.(groups := s.groups[req.id := FromRequest(req)]), Success(UpdatedMessage, req.id))
  }

  /** `Delete(id)`: refused for a missing group and for one that still has users; otherwise
      removes exactly that group. */
  function Delete(s: Store, id: int): (t: Transition)
    ensures id !in s.groups ==> t == Transition(s, Error(NotFoundMessage))
    ensures id in s.groups && HasUsers(s, id) ==> t == Transition(s, Error(HasUsersMessage))
    ensures id in s.groups && !HasUsers(s, id)
      ==> t == Transition(s.(groups := s.groups - {id}), Success(DeletedMessage, id))
  {
    if id !in s.groups then
      Transition(s, Error(NotFoundMessage))
    else if HasUsers(s, id) then
      Transition(s, Error(HasUsersMessage))
    else
      Transition(s.(groups := s.groups - {id}), Success(DeletedMessage, id))
  }

  /** A create keeps group names distinct. */
  lemma CreateKeepsNamesUnique(s: Store, req: GroupRequest)
    requires Table.UniqueBy(s.groups, Name)
    ensures Table.UniqueBy(Create(s, req).store.groups, Name)
  {
    var t := Create(s, req);
    if t.result.isSuccessful {
      Table.InsertKeepsUnique(s.groups, Name, t.result.id, FromRequest(req));
    }
  }

  /** An update keeps group names distinct. */
  lemma UpdateKeepsNamesUnique(s: Store, req: GroupRequest)
    requires Table.UniqueBy(s.groups, Name)
    ensures Table.UniqueBy(Update(s, req).store.groups, Name)
  {
    var t := Update(s, req);
    if t.result.isSuccessful {
      Table.ReplaceKeepsUnique(s.groups, Name, req.id, FromRequest(req));
    }
  }

  /** Re-saving a group under its own (trimmed) name succeeds. */
  lemma UpdateKeepingNameSucceeds(s: Store, req: GroupRequest)
    requires Table.UniqueBy(s.groups, Name)
    requires req.id in s.groups && s.groups[req.id].name == Trim(req.name)
    ensures Update(s, req).result == Success(UpdatedMessage, req.id)
  {
    OwnNameNotTaken(s, req.id, Trim(req.name));
  }

  /** Under distinct names, a group's own name is not taken by anyone else. */
  lemma OwnNameNotTaken(s: Store, id: int, name: string)
    requires Table.UniqueBy(s.groups, Name)
    requires id in s.groups && s.groups[id].name == name
    ensures !NameTaken(s, name, Some(id))
  {
  }

  /** Reading back a created group gives its trimmed name and trimmed (or missing)
      description; editing it unchanged is then a fixed point. */
  lemma EditAfterCreate(s: Store, req: GroupRequest)
    ensures var t := Create(s, req);
      t.result.isSuccessful ==>
        && Edit(t.store, t.result.id) == Some(GroupRequest(t.result.id, Trim(req.name), TrimOrNull(req.description)))
        && FromRequest(Edit(t.store, t.result.id).value) == t.store.groups[t.result.id]
  {
    var t := Create(s, req);
    if t.result.isSuccessful {
      RequestFixed(req);
      assert t.store.groups[t.result.id] == FromRequest(req);
    }
  }

  /** Turning a group back into a request and that request into a group again changes
      nothing, because trimming is idempotent. */
  lemma RequestFixed(req: GroupRequest)
    ensures var g := FromRequest(req);
      FromRequest(GroupRequest(req.id, g.name, g.description)) == g
  {
    TrimIdempotent(req.name);
    if req.description.Some? {
      TrimIdempotent(req.description.value);
    }
  }

  /** A second request whose name differs from a created group's only by surrounding white
      space is refused as a duplicate. */
  lemma PaddedNameRefused(s: Store, req: GroupRequest, again: GroupRequest, front: string, back: string)
    requires AllWhiteSpace(front) && AllWhiteSpace(back)
    requires again.name == front + req.name + back
    requires Create(s, req).result.isSuccessful
    ensures var t := Create(s, req);
      Create(t.store, again) == Transition(t.store, Error(DuplicateMessage))
  {
    var t := Create(s, req);
    TrimIgnoresPadding(front, req.name, back);
    assert t.store.groups[t.result.id].name == Trim(again.name);
    assert NameTaken(t.store, Trim(again.name), None);
  }

  /** A group is deleted exactly when it exists and no user belongs to it; afterwards no
      user refers to the removed group. */
  lemma DeleteLeavesNoMembers(s: Store, id: int)
    ensures Delete(s, id).result.isSuccessful <==> id in s.groups && !HasUsers(s, id)
    ensures Delete(s, id).result.isSuccessful ==>
      forall k :: k in Delete(s, id).store.users ==> Delete(s, id).store.users[k].groupId != Some(id)
  {
  }

  /** The detail view and the list view agree: `Item(id)` shows `x` exactly when `x` is
      the row of the listing whose id is `id`. */
  lemma ItemInList(s: Store, leq: (string, string) -> bool, id: int, x: GroupResponse)
    requires TotalPreorder(leq)
    ensures Item(s, id) == Some(x) <==> x in List(s, leq) && x.id == id
  {
    ListedIffItem(s, List(s, leq), id, x);
  }

  lemma ListedIffItem(s: Store, r: seq<GroupResponse>, id: int, x: GroupResponse)
    requires forall i :: 0 <= i < |r| ==>
      r[i].id in s.groups && r[i] == GroupResponse(r[i].id, s.groups[r[i].id].name, s.groups[r[i].id].description)
    requires forall id :: id in s.groups ==> exists i :: 0 <= i < |r| && r[i].id == id
    ensures Item(s, id) == Some(x) <==> x in r && x.id == id
  {
    ListedAsShown(s, r);
    ItemShown(s, id);
    Table.ListedIffViewed(s.groups, r, ResponseId, Shown, id, x);
  }

  lemma ItemShown(s: Store, id: int)
    ensures Item(s, id) == if id in s.groups then Some(Shown(id, s.groups[id])) else None
  {
  }

  function ResponseId(x: GroupResponse): int {
    x.id
  }

  /** A stored group as the listing and the detail view show it. */
  function Shown(id: int, g: Group): GroupResponse {
    GroupResponse(id, g.name, g.description)
  }

  /** The listing's own contract, restated through `ResponseId` and `Shown`. */
  lemma ListedAsShown(s: Store, r: seq<GroupResponse>)
    requires forall i :: 0 <= i < |r| ==>
      r[i].id in s.groups && r[i] == GroupResponse(r[i].id, s.groups[r[i].id].name, s.groups[r[i].id].description)
    requires forall id :: id in s.groups ==> exists i :: 0 <= i < |r| && r[i].id == id
    ensures forall i :: 0 <= i < |r| ==>
      ResponseId(r[i]) in s.groups && r[i] == Shown(ResponseId(r[i]), s.groups[ResponseId(r[i])])
    ensures forall k :: k in s.groups ==> exists i :: 0 <= i < |r| && ResponseId(r[i]) == k
  {
    forall k | k in s.groups ensures exists i :: 0 <= i < |r| && ResponseId(r[i]) == k {
      var i :| 0 <= i < |r| && r[i].id == k;
      assert ResponseId(r[i]) == k;
    }
  }

  /** After a successful delete the group can no longer be read back. */
  lemma DeleteThenItemAbsent(s: Store, id: int)
    ensures Delete(s, id).result.isSuccessful ==> Item(Delete(s, id).store, id).None?
    ensures !Delete(s, id).result.isSuccessful ==> Item(Delete(s, id).store, id) == Item(s, id)
  {
  }
}
