/** RoleService: roles listed by name and unique by their trimmed name (compared
    case-sensitively). A delete removes only the role record itself. */
module RoleService {
  import opened Options
  import opened Text
  import opened Ordering
  import Table
  import opened Domain
  import opened Models

  const DuplicateMessage := "Role with the same name already exists!"
  const NotFoundMessage := "Role not found!"
  const CreatedMessage := "Role created successfully."
  const UpdatedMessage := "Role updated successfully."
  const DeletedMessage := "Role deleted successfully."

  /** The key no two roles may share, and the key of the overridden `Query`'s order. */
  function Name(g: Role): string {
    g.name
  }

  /** Some stored role, other than `except` if given, is named exactly `name`. */
  predicate NameTaken(s: Store, name: string, except: Option<int>) {
    exists k :: k in s.roles && Some(k) != except && s.roles[k].name == name
  }

  /** The duplicate test with row `id` excluded implies the plain one; the plain one implies
      it unless row `id` itself holds the name; and under unique keys, row `id`'s own
      name never counts as taken against it. */
  lemma NameTakenExceptSelf(s: Store, name: string, id: int)
    ensures NameTaken(s, name, Some(id)) ==> NameTaken(s, name, None)
    ensures NameTaken(s, name, None) && !(id in s.roles && s.roles[id].name == name) ==> NameTaken(s, name, Some(id))
    ensures Table.UniqueBy(s.roles, Name) && id in s.roles && s.roles[id].name == name ==> !NameTaken(s, name, Some(id))
  {
  }

  /** `List()`: every role once, ordered by name under `leq`. */
  function List(s: Store, leq: (string, string) -> bool): (r: seq<RoleResponse>)
    requires TotalPreorder(leq)
    ensures |r| == |s.roles|
    ensures forall i :: 0 <= i < |r| ==> r[i].id in s.roles && r[i].name == s.roles[r[i].id].name
    ensures forall id :: id in s.roles ==> exists i :: 0 <= i < |r| && r[i].id == id
    ensures forall i, j :: 0 <= i < j < |r| ==> leq(r[i].name, r[j].name)
  {
    OnKeyPreorder(Name, leq);
    var rows := Table.Ordered(s.roles, OnKey(Name, leq));
    var r := Responses(rows);
    ListFacts(s, leq, rows, r);
    r
  }

  function Responses(rows: seq<(int, Role)>): (r: seq<RoleResponse>)
    ensures |r| == |rows|
    ensures forall i :: 0 <= i < |r| ==> r[i] == RoleResponse(rows[i].0, rows[i].1.name)
  {
    seq(|rows|, i requires 0 <= i < |rows| => RoleResponse(rows[i].0, rows[i].1.name))
  }

  lemma ListFacts(s: Store, leq: (string, string) -> bool, rows: seq<(int, Role)>, r: seq<RoleResponse>)
    requires |r| == |rows|
    requires forall i :: 0 <= i < |rows| ==> rows[i].0 in s.roles && rows[i].1 == s.roles[rows[i].0]
    requires forall k :: k in s.roles ==> (k, s.roles[k]) in rows
    requires forall i, j :: 0 <= i < j < |rows| ==> OnKey(Name, leq)(rows[i].1, rows[j].1)
    requires forall i :: 0 <= i < |r| ==> r[i] == RoleResponse(rows[i].0, rows[i].1.name)
    ensures forall i :: 0 <= i < |r| ==> r[i].id in s.roles && r[i].name == s.roles[r[i].id].name
    ensures forall id :: id in s.roles ==> exists i :: 0 <= i < |r| && r[i].id == id
    ensures forall i, j :: 0 <= i < j < |r| ==> leq(r[i].name, r[j].name)
  {
    forall id | id in s.roles ensures exists i :: 0 <= i < |r| && r[i].id == id {
      var i :| 0 <= i < |rows| && rows[i] == (id, s.roles[id]);
      assert r[i].id == id;
    }
    forall i, j | 0 <= i < j < |r| ensures leq(r[i].name, r[j].name) {
      assert OnKey(Name, leq)(rows[i].1, rows[j].1);
      assert leq(Name(rows[i].1), Name(rows[j].1));
    }
  }

  /** `Item(id)`: the role's response, or absent when no role has that id. */
  function Item(s: Store, id: int): (r: Option<RoleResponse>)
    ensures r.Some? <==> id in s.roles
    ensures r.Some? ==> r.value == RoleResponse(id, s.roles[id].name)
  {
    if id in s.roles then Some(RoleResponse(id, s.roles[id].name)) else None
  }

  /** `Edit(id)`: the stored name as a request, or absent when no role has that id. */
  function Edit(s: Store, id: int): (r: Option<RoleRequest>)
    ensures r.Some? <==> id in s.roles
    ensures r.Some? ==> r.value == RoleRequest(id, s.roles[id].name)
  {
    if id in s.roles then Some(RoleRequest(id, s.roles[id].name)) else None
  }

  /** `Create(request)`: refused when a role already has the trimmed name; otherwise adds
      one role under a fresh id. */
  function Create(s: Store, req: RoleRequest): (t: Transition)
    ensures NameTaken(s, Trim(req.name), None) ==> t == Transition(s, Error(DuplicateMessage))
    ensures !NameTaken(s, Trim(req.name), None)
      ==> && t.result == Success(CreatedMessage, t.result.id)
          && t.result.id !in s.roles
          && t.store == s.(roles := s.roles[t.result.id := Role(Trim(req.name))])
  {
    var name := Trim(req.name);
    if NameTaken(s, name, None) then
      Transition(s, Error(DuplicateMessage))
    else
      var id := Table.FreshId(s.roles);
      Transition(s.(roles := s.roles[id := Role(name)]), Success(CreatedMessage, id))
  }

  /** `Update(request)`: the duplicate check, which skips the role being updated, comes
      before the existence check; on success only that role's name changes. */
  function Update(s: Store, req: RoleRequest): (t: Transition)
    ensures NameTaken(s, Trim(req.name), Some(req.id)) ==> t == Transition(s, Error(DuplicateMessage))
    ensures !NameTaken(s, Trim(req.name), Some(req.id)) && req.id !in s.roles
      ==> t == Transition(s, Error(NotFoundMessage))
    ensures !NameTaken(s, Trim(req.name), Some(req.id)) && req.id in s.roles
      ==> t == Transition(s.(roles := s.roles[req.id := Role(Trim(req.name))]), Success(UpdatedMessage, req.id))
  {
    var name := Trim(req.name);
    if NameTaken(s, name, Some(req.id)) then
      Transition(s, Error(DuplicateMessage))
    else if req.id !in s.roles then
      Transition(s, Error(NotFoundMessage))
    else
      Transition(s.(roles := s.roles[req.id := Role(name)]), Success(UpdatedMessage, req.id))
  }

  /** `Delete(id)`: refused for a missing role; otherwise removes exactly that role. */
  function Delete(s: Store, id: int): (t: Transition)
    ensures id !in s.roles ==> t == Transition(s, Error(NotFoundMessage))
    ensures id in s.roles ==> t == Transition(s.(roles := s.roles - {id}), Success(DeletedMessage, id))
  {
    if id !in s.roles then
      Transition(s, Error(NotFoundMessage))
    else
      Transition(s.(roles := s.roles - {id}), Success(DeletedMessage, id))
  }

  /** A create keeps role names distinct. */
  lemma CreateKeepsNamesUnique(s: Store, req: RoleRequest)
    requires Table.UniqueBy(s.roles, Name)
    ensures Table.UniqueBy(Create(s, req).store.roles, Name)
  {
    var t := Create(s, req);
    if t.result.isSuccessful {
      Table.InsertKeepsUnique(s.roles, Name, t.result.id, Role(Trim(req.name)));
    }
  }

  /** An update keeps role names distinct. */
  lemma UpdateKeepsNamesUnique(s: Store, req: RoleRequest)
    requires Table.UniqueBy(s.roles, Name)
    ensures Table.UniqueBy(Update(s, req).store.roles, Name)
  {
    var t := Update(s, req);
    if t.result.isSuccessful {
      Table.ReplaceKeepsUnique(s.roles, Name, req.id, Role(Trim(req.name)));
    }
  }

  /** Re-saving a role under its own (trimmed) name succeeds. */
  lemma UpdateKeepingNameSucceeds(s: Store, req: RoleRequest)
    requires Table.UniqueBy(s.roles, Name)
    requires req.id in s.roles && s.roles[req.id].name == Trim(req.name)
    ensures Update(s, req).result == Success(UpdatedMessage, req.id)
  {
    OwnNameNotTaken(s, req.id, Trim(req.name));
  }

  /** Under distinct names, a role's own name is not taken by anyone else. */
  lemma OwnNameNotTaken(s: Store, id: int, name: string)
    requires Table.UniqueBy(s.roles, Name)
    requires id in s.roles && s.roles[id].name == name
    ensures !NameTaken(s, name, Some(id))
  {
  }

  /** Reading back a created role gives its trimmed name. */
  lemma EditAfterCreate(s: Store, req: RoleRequest)
    ensures var t := Create(s, req);
      t.result.isSuccessful ==> Edit(t.store, t.result.id) == Some(RoleRequest(t.result.id, Trim(req.name)))
  {
  }

  /** A second request whose name differs from a created role's only by surrounding white
      space is refused as a duplicate. */
  lemma PaddedNameRefused(s: Store, req: RoleRequest, again: RoleRequest, front: string, back: string)
    requires AllWhiteSpace(front) && AllWhiteSpace(back)
    requires again.name == front + req.name + back
    requires Create(s, req).result.isSuccessful
    ensures var t := Create(s, req);
      Create(t.store, again) == Transition(t.store, Error(DuplicateMessage))
  {
    var t := Create(s, req);
    TrimIgnoresPadding(front, req.name, back);
    assert t.store.roles[t.result.id].name == Trim(again.name);
    assert NameTaken(t.store, Trim(again.name), None);
  }

  /** After a successful delete the role can no longer be read back. */
  lemma DeleteThenItemAbsent(s: Store, id: int)
    ensures Delete(s, id).result.isSuccessful <==> id in s.roles
    ensures Item(Delete(s, id).store, id).None?
  {
  }
}

