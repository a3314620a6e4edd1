/** GenreService: genres listed by name and unique by their trimmed name (compared
    case-sensitively). A delete removes only the genre record itself. */
module GenreService {
  import opened Options
  import opened Text
  import opened Ordering
  import Table
  import opened Domain
  import opened Models

  const DuplicateMessage := "Genre with the same name already exists!"
  const NotFoundMessage := "Genre not found!"
  const CreatedMessage := "Genre created successfully."
  const UpdatedMessage := "Genre updated successfully."
  const DeletedMessage := "Genre deleted successfully."

  /** The key no two genres may share, and the key of the overridden `Query`'s order. */
  function Name(g: Genre): string {
    g.name
  }

  /** Some stored genre, other than `except` if given, is named exactly `name`. */
  predicate NameTaken(s: Store, name: string, except: Option<int>) {
    exists k :: k in s.genres && Some(k) != except && s.genres[k].name == name
  }

  /** The duplicate test with row `id` excluded implies the plain one; the plain one implies
      it unless row `id` itself holds the name; and under unique keys, row `id`'s own
      name never counts as taken against it. */
  lemma NameTakenExceptSelf(s: Store, name: string, id: int)
    ensures NameTaken(s, name, Some(id)) ==> NameTaken(s, name, None)
    ensures NameTaken(s, name, None) && !(id in s.genres && s.genres[id].name == name) ==> NameTaken(s, name, Some(id))
    ensures Table.UniqueBy(s.genres, Name) && id in s.genres && s.genres[id].name == name ==> !NameTaken(s, name, Some(id))
  {
  }

  /** `List()`: every genre once, ordered by name under `leq`. */
  function List(s: Store, leq: (string, string) -> bool): (r: seq<GenreResponse>)
    requires TotalPreorder(leq)
    ensures |r| == |s.genres|
    ensures forall i :: 0 <= i < |r| ==> r[i].id in s.genres && r[i].name == s.genres[r[i].id].name
    ensures forall id :: id in s.genres ==> exists i :: 0 <= i < |r| && r[i].id == id
    ensures forall i, j :: 0 <= i < j < |r| ==> leq(r[i].name, r[j].name)
  {
    OnKeyPreorder(Name, leq);
    var rows := Table.Ordered(s.genres, OnKey(Name, leq));
    var r := Responses(rows);
    ListFacts(s, leq, rows, r);
    r
  }

  function Responses(rows: seq<(int, Genre)>): (r: seq<GenreResponse>)
    ensures |r| == |rows|
    ensures forall i :: 0 <= i < |r| ==> r[i] == GenreResponse(rows[i].0, rows[i].1.name)
  {
    seq(|rows|, i requires 0 <= i < |rows| => GenreResponse(rows[i].0, rows[i].1.name))
  }

  lemma ListFacts(s: Store, leq: (string, string) -> bool, rows: seq<(int, Genre)>, r: seq<GenreResponse>)
    requires |r| == |rows|
    requires forall i :: 0 <= i < |rows| ==> rows[i].0 in s.genres && rows[i].1 == s.genres[rows[i].0]
    requires forall k :: k in s.genres ==> (k, s.genres[k]) in rows
    requires forall i, j :: 0 <= i < j < |rows| ==> OnKey(Name, leq)(rows[i].1, rows[j].1)
    requires forall i :: 0 <= i < |r| ==> r[i] == GenreResponse(rows[i].0, rows[i].1.name)
    ensures forall i :: 0 <= i < |r| ==> r[i].id in s.genres && r[i].name == s.genres[r[i].id].name
    ensures forall id :: id in s.genres ==> exists i :: 0 <= i < |r| && r[i].id == id
    ensures forall i, j :: 0 <= i < j < |r| ==> leq(r[i].name, r[j].name)
  {
    forall id | id in s.genres ensures exists i :: 0 <= i < |r| && r[i].id == id {
      var i :| 0 <= i < |rows| && rows[i] == (id, s.genres[id]);
      assert r[i].id == id;
    }
    forall i, j | 0 <= i < j < |r| ensures leq(r[i].name, r[j].name) {
      assert OnKey(Name, leq)(rows[i].1, rows[j].1);
      assert leq(Name(rows[i].1), Name(rows[j].1));
    }
  }

  /** `Item(id)`: the genre's response, or absent when no genre has that id. */
  function Item(s: Store, id: int): (r: Option<GenreResponse>)
    ensures r.Some? <==> id in s.genres
    ensures r.Some? ==> r.value == GenreResponse(id, s.genres[id].name)
  {
    if id in s.genres then Some(GenreResponse(id, s.genres[id].name)) else None
  }

  /** `Edit(id)`: the stored name as a request, or absent when no genre has that id. */
  function Edit(s: Store, id: int): (r: Option<GenreRequest>)
    ensures r.Some? <==> id in s.genres
    ensures r.Some? ==> r.value == GenreRequest(id, s.genres[id].name)
  {
    if id in s.genres then Some(GenreRequest(id, s.genres[id].name)) else None
  }

  /** `Create(request)`: refused when a genre already has the trimmed name; otherwise adds
      one genre under a fresh id. */
  function Create(s: Store, req: GenreRequest): (t: Transition)
    ensures NameTaken(s, Trim(req.name), None) ==> t == Transition(s, Error(DuplicateMessage))
    ensures !NameTaken(s, Trim(req.name), None)
      ==> && t.result == Success(CreatedMessage, t.result.id)
          && t.result.id !in s.genres
          && t.store == s.(genres := s.genres[t.result.id := Genre(Trim(req.name))])
  {
    var name := Trim(req.name);
    if NameTaken(s, name, None) then
      Transition(s, Error(DuplicateMessage))
    else
      var id := Table.FreshId(s.genres);
      Transition(s.(genres := s.genres[id := Genre(name)]), Success(CreatedMessage, id))
  }

  /** `Update(request)`: the duplicate check, which skips the genre being updated, comes
      before the existence check; on success only that genre's name changes. */
  function Update(s: Store, req: GenreRequest): (t: Transition)
    ensures NameTaken(s, Trim(req.name), Some(req.id)) ==> t == Transition(s, Error(DuplicateMessage))
    ensures !NameTaken(s, Trim(req.name), Some(req.id)) && req.id !in s.genres
      ==> t == Transition(s, Error(NotFoundMessage))
    ensures !NameTaken(s, Trim(req.name), Some(req.id)) && req.id in s.genres
      ==> t == Transition(s.(genres := s.genres[req.id := Genre(Trim(req.name))]), Success(UpdatedMessage, req.id))
  {
    var name := Trim(req.name);
    if NameTaken(s, name, Some(req.id)) then
      Transition(s, Error(DuplicateMessage))
    else if req.id !in s.genres then
      Transition(s, Error(NotFoundMessage))
    else
      Transition(s.(genres := s.genres[req.id := Genre(name)]), Success(UpdatedMessage, req.id))
  }

  /** `Delete(id)`: refused for a missing genre; otherwise removes exactly that genre. */
  function Delete(s: Store, id: int): (t: Transition)
    ensures id !in s.genres ==> t == Transition(s, Error(NotFoundMessage))
    ensures id in s.genres ==> t == Transition(s.(genres := s.genres - {id}), Success(DeletedMessage, id))
  {
    if id !in s.genres then
      Transition(s, Error(NotFoundMessage))
    else
      Transition(s.(genres := s.genres - {id}), Success(DeletedMessage, id))
  }

  /** A create keeps genre names distinct. */
  lemma CreateKeepsNamesUnique(s: Store, req: GenreRequest)
    requires Table.UniqueBy(s.genres, Name)
    ensures Table.UniqueBy(Create(s, req).store.genres, Name)
  {
    var t := Create(s, req);
    if t.result.isSuccessful {
      Table.InsertKeepsUnique(s.genres, Name, t.result.id, Genre(Trim(req.name)));
    }
  }

  /** An update keeps genre names distinct. */
  lemma UpdateKeepsNamesUnique(s: Store, req: GenreRequest)
    requires Table.UniqueBy(s.genres, Name)
    ensures Table.UniqueBy(Update(s, req).store.genres, Name)
  {
    var t := Update(s, req);
    if t.result.isSuccessful {
      Table.ReplaceKeepsUnique(s.genres, Name, req.id, Genre(Trim(req.name)));
    }
  }

  /** Re-saving a genre under its own (trimmed) name succeeds. */
  lemma UpdateKeepingNameSucceeds(s: Store, req: GenreRequest)
    requires Table.UniqueBy(s.genres, Name)
    requires req.id in s.genres && s.genres[req.id].name == Trim(req.name)
    ensures Update(s, req).result == Success(UpdatedMessage, req.id)
  {
    OwnNameNotTaken(s, req.id, Trim(req.name));
  }

  /** Under distinct names, a genre's own name is not taken by anyone else. */
  lemma OwnNameNotTaken(s: Store, id: int, name: string)
    requires Table.UniqueBy(s.genres, Name)
    requires id in s.genres && s.genres[id].name == name
    ensures !NameTaken(s, name, Some(id))
  {
  }

  /** Reading back a created genre gives its trimmed name. */
  lemma EditAfterCreate(s: Store, req: GenreRequest)
    ensures var t := Create(s, req);
      t.result.isSuccessful ==> Edit(t.store, t.result.id) == Some(GenreRequest(t.result.id, Trim(req.name)))
  {
  }

  /** A second request whose name differs from a created genre's only by surrounding white
      space is refused as a duplicate. */
  lemma PaddedNameRefused(s: Store, req: GenreRequest, again: GenreRequest, front: string, back: string)
    requires AllWhiteSpace(front) && AllWhiteSpace(back)
    requires again.name == front + req.name + back
    requires Create(s, req).result.isSuccessful
    ensures var t := Create(s, req);
      Create(t.store, again) == Transition(t.store, Error(DuplicateMessage))
  {
    var t := Create(s, req);
    TrimIgnoresPadding(front, req.name, back);
    assert t.store.genres[t.result.id].name == Trim(again.name);
    assert NameTaken(t.store, Trim(again.name), None);
  }

  /** After a successful delete the genre can no longer be read back. */
  lemma DeleteThenItemAbsent(s: Store, id: int)
    ensures Delete(s, id).result.isSuccessful <==> id in s.genres
    ensures Item(Delete(s, id).store, id).None?
  {
  }
}

