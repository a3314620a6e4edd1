/** DirectorService: directors ordered by last then first name, unique by the trimmed
    (first name, last name) pair, and not deletable while a movie refers to them. */
module DirectorService {
  import opened Options
  import opened Text
  import opened Ordering
  import Table
  import opened Domain
  import opened Models

  const DuplicateMessage := "Director with the same name already exists!"
  const NotFoundMessage := "Director not found!"
  const HasMoviesMessage := "Director can't be deleted because it has relational movies!"
  const CreatedMessage := "Director created successfully."
  const UpdatedMessage := "Director updated successfully."
  const DeletedMessage := "Director deleted successfully."

  /** The key no two directors may share. */
  function NameKey(d: Director): (string, string) {
    (d.firstName, d.lastName)
  }

  /** Some stored director, other than `except` if given, holds exactly this name pair. */
  predicate NameTaken(s: Store, first: string, last: string, except: Option<int>) {
    exists k :: k in s.directors && Some(k) != except
      && s.directors[k].firstName == first && s.directors[k].lastName == last
  }

  /** The duplicate test with row `id` excluded implies the plain one; the plain one implies
      it unless row `id` itself holds the name pair; and under unique pairs, row `id`'s own
      pair never counts as taken against it. */
  lemma NameTakenExceptSelf(s: Store, first: string, last: string, id: int)
    ensures NameTaken(s, first, last, Some(id)) ==> NameTaken(s, first, last, None)
    ensures NameTaken(s, first, last, None) && !(id in s.directors && NameKey(s.directors[id]) == (first, last)) ==>
      NameTaken(s, first, last, Some(id))
    ensures Table.UniqueBy(s.directors, NameKey) && id in s.directors && NameKey(s.directors[id]) == (first, last) ==>
      !NameTaken(s, first, last, Some(id))
  {
  }

  /** The director's `Movies` navigation: the movies whose director reference is `id`. */
  function MoviesOf(s: Store, id: int): (r: map<int, Movie>)
    ensures forall k :: k in r <==> k in s.movies && s.movies[k].directorId == Some(id)
    ensures forall k :: k in r ==> r[k] == s.movies[k]
  {
    map k | k in s.movies && s.movies[k].directorId == Some(id) :: s.movies[k]
  }

  /** The names of the director's movies, in ascending movie id. */
  function MovieNames(s: Store, id: int): (r: seq<string>)
    ensures |r| == |MoviesOf(s, id)|
    ensures forall k :: k in MoviesOf(s, id) ==> s.movies[k].name in r
    ensures forall i :: 0 <= i < |r| ==> NameOfSome(MoviesOf(s, id), r[i])
    ensures exists keys :: InIdOrder(r, MoviesOf(s, id), keys)
  {
    var movies := MoviesOf(s, id);
    var keys := Table.SortedKeys(movies.Keys);
    assert |movies.Keys| == |movies|;
    var r := NamesAt(movies, keys);
    NamesInIdOrder(movies, keys, r);
    r
  }

  lemma NamesInIdOrder(movies: map<int, Movie>, keys: seq<int>, names: seq<string>)
    requires |keys| == |movies|
    requires forall i, j :: 0 <= i < j < |keys| ==> keys[i] < keys[j]
    requires forall k :: k in keys <==> k in movies
    requires |names| == |keys| && forall i :: 0 <= i < |keys| ==> keys[i] in movies && names[i] == movies[keys[i]].name
    ensures |names| == |movies|
    ensures forall k :: k in movies ==> movies[k].name in names
    ensures forall i :: 0 <= i < |names| ==> NameOfSome(movies, names[i])
    ensures exists keys :: InIdOrder(names, movies, keys)
  {
    NamesListed(movies, keys, names);
    NamesFromMovies(movies, keys, names);
    assert InIdOrder(names, movies, keys);
  }

  /** The names of the movies `keys`, in the order of `keys`. */
  function NamesAt(movies: map<int, Movie>, keys: seq<int>): (r: seq<string>)
    requires forall i :: 0 <= i < |keys| ==> keys[i] in movies
    ensures |r| == |keys|
    ensures forall i :: 0 <= i < |keys| ==> r[i] == movies[keys[i]].name
  {
    if keys == [] then [] else [movies[keys[0]].name] + NamesAt(movies, keys[1..])
  }

  /** `names` are the names of the movies `keys`, position by position, and `keys` are the
      ids of `movies` in ascending order. */
  ghost predicate InIdOrder(names: seq<string>, movies: map<int, Movie>, keys: seq<int>) {
    && |keys| == |names|
    && (forall i, j :: 0 <= i < j < |keys| ==> keys[i] < keys[j])
    && (forall k :: k in keys <==> k in movies)
    && (forall i :: 0 <= i < |keys| ==> keys[i] in movies && names[i] == movies[keys[i]].name)
  }

  lemma NamesListed(movies: map<int, Movie>, keys: seq<int>, names: seq<string>)
    requires |names| == |keys|
    requires forall k :: k in keys <==> k in movies
    requires forall i :: 0 <= i < |keys| ==> keys[i] in movies && names[i] == movies[keys[i]].name
    ensures forall k :: k in movies ==> movies[k].name in names
  {
    forall k | k in movies ensures movies[k].name in names {
      var i :| 0 <= i < |keys| && keys[i] == k;
      assert names[i] == movies[k].name;
    }
  }

  /** Some movie of `movies` is called `name`. */
  ghost predicate NameOfSome(movies: map<int, Movie>, name: string) {
    exists k :: k in movies && movies[k].name == name
  }

  lemma NamesFromMovies(movies: map<int, Movie>, keys: seq<int>, names: seq<string>)
    requires |names| == |keys|
    requires forall i :: 0 <= i < |keys| ==> keys[i] in movies && names[i] == movies[keys[i]].name
    ensures forall i :: 0 <= i < |names| ==> NameOfSome(movies, names[i])
  {
    forall i | 0 <= i < |names| ensures NameOfSome(movies, names[i]) {
      var k := keys[i];
      assert k in movies && movies[k].name == names[i];
    }
  }

  /** A stored director as the listing shows it. */
  function ToResponse(s: Store, id: int, d: Director): (r: DirectorResponse)
    ensures r.id == id && r.firstName == d.firstName && r.lastName == d.lastName
    ensures r.isRetired == d.isRetired
    ensures r.isRetiredF == (if d.isRetired then "Yes" else "No")
    ensures r.movieCount == |MoviesOf(s, id)|
    ensures r.movieCount == 0 ==> r.movieNames == ""
    ensures r.movieCount > 0 ==> r.movieNames == Join(", ", MovieNames(s, id))
  {
    var movies := MoviesOf(s, id);
    DirectorResponse(
      id, d.firstName, d.lastName, d.isRetired,
      if d.isRetired then "Yes" else "No",
      |movies|,
      if |movies| > 0 then Join(", ", MovieNames(s, id)) else "")
  }

  function LastName(d: Director): string {
    d.lastName
  }

  function FirstName(d: Director): string {
    d.firstName
  }

  /** The order of the overridden `Query`: by last name, then by first name. */
  function ByName(leq: (string, string) -> bool): (Director, Director) -> bool {
    ThenBy(OnKey(LastName, leq), OnKey(FirstName, leq))
  }

  lemma ByNamePreorder(leq: (string, string) -> bool)
    requires TotalPreorder(leq)
    ensures TotalPreorder(ByName(leq))
  {
    OnKeyPreorder(LastName, leq);
    OnKeyPreorder(FirstName, leq);
    ThenByPreorder(OnKey(LastName, leq), OnKey(FirstName, leq));
  }

  /** `List()`: every director once, ordered by last name then first name under `leq`. */
  function List(s: Store, leq: (string, string) -> bool): (r: seq<DirectorResponse>)
    requires TotalPreorder(leq)
    ensures |r| == |s.directors|
    ensures forall i :: 0 <= i < |r| ==>
      r[i].id in s.directors && r[i] == ToResponse(s, r[i].id, s.directors[r[i].id])
    ensures forall id :: id in s.directors ==> exists i :: 0 <= i < |r| && r[i].id == id
    ensures forall i, j :: 0 <= i < j < |r| ==>
      && leq(r[i].lastName, r[j].lastName)
      && (leq(r[j].lastName, r[i].lastName) ==> leq(r[i].firstName, r[j].firstName))
  {
    ByNamePreorder(leq);
    var rows := Table.Ordered(s.directors, ByName(leq));
    var r := Responses(s, rows);
    ListFacts(s, leq, rows, r);
    r
  }

  function Responses(s: Store, rows: seq<(int, Director)>): (r: seq<DirectorResponse>)
    ensures |r| == |rows|
    ensures forall i :: 0 <= i < |r| ==> r[i] == ToResponse(s, rows[i].0, rows[i].1)
  {
    seq(|rows|, i requires 0 <= i < |rows| => ToResponse(s, rows[i].0, rows[i].1))
  }

  lemma ListFacts(s: Store, leq: (string, string) -> bool, rows: seq<(int, Director)>, r: seq<DirectorResponse>)
    requires |r| == |rows| == |s.directors|
    requires forall i :: 0 <= i < |rows| ==> rows[i].0 in s.directors && rows[i].1 == s.directors[rows[i].0]
    requires forall k :: k in s.directors ==> (k, s.directors[k]) in rows
    requires forall i, j :: 0 <= i < j < |rows| ==> ByName(leq)(rows[i].1, rows[j].1)
    requires forall i :: 0 <= i < |r| ==> r[i] == ToResponse(s, rows[i].0, rows[i].1)
    ensures forall i :: 0 <= i < |r| ==>
      r[i].id in s.directors && r[i] == ToResponse(s, r[i].id, s.directors[r[i].id])
    ensures forall id :: id in s.directors ==> exists i :: 0 <= i < |r| && r[i].id == id
    ensures forall i, j :: 0 <= i < j < |r| ==>
      && leq(r[i].lastName, r[j].lastName)
      && (leq(r[j].lastName, r[i].lastName) ==> leq(r[i].firstName, r[j].firstName))
  {
    ListRows(s, rows, r);
    ListCovers(s, rows, r);
    ListSorted(s, leq, rows, r);
  }

  lemma ListRows(s: Store, rows: seq<(int, Director)>, r: seq<DirectorResponse>)
    requires |r| == |rows|
    requires forall i :: 0 <= i < |rows| ==> rows[i].0 in s.directors && rows[i].1 == s.directors[rows[i].0]
    requires forall i :: 0 <= i < |r| ==> r[i] == ToResponse(s, rows[i].0, rows[i].1)
    ensures forall i :: 0 <= i < |r| ==>
      r[i].id in s.directors && r[i] == ToResponse(s, r[i].id, s.directors[r[i].id])
  {
  }

  lemma ListCovers(s: Store, rows: seq<(int, Director)>, r: seq<DirectorResponse>)
    requires |r| == |rows|
    requires forall k :: k in s.directors ==> (k, s.directors[k]) in rows
    requires forall i :: 0 <= i < |r| ==> r[i].id == rows[i].0
    ensures forall id :: id in s.directors ==> exists i :: 0 <= i < |r| && r[i].id == id
  {
    forall id | id in s.directors ensures exists i :: 0 <= i < |r| && r[i].id == id {
      var i :| 0 <= i < |rows| && rows[i] == (id, s.directors[id]);
      assert r[i].id == id;
    }
  }

  lemma ListSorted(s: Store, leq: (string, string) -> bool, rows: seq<(int, Director)>, r: seq<DirectorResponse>)
    requires |r| == |rows|
    requires forall i, j :: 0 <= i < j < |rows| ==> ByName(leq)(rows[i].1, rows[j].1)
    requires forall i :: 0 <= i < |r| ==>
      r[i].lastName == rows[i].1.lastName && r[i].firstName == rows[i].1.firstName
    ensures forall i, j :: 0 <= i < j < |r| ==>
      && leq(r[i].lastName, r[j].lastName)
      && (leq(r[j].lastName, r[i].lastName) ==> leq(r[i].firstName, r[j].firstName))
  {
    forall i, j | 0 <= i < j < |r|
      ensures leq(r[i].lastName, r[j].lastName)
      ensures leq(r[j].lastName, r[i].lastName) ==> leq(r[i].firstName, r[j].firstName)
    {
      var a, b := rows[i].1, rows[j].1;
      assert ByName(leq)(a, b);
      assert OnKey(LastName, leq)(a, b) && (OnKey(LastName, leq)(b, a) ==> OnKey(FirstName, leq)(a, b));
      assert leq(a.lastName, b.lastName);
      assert leq(b.lastName, a.lastName) ==> leq(a.firstName, b.firstName);
    }
  }

  /** `Item(id)`: the director's response, or absent when no director has that id. */
  function Item(s: Store, id: int): (r: Option<DirectorResponse>)
    ensures r.Some? <==> id in s.directors
    ensures r.Some? ==> r.value == ToResponse(s, id, s.directors[id])
  {
    if id in s.directors then Some(ToResponse(s, id, s.directors[id])) else None
  }

  /** `Edit(id)`: the stored fields as a request, or absent when no director has that id. */
  function Edit(s: Store, id: int): (r: Option<DirectorRequest>)
    ensures r.Some? <==> id in s.directors
    ensures r.Some? ==> r.value == DirectorRequest(
      id, s.directors[id].firstName, s.directors[id].lastName, s.directors[id].isRetired)
  {
    if id in s.directors then
      var d := s.directors[id];
      Some(DirectorRequest(id, d.firstName, d.lastName, d.isRetired))
    else None
  }

  /** `Create(request)`: refused when a director already holds the trimmed name pair
      (compared case-sensitively); otherwise adds one director under a fresh id. */
  function Create(s: Store, req: DirectorRequest): (t: Transition)
    ensures NameTaken(s, Trim(req.firstName), Trim(req.lastName), None)
      ==> t == Transition(s, Error(DuplicateMessage))
    ensures !NameTaken(s, Trim(req.firstName), Trim(req.lastName), None)
      ==> && t.result == Success(CreatedMessage, t.result.id)
          && t.result.id !in s.directors
          && t.store == s.(directors := s.directors[t.result.id :=
               Director(Trim(req.firstName), Trim(req.lastName), req.isRetired)])
  {
    var first, last := Trim(req.firstName), Trim(req.lastName);
    if NameTaken(s, first, last, None) then
      Transition(s, Error(DuplicateMessage))
    else
      var id := Table.FreshId(s.directors);
      Transition(
        s.(directors := s.directors[id := Director(first, last, req.isRetired)]),
        Success(CreatedMessage, id))
  }

  /** `Update(request)`: the duplicate check, which skips the director being updated, comes
      before the existence check; on success only that director's fields change. */
  function Update(s: Store, req: DirectorRequest): (t: Transition)
    ensures NameTaken(s, Trim(req.firstName), Trim(req.lastName), Some(req.id))
      ==> t == Transition(s, Error(DuplicateMessage))
    ensures !NameTaken(s, Trim(req.firstName), Trim(req.lastName), Some(req.id)) && req.id !in s.directors
      ==> t == Transition(s, Error(NotFoundMessage))
    ensures !NameTaken(s, Trim(req.firstName), Trim(req.lastName), Some(req.id)) && req.id in s.directors
      ==> && t.result == Success(UpdatedMessage, req.id)
          && t.store == s.(directors := s.directors[req.id :=
               Director(Trim(req.firstName), Trim(req.lastName), req.isRetired)])
  {
    var first, last := Trim(req.firstName), Trim(req.lastName);
    if NameTaken(s, first, last, Some(req.id)) then
      Transition(s, Error(DuplicateMessage))
    else if req.id !in s.directors then
      Transition(s, Error(NotFoundMessage))
    else
      Transition(
        s.(directors := s.directors[req.id := Director(first, last, req.isRetired)]),
        Success(UpdatedMessage, req.id))
  }

  /** `Delete(id)`: refused for a missing director and for one that still has movies;
      otherwise removes exactly that director. */
  function Delete(s: Store, id: int): (t: Transition)
    ensures id !in s.directors ==> t == Transition(s, Error(NotFoundMessage))
    ensures id in s.directors && (exists k :: k in s.movies && s.movies[k].directorId == Some(id))
      ==> t == Transition(s, Error(HasMoviesMessage))
    ensures id in s.directors && !(exists k :: k in s.movies && s.movies[k].directorId == Some(id))
      ==> t == Transition(s.(directors := s.directors - {id}), Success(DeletedMessage, id))
  {
    if id !in s.directors then
      Transition(s, Error(NotFoundMessage))
    else if exists k :: k in s.movies && s.movies[k].directorId == Some(id) then
      Transition(s, Error(HasMoviesMessage))
    else
      Transition(s.(directors := s.directors - {id}), Success(DeletedMessage, id))
  }

  /** A create keeps the (first name, last name) pairs of all directors distinct. */
  lemma CreateKeepsNamesUnique(s: Store, req: DirectorRequest)
    requires Table.UniqueBy(s.directors, NameKey)
    ensures Table.UniqueBy(Create(s, req).store.directors, NameKey)
  {
    var t := Create(s, req);
    if t.result.isSuccessful {
      var d := Director(Trim(req.firstName), Trim(req.lastName), req.isRetired);
      Table.InsertKeepsUnique(s.directors, NameKey, t.result.id, d);
    }
  }

  /** An update keeps the (first name, last name) pairs of all directors distinct. */
  lemma UpdateKeepsNamesUnique(s: Store, req: DirectorRequest)
    requires Table.UniqueBy(s.directors, NameKey)
    ensures Table.UniqueBy(Update(s, req).store.directors, NameKey)
  {
    var t := Update(s, req);
    if t.result.isSuccessful {
      var d := Director(Trim(req.firstName), Trim(req.lastName), req.isRetired);
      Table.ReplaceKeepsUnique(s.directors, NameKey, req.id, d);
    }
  }

  /** Re-saving a director under its own (trimmed) name succeeds: the duplicate check
      skips the director being updated. */
  lemma UpdateKeepingNameSucceeds(s: Store, req: DirectorRequest)
    requires Table.UniqueBy(s.directors, NameKey)
    requires req.id in s.directors
    requires NameKey(s.directors[req.id]) == (Trim(req.firstName), Trim(req.lastName))
    ensures Update(s, req).result == Success(UpdatedMessage, req.id)
  {
    OwnNameNotTaken(s, req.id, Trim(req.firstName), Trim(req.lastName));
  }

  /** Under distinct name pairs, a director's own name pair is not taken by anyone else. */
  lemma OwnNameNotTaken(s: Store, id: int, first: string, last: string)
    requires Table.UniqueBy(s.directors, NameKey)
    requires id in s.directors && NameKey(s.directors[id]) == (first, last)
    ensures !NameTaken(s, first, last, Some(id))
  {
  }

  /** Reading back a created director gives the trimmed names and the request's flag. */
  lemma EditAfterCreate(s: Store, req: DirectorRequest)
    ensures var t := Create(s, req);
      t.result.isSuccessful ==>
        Edit(t.store, t.result.id) == Some(DirectorRequest(
          t.result.id, Trim(req.firstName), Trim(req.lastName), req.isRetired))
  {
  }

  /** A second request whose names differ from a created director's only by surrounding
      white space is refused as a duplicate. */
  lemma PaddedNameRefused(s: Store, req: DirectorRequest, again: DirectorRequest,
                          f0: string, f1: string, l0: string, l1: string)
    requires AllWhiteSpace(f0) && AllWhiteSpace(f1) && AllWhiteSpace(l0) && AllWhiteSpace(l1)
    requires again.firstName == f0 + req.firstName + f1
    requires again.lastName == l0 + req.lastName + l1
    ensures var t := Create(s, req);
      t.result.isSuccessful ==> Create(t.store, again) == Transition(t.store, Error(DuplicateMessage))
  {
    var t := Create(s, req);
    if t.result.isSuccessful {
      TrimIgnoresPadding(f0, req.firstName, f1);
      TrimIgnoresPadding(l0, req.lastName, l1);
      assert t.store.directors[t.result.id].firstName == Trim(again.firstName);
      assert t.store.directors[t.result.id].lastName == Trim(again.lastName);
      assert NameTaken(t.store, Trim(again.firstName), Trim(again.lastName), None);
    }
  }

  /** The listing's movie count is zero exactly when a delete would not be refused for
      relational movies. */
  lemma DeleteRefusedIffMoviesListed(s: Store, id: int)
    requires id in s.directors
    ensures Delete(s, id).result.isSuccessful <==> Item(s, id).value.movieCount == 0
  {
    assert Item(s, id).value.movieCount == |MoviesOf(s, id)|;
    MoviesListedIffReferenced(s, id);
  }

  /** The director has a listed movie exactly when some movie refers to it. */
  lemma MoviesListedIffReferenced(s: Store, id: int)
    ensures |MoviesOf(s, id)| > 0 <==> exists k :: k in s.movies && s.movies[k].directorId == Some(id)
  {
    var movies := MoviesOf(s, id);
    if exists k :: k in s.movies && s.movies[k].directorId == Some(id) {
      var k :| k in s.movies && s.movies[k].directorId == Some(id);
      assert k in movies.Keys;
      assert |movies.Keys| > 0;
    } else if |movies| > 0 {
      assert false;
    }
  }

  /** After a successful delete no movie refers to the removed director. */
  lemma DeleteLeavesNoMovies(s: Store, id: int)
    ensures Delete(s, id).result.isSuccessful ==>
      forall k :: k in Delete(s, id).store.movies ==> Delete(s, id).store.movies[k].directorId != Some(id)
  {
  }
}
