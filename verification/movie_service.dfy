/** MovieService: movies unique by their trimmed name (compared case-sensitively), linked to
    genres through MovieGenre join rows. Create links the positive requested genre ids, Update
    synchronises the links with the requested ids by set difference, Delete removes the
    movie's links with it. */
module MovieService {
  import opened Options
  import opened Text
  import opened Seqs
  import Table
  import opened Domain
  import opened Models

  const DuplicateMessage := "Movie with the same name already exists!"
  const NotFoundMessage := "Movie not found!"
  const CreatedMessage := "Movie created successfully."
  const UpdatedMessage := "Movie updated successfully."
  const DeletedMessage := "Movie deleted successfully."

  /** The key no two movies may share. */
  function Name(m: Movie): string {
    m.name
  }

  /** Some stored movie, other than `except` if given, is named exactly `name`. */
  predicate NameTaken(s: Store, name: string, except: Option<int>) {
    exists k :: k in s.movies && Some(k) != except && s.movies[k].name == name
  }

  /** The duplicate test with row `id` excluded implies the plain one; the plain one implies
      it unless row `id` itself holds the name; and under unique keys, row `id`'s own
      name never counts as taken against it. */
  lemma NameTakenExceptSelf(s: Store, name: string, id: int)
    ensures NameTaken(s, name, Some(id)) ==> NameTaken(s, name, None)
    ensures NameTaken(s, name, None) && !(id in s.movies && s.movies[id].name == name) ==> NameTaken(s, name, Some(id))
    ensures Table.UniqueBy(s.movies, Name) && id in s.movies && s.movies[id].name == name ==> !NameTaken(s, name, Some(id))
  {
  }

  /** The requested genre ids, a missing list read as an empty one. */
  function Requested(req: MovieRequest): (ids: seq<int>)
    ensures req.genreIds.None? ==> ids == []
    ensures req.genreIds.Some? ==> ids == req.genreIds.value
  {
    if req.genreIds.Some? then req.genreIds.value else []
  }

  /** The genre ids Create accepts: only positive ones name a genre. */
  predicate Positive(genreId: int) {
    genreId > 0
  }

  /** The movie record a request describes: the trimmed name and the other fields as sent. */
  function FromRequest(req: MovieRequest): (m: Movie)
    ensures TrimmedFrom(req.name, m.name)
    ensures m.releaseDate == req.releaseDate && m.totalRevenue == req.totalRevenue
    ensures m.directorId == req.directorId
  {
    Movie(Trim(req.name), req.releaseDate, req.totalRevenue, req.directorId)
  }

  /** The genre ids of movie `id`'s join rows, in row order, once per row. */
  function GenreIdsOf(rows: seq<MovieGenre>, id: int): (r: seq<int>)
    ensures forall g :: multiset(r)[g] == multiset(rows)[MovieGenre(id, g)]
    ensures forall g :: g in r <==> MovieGenre(id, g) in rows
  {
    if rows == [] then []
    else
      assert rows == [rows[0]] + rows[1..];
      (if rows[0].movieId == id then [rows[0].genreId] else []) + GenreIdsOf(rows[1..], id)
  }

  /** One join row linking movie `id` to each id of `genreIds`, in order. */
  function Links(id: int, genreIds: seq<int>): (r: seq<MovieGenre>)
    ensures |r| == |genreIds|
    ensures forall i :: 0 <= i < |r| ==> r[i] == MovieGenre(id, genreIds[i])
    ensures forall row: MovieGenre :: multiset(r)[row] == if row.movieId == id then multiset(genreIds)[row.genreId] else 0
  {
    if genreIds == [] then []
    else
      assert genreIds == [genreIds[0]] + genreIds[1..];
      [MovieGenre(id, genreIds[0])] + Links(id, genreIds[1..])
  }

  /** The names of the genres movie `id` is linked to, in row order; a row whose genre is
      not stored contributes no name. */
  function LinkedNames(rows: seq<MovieGenre>, genres: map<int, Genre>, id: int): (r: seq<string>)
    ensures |r| <= |rows|
    ensures forall g :: MovieGenre(id, g) in rows && g in genres ==> genres[g].name in r
    ensures forall x :: x in r ==> exists g :: MovieGenre(id, g) in rows && g in genres && genres[g].name == x
    ensures LinksStored(rows, genres, id) ==> NamesOf(r, GenreIdsOf(rows, id), genres)
  {
    if rows == [] then []
    else
      var rest := LinkedNames(rows[1..], genres, id);
      var r := if rows[0].movieId == id && rows[0].genreId in genres then [genres[rows[0].genreId].name] + rest else rest;
      NamesStep(rows, genres, id, rest, r);
      NamesFromLinksStep(rows, genres, id, rest, r);
      NamesOfStep(rows, genres, id, rest, r);
      r
  }

  /** Every genre movie `id` is linked to is stored. */
  ghost predicate LinksStored(rows: seq<MovieGenre>, genres: map<int, Genre>, id: int) {
    forall g :: MovieGenre(id, g) in rows ==> g in genres
  }

  /** `names` lists the stored names of the genres `ids`, position by position. */
  ghost predicate NamesOf(names: seq<string>, ids: seq<int>, genres: map<int, Genre>) {
    && |names| == |ids|
    && forall i :: 0 <= i < |ids| ==> ids[i] in genres && names[i] == genres[ids[i]].name
  }

  /** The name of the first row, if it is kept, in front of the names of the others. */
  ghost predicate NamesStepped(rows: seq<MovieGenre>, genres: map<int, Genre>, id: int, rest: seq<string>, r: seq<string>)
    requires rows != []
  {
    r == if rows[0].movieId == id && rows[0].genreId in genres then [genres[rows[0].genreId].name] + rest else rest
  }

  lemma NamesStep(rows: seq<MovieGenre>, genres: map<int, Genre>, id: int, rest: seq<string>, r: seq<string>)
    requires rows != [] && NamesStepped(rows, genres, id, rest, r)
    requires |rest| <= |rows[1..]|
    requires forall g :: MovieGenre(id, g) in rows[1..] && g in genres ==> genres[g].name in rest
    ensures |r| <= |rows|
    ensures forall g :: MovieGenre(id, g) in rows && g in genres ==> genres[g].name in r
  {
    assert forall x :: x in rows ==> x == rows[0] || x in rows[1..];
  }

  lemma NamesFromLinksStep(rows: seq<MovieGenre>, genres: map<int, Genre>, id: int, rest: seq<string>, r: seq<string>)
    requires rows != [] && NamesStepped(rows, genres, id, rest, r)
    requires forall x :: x in rest ==> exists g :: MovieGenre(id, g) in rows[1..] && g in genres && genres[g].name == x
    ensures forall x :: x in r ==> exists g :: MovieGenre(id, g) in rows && g in genres && genres[g].name == x
  {
    forall x | x in r ensures exists g :: MovieGenre(id, g) in rows && g in genres && genres[g].name == x {
      if x in rest {
        var g :| MovieGenre(id, g) in rows[1..] && g in genres && genres[g].name == x;
        assert MovieGenre(id, g) in rows;
      } else {
        assert MovieGenre(id, rows[0].genreId) == rows[0];
      }
    }
  }

  lemma NamesOfStep(rows: seq<MovieGenre>, genres: map<int, Genre>, id: int, rest: seq<string>, r: seq<string>)
    requires rows != [] && NamesStepped(rows, genres, id, rest, r)
    requires LinksStored(rows[1..], genres, id) ==> NamesOf(rest, GenreIdsOf(rows[1..], id), genres)
    ensures LinksStored(rows, genres, id) ==> NamesOf(r, GenreIdsOf(rows, id), genres)
  {
    if LinksStored(rows, genres, id) {
      forall g | MovieGenre(id, g) in rows[1..] ensures g in genres {
        assert MovieGenre(id, g) in rows;
      }
      var ids := GenreIdsOf(rows[1..], id);
      assert GenreIdsOf(rows, id) == (if rows[0].movieId == id then [rows[0].genreId] else []) + ids;
      if rows[0].movieId == id {
        assert MovieGenre(id, rows[0].genreId) == rows[0];
        assert rows[0].genreId in genres;
      }
    }
  }

  /** The linked director as "First Last", or "" when the movie has no stored director. */
  function DirectorName(s: Store, m: Movie): (r: string)
    ensures m.directorId.Some? && m.directorId.value in s.directors ==>
      r == FullName(s.directors[m.directorId.value].firstName, s.directors[m.directorId.value].lastName)
    ensures !(m.directorId.Some? && m.directorId.value in s.directors) ==> r == ""
  {
    if m.directorId.Some? && m.directorId.value in s.directors then
      var d := s.directors[m.directorId.value];
      FullName(d.firstName, d.lastName)
    else ""
  }

  /** A stored movie as `List` and `Item` show it. */
  function ToResponse(s: Store, id: int, m: Movie): (r: MovieResponse)
    ensures r.id == id && r.name == m.name
    ensures r.releaseDate == m.releaseDate && r.totalRevenue == m.totalRevenue
    ensures r.directorName == DirectorName(s, m)
    ensures forall g :: multiset(r.genreIds)[g] == multiset(s.movieGenres)[MovieGenre(id, g)]
    ensures r.genreIds == [] ==> r.genreNames == ""
    ensures r.genreNames == Join(", ", LinkedNames(s.movieGenres, s.genres, id))
  {
    var names := LinkedNames(s.movieGenres, s.genres, id);
    NoLinksNoNames(s.movieGenres, s.genres, id);
    MovieResponse(
      id, m.name, m.releaseDate, m.totalRevenue,
      DirectorName(s, m),
      Join(", ", names),
      GenreIdsOf(s.movieGenres, id))
  }

  lemma {:induction false} NoLinksNoNames(rows: seq<MovieGenre>, genres: map<int, Genre>, id: int)
    ensures GenreIdsOf(rows, id) == [] ==> LinkedNames(rows, genres, id) == []
  {
    if rows != [] {
      NoLinksNoNames(rows[1..], genres, id);
    }
  }

  /** `List()`: every movie once, in ascending id (the query has no ordering of its own). */
  function List(s: Store): (r: seq<MovieResponse>)
    ensures |r| == |s.movies|
    ensures forall i :: 0 <= i < |r| ==> r[i].id in s.movies && r[i] == ToResponse(s, r[i].id, s.movies[r[i].id])
    ensures forall i, j :: 0 <= i < j < |r| ==> r[i].id < r[j].id
    ensures forall id :: id in s.movies ==> exists i :: 0 <= i < |r| && r[i].id == id
  {
    var keys := Table.SortedKeys(s.movies.Keys);
    var r := Responses(s, keys);
    ListFacts(s, keys, r);
    r
  }

  function Responses(s: Store, keys: seq<int>): (r: seq<MovieResponse>)
    requires forall i :: 0 <= i < |keys| ==> keys[i] in s.movies
    ensures |r| == |keys|
    ensures forall i :: 0 <= i < |r| ==> r[i] == ToResponse(s, keys[i], s.movies[keys[i]])
  {
    seq(|keys|, i requires 0 <= i < |keys| => ToResponse(s, keys[i], s.movies[keys[i]]))
  }

  lemma ListFacts(s: Store, keys: seq<int>, r: seq<MovieResponse>)
    requires |r| == |keys| == |s.movies|
    requires forall i, j :: 0 <= i < j < |keys| ==> keys[i] < keys[j]
    requires forall k :: k in keys <==> k in s.movies
    requires forall i :: 0 <= i < |r| ==> keys[i] in s.movies && r[i] == ToResponse(s, keys[i], s.movies[keys[i]])
    ensures forall i :: 0 <= i < |r| ==> r[i].id in s.movies && r[i] == ToResponse(s, r[i].id, s.movies[r[i].id])
    ensures forall i, j :: 0 <= i < j < |r| ==> r[i].id < r[j].id
    ensures forall id :: id in s.movies ==> exists i :: 0 <= i < |r| && r[i].id == id
  {
    forall i | 0 <= i < |r| ensures r[i].id in s.movies && r[i] == ToResponse(s, r[i].id, s.movies[r[i].id]) {
      assert r[i].id == keys[i];
    }
    forall i, j | 0 <= i < j < |r| ensures r[i].id < r[j].id {
      assert r[i].id == keys[i] && r[j].id == keys[j];
    }
    forall id | id in s.movies ensures exists i :: 0 <= i < |r| && r[i].id == id {
      var i :| 0 <= i < |keys| && keys[i] == id;
      assert r[i].id == id;
    }
  }

  /** `Item(id)`: the movie's response, or absent when no movie has that id. */
  function Item(s: Store, id: int): (r: Option<MovieResponse>)
    ensures r.Some? <==> id in s.movies
    ensures r.Some? ==> r.value == ToResponse(s, id, s.movies[id])
  {
    if id in s.movies then Some(ToResponse(s, id, s.movies[id])) else None
  }

  /** `Edit(id)`: the stored fields and linked genre ids as a request, or absent when no
      movie has that id. */
  function Edit(s: Store, id: int): (r: Option<MovieRequest>)
    ensures r.Some? <==> id in s.movies
    ensures r.Some? ==>
      && r.value.id == id && r.value.name == s.movies[id].name
      && r.value.releaseDate == s.movies[id].releaseDate
      && r.value.totalRevenue == s.movies[id].totalRevenue
      && r.value.directorId == s.movies[id].directorId
      && r.value.genreIds.Some?
      && forall g :: multiset(r.value.genreIds.value)[g] == multiset(s.movieGenres)[MovieGenre(id, g)]
  {
    if id in s.movies then
      var m := s.movies[id];
      Some(MovieRequest(id, m.name, m.releaseDate, m.totalRevenue, m.directorId,
                        Some(GenreIdsOf(s.movieGenres, id))))
    else None
  }

  /** The join rows Create adds for new movie `id`: one per positive requested id, none
      when the list is missing or empty. */
  function CreatedLinks(id: int, req: MovieRequest): (r: seq<MovieGenre>)
    ensures forall row: MovieGenre :: multiset(r)[row] == (if row.movieId == id && Positive(row.genreId) then multiset(Requested(req))[row.genreId] else 0)
  {
    var ids := Requested(req);
    if req.genreIds.Some? && |ids| > 0 then Links(id, Filter(ids, Positive)) else []
  }

  /** `Create(request)`: refused when a movie already has the trimmed name; otherwise adds
      one movie under a fresh id and links it to its positive requested genre ids. */
  function Create(s: Store, req: MovieRequest): (t: Transition)
    ensures NameTaken(s, Trim(req.name), None) ==> t == Transition(s, Error(DuplicateMessage))
    ensures !NameTaken(s, Trim(req.name), None) ==>
      && t.result == Success(CreatedMessage, t.result.id)
      && t.result.id !in s.movies
      && t.store == s.(movies := s.movies[t.result.id := FromRequest(req)],
                       movieGenres := s.movieGenres + CreatedLinks(t.result.id, req))
  {
    if NameTaken(s, Trim(req.name), None) then
      Transition(s, Error(DuplicateMessage))
    else
      var id := Table.FreshId(s.movies);
      Transition(
        s.(movies := s.movies[id := FromRequest(req)], movieGenres := s.movieGenres + CreatedLinks(id, req)),
        Success(CreatedMessage, id))
  }

  /** What synchronising movie `id`'s links with `requested` promises: exactly the requested
      ids end up linked, other movies' rows are untouched, a link that was already there is
      neither removed nor re-added, and a new link is added once per time it is requested. */
  ghost predicate Synced(before: seq<MovieGenre>, after: seq<MovieGenre>, id: int, requested: seq<int>) {
    && (forall g :: MovieGenre(id, g) in after <==> g in requested)
    && (forall row: MovieGenre :: row.movieId != id ==> multiset(after)[row] == multiset(before)[row])
    && (forall g :: g in requested && MovieGenre(id, g) in before ==>
          multiset(after)[MovieGenre(id, g)] == multiset(before)[MovieGenre(id, g)])
    && (forall g :: g in requested && MovieGenre(id, g) !in before ==>
          multiset(after)[MovieGenre(id, g)] == multiset(requested)[g])
  }

  /** The genre synchronisation of `Update`: drop the movie's rows whose genre is not
      requested, then add a row for every requested id the movie was not linked to. */
  function SyncGenres(rows: seq<MovieGenre>, id: int, requested: seq<int>): (r: seq<MovieGenre>)
    ensures Synced(rows, r, id, requested)
  {
    var existing := GenreIdsOf(rows, id);
    var kept := Filter(rows, KeepLink(id, requested));
    var added := Links(id, Filter(requested, NotIn(existing)));
    SyncFacts(rows, id, requested, existing, kept, Filter(requested, NotIn(existing)), added);
    kept + added
  }

  /** Rows that survive the synchronisation: another movie's, or a requested genre's. */
  function KeepLink(id: int, requested: seq<int>): MovieGenre -> bool {
    (row: MovieGenre) => row.movieId != id || row.genreId in requested
  }

  /** Requested ids still to be linked: those the movie is not yet linked to. */
  function NotIn(existing: seq<int>): int -> bool {
    (g: int) => g !in existing
  }

  /** Rows that survive deleting movie `id`. */
  function OtherMovie(id: int): MovieGenre -> bool {
    (row: MovieGenre) => row.movieId != id
  }

  lemma SyncFacts(rows: seq<MovieGenre>, id: int, requested: seq<int>, existing: seq<int>,
                  kept: seq<MovieGenre>, wanted: seq<int>, added: seq<MovieGenre>)
    requires forall g :: g in existing <==> MovieGenre(id, g) in rows
    requires forall row: MovieGenre :: multiset(kept)[row] == if KeepLink(id, requested)(row) then multiset(rows)[row] else 0
    requires forall g :: multiset(wanted)[g] == if NotIn(existing)(g) then multiset(requested)[g] else 0
    requires forall row: MovieGenre :: multiset(added)[row] == if row.movieId == id then multiset(wanted)[row.genreId] else 0
    ensures Synced(rows, kept + added, id, requested)
  {
    var r := kept + added;
    assert forall row: MovieGenre :: multiset(r)[row] == multiset(kept)[row] + multiset(added)[row];
    forall g ensures MovieGenre(id, g) in r <==> g in requested {
      var row := MovieGenre(id, g);
      assert row in r <==> multiset(r)[row] > 0;
      assert KeepLink(id, requested)(row) <==> g in requested;
      assert NotIn(existing)(g) <==> g !in existing;
    }
    forall row: MovieGenre | row.movieId != id ensures multiset(r)[row] == multiset(rows)[row] {
      assert KeepLink(id, requested)(row);
    }
    forall g | g in requested ensures multiset(r)[MovieGenre(id, g)] == if MovieGenre(id, g) in rows then multiset(rows)[MovieGenre(id, g)] else multiset(requested)[g] {
      assert KeepLink(id, requested)(MovieGenre(id, g));
      assert NotIn(existing)(g) <==> g !in existing;
    }
  }

  /** `Update(request)`: the duplicate check, which skips the movie being updated, comes
      before the existence check; on success the movie's fields are overwritten and its
      genre links synchronised with the requested ids (a missing list unlinks every genre). */
  function Update(s: Store, req: MovieRequest): (t: Transition)
    ensures NameTaken(s, Trim(req.name), Some(req.id)) ==> t == Transition(s, Error(DuplicateMessage))
    ensures !NameTaken(s, Trim(req.name), Some(req.id)) && req.id !in s.movies
      ==> t == Transition(s, Error(NotFoundMessage))
    ensures !NameTaken(s, Trim(req.name), Some(req.id)) && req.id in s.movies ==>
      && t.result == Success(UpdatedMessage, req.id)
      && t.store == s.(movies := s.movies[req.id := FromRequest(req)], movieGenres := t.store.movieGenres)
      && Synced(s.movieGenres, t.store.movieGenres, req.id, Requested(req))
  {
    if NameTaken(s, Trim(req.name), Some(req.id)) then
      Transition(s, Error(DuplicateMessage))
    else if req.id !in s.movies then
      Transition(s, Error(NotFoundMessage))
    else
      Transition(
        s.(movies := s.movies[req.id := FromRequest(req)],
           movieGenres := SyncGenres(s.movieGenres, req.id, Requested(req))),
        Success(UpdatedMessage, req.id))
  }

  /** `Delete(id)`: refused for a missing movie; otherwise removes the movie and every join
      row of it, and no other row. */
  function Delete(s: Store, id: int): (t: Transition)
    ensures id !in s.movies ==> t == Transition(s, Error(NotFoundMessage))
    ensures id in s.movies ==>
      && t.result == Success(DeletedMessage, id)
      && t.store == s.(movies := s.movies - {id}, movieGenres := t.store.movieGenres)
      && forall row: MovieGenre :: multiset(t.store.movieGenres)[row] ==
           (if row.movieId == id then 0 else multiset(s.movieGenres)[row])
  {
    if id !in s.movies then
      Transition(s, Error(NotFoundMessage))
    else
      Transition(
        s.(movies := s.movies - {id},
           movieGenres := Filter(s.movieGenres, OtherMovie(id))),
        Success(DeletedMessage, id))
  }

  /** Every join row belongs to a stored movie (the foreign key of MovieGenre.MovieId). */
  ghost predicate LinksAttached(s: Store) {
    forall i :: 0 <= i < |s.movieGenres| ==> s.movieGenres[i].movieId in s.movies
  }

  /** No element occurs twice. */
  predicate Distinct(xs: seq<int>) {
    forall i, j :: 0 <= i < j < |xs| ==> xs[i] != xs[j]
  }

  lemma {:induction false} DistinctOnce(xs: seq<int>)
    requires Distinct(xs)
    ensures forall x :: multiset(xs)[x] == if x in xs then 1 else 0
  {
    if xs != [] {
      assert xs == [xs[0]] + xs[1..];
      assert Distinct(xs[1..]) by {
        forall i, j | 0 <= i < j < |xs[1..]| ensures xs[1..][i] != xs[1..][j] {
          assert xs[1..][i] == xs[i + 1] && xs[1..][j] == xs[j + 1];
        }
      }
      DistinctOnce(xs[1..]);
      assert xs[0] !in xs[1..] by {
        forall k | 0 <= k < |xs[1..]| ensures xs[1..][k] != xs[0] {
          assert xs[1..][k] == xs[k + 1];
        }
      }
    }
  }

  /** A create keeps movie names distinct. */
  lemma CreateKeepsNamesUnique(s: Store, req: MovieRequest)
    requires Table.UniqueBy(s.movies, Name)
    ensures Table.UniqueBy(Create(s, req).store.movies, Name)
  {
    var t := Create(s, req);
    if t.result.isSuccessful {
      Table.InsertKeepsUnique(s.movies, Name, t.result.id, FromRequest(req));
    }
  }

  /** An update keeps movie names distinct. */
  lemma UpdateKeepsNamesUnique(s: Store, req: MovieRequest)
    requires Table.UniqueBy(s.movies, Name)
    ensures Table.UniqueBy(Update(s, req).store.movies, Name)
  {
    var t := Update(s, req);
    if t.result.isSuccessful {
      Table.ReplaceKeepsUnique(s.movies, Name, req.id, FromRequest(req));
    }
  }

  /** Create, Update and Delete never leave a join row pointing at a missing movie. */
  lemma CreateKeepsLinksAttached(s: Store, req: MovieRequest)
    requires LinksAttached(s)
    ensures LinksAttached(Create(s, req).store)
  {
    var t := Create(s, req);
    if t.result.isSuccessful {
      var added := CreatedLinks(t.result.id, req);
      assert t.store.movieGenres == s.movieGenres + added;
      RowsStayAttached(s.movieGenres, t.store.movieGenres, s.movies, t.store.movies, t.result.id);
    }
  }

  lemma UpdateKeepsLinksAttached(s: Store, req: MovieRequest)
    requires LinksAttached(s)
    ensures LinksAttached(Update(s, req).store)
  {
    var t := Update(s, req);
    if t.result.isSuccessful {
      assert Synced(s.movieGenres, t.store.movieGenres, req.id, Requested(req));
      RowsStayAttached(s.movieGenres, t.store.movieGenres, s.movies, t.store.movies, req.id);
    }
  }

  lemma DeleteKeepsLinksAttached(s: Store, id: int)
    requires LinksAttached(s)
    ensures LinksAttached(Delete(s, id).store)
  {
    var t := Delete(s, id);
    if t.result.isSuccessful {
      RowsStayAttachedAfterRemoval(s.movieGenres, t.store.movieGenres, s.movies, id);
    }
  }

  /** Rows whose count only changes for movie `id` stay attached once `id` is stored. */
  lemma RowsStayAttached(before: seq<MovieGenre>, after: seq<MovieGenre>,
                         movies: map<int, Movie>, movies2: map<int, Movie>, id: int)
    requires forall i :: 0 <= i < |before| ==> before[i].movieId in movies
    requires forall k :: k in movies ==> k in movies2
    requires id in movies2
    requires forall row: MovieGenre :: row.movieId != id ==> multiset(after)[row] == multiset(before)[row]
    ensures forall i :: 0 <= i < |after| ==> after[i].movieId in movies2
  {
    forall i | 0 <= i < |after| ensures after[i].movieId in movies2 {
      var row := after[i];
      if row.movieId != id {
        assert multiset(after)[row] > 0;
        assert row in before;
        var k :| 0 <= k < |before| && before[k] == row;
      }
    }
  }

  /** Removing every row of movie `id`, and only those, keeps the rest attached once the
      movie is gone. */
  lemma RowsStayAttachedAfterRemoval(before: seq<MovieGenre>, after: seq<MovieGenre>,
                                     movies: map<int, Movie>, id: int)
    requires forall i :: 0 <= i < |before| ==> before[i].movieId in movies
    requires forall row: MovieGenre :: multiset(after)[row] == (if row.movieId == id then 0 else multiset(before)[row])
    ensures forall i :: 0 <= i < |after| ==> after[i].movieId in movies - {id}
  {
    forall i | 0 <= i < |after| ensures after[i].movieId in movies - {id} {
      var row := after[i];
      assert multiset(after)[row] > 0;
      assert row in before;
      var k :| 0 <= k < |before| && before[k] == row;
    }
  }

  /** Reading back a created movie gives the trimmed name, the other fields as sent, and
      exactly the positive requested genre ids (as a multiset: one per occurrence). */
  lemma EditAfterCreate(s: Store, req: MovieRequest)
    requires LinksAttached(s)
    ensures var t := Create(s, req);
      t.result.isSuccessful ==>
        && Edit(t.store, t.result.id).Some?
        && Edit(t.store, t.result.id).value.name == Trim(req.name)
        && Edit(t.store, t.result.id).value.releaseDate == req.releaseDate
        && Edit(t.store, t.result.id).value.totalRevenue == req.totalRevenue
        && Edit(t.store, t.result.id).value.directorId == req.directorId
        && multiset(Edit(t.store, t.result.id).value.genreIds.value) == multiset(Filter(Requested(req), Positive))
  {
    var t := Create(s, req);
    if t.result.isSuccessful {
      ReadBackCreated(s, t.store, t.result.id, req);
    }
  }

  lemma ReadBackCreated(s: Store, s2: Store, id: int, req: MovieRequest)
    requires LinksAttached(s) && id !in s.movies
    requires s2.movies == s.movies[id := FromRequest(req)]
    requires s2.movieGenres == s.movieGenres + CreatedLinks(id, req)
    ensures Edit(s2, id).Some?
    ensures Edit(s2, id).value.name == Trim(req.name)
    ensures Edit(s2, id).value.releaseDate == req.releaseDate
    ensures Edit(s2, id).value.totalRevenue == req.totalRevenue
    ensures Edit(s2, id).value.directorId == req.directorId
    ensures multiset(Edit(s2, id).value.genreIds.value) == multiset(Filter(Requested(req), Positive))
  {
    assert forall i :: 0 <= i < |s.movieGenres| ==> s.movieGenres[i].movieId != id;
    CreatedLinksRead(s.movieGenres, id, req);
  }

  lemma CreatedLinksRead(before: seq<MovieGenre>, id: int, req: MovieRequest)
    requires forall i :: 0 <= i < |before| ==> before[i].movieId != id
    ensures multiset(GenreIdsOf(before + CreatedLinks(id, req), id)) == multiset(Filter(Requested(req), Positive))
  {
    var ids := Filter(Requested(req), Positive);
    var added := CreatedLinks(id, req);
    assert forall g :: multiset(added)[MovieGenre(id, g)] == multiset(ids)[g];
    FreshMovieLinks(before, added, id, ids);
  }

  /** The links of a movie no earlier row mentions are exactly those appended for it. */
  lemma FreshMovieLinks(before: seq<MovieGenre>, added: seq<MovieGenre>, id: int, ids: seq<int>)
    requires forall i :: 0 <= i < |before| ==> before[i].movieId != id
    requires forall g :: multiset(added)[MovieGenre(id, g)] == multiset(ids)[g]
    ensures multiset(GenreIdsOf(before + added, id)) == multiset(ids)
  {
    var r := GenreIdsOf(before + added, id);
    forall g ensures multiset(r)[g] == multiset(ids)[g] {
      var row := MovieGenre(id, g);
      assert multiset(before)[row] == 0 by {
        if row in before {
          assert false;
        }
      }
      assert multiset(before + added)[row] == multiset(before)[row] + multiset(added)[row];
    }
  }

  /** After a successful update the movie is linked to each requested genre exactly once
      and to nothing else, provided the request and the movie's current links hold no
      repeated genre id. */
  lemma UpdateLinksExactlyRequested(s: Store, req: MovieRequest)
    requires Distinct(Requested(req))
    requires forall g :: multiset(s.movieGenres)[MovieGenre(req.id, g)] <= 1
    ensures var t := Update(s, req);
      t.result.isSuccessful ==>
        forall g :: multiset(t.store.movieGenres)[MovieGenre(req.id, g)] == if g in Requested(req) then 1 else 0
  {
    var t := Update(s, req);
    if t.result.isSuccessful {
      SyncedOnce(s.movieGenres, t.store.movieGenres, req.id, Requested(req));
    }
  }

  lemma SyncedOnce(before: seq<MovieGenre>, after: seq<MovieGenre>, id: int, requested: seq<int>)
    requires Synced(before, after, id, requested)
    requires Distinct(requested)
    requires forall g :: multiset(before)[MovieGenre(id, g)] <= 1
    ensures forall g :: multiset(after)[MovieGenre(id, g)] == if g in requested then 1 else 0
  {
    DistinctOnce(requested);
    forall g ensures multiset(after)[MovieGenre(id, g)] == if g in requested then 1 else 0 {
      var row := MovieGenre(id, g);
      if g in requested && row in before {
        assert multiset(before)[row] > 0;
      } else if g !in requested {
        assert row !in after;
      }
    }
  }

  /** Synchronising links that already match the request changes nothing. */
  lemma SyncAgainChangesNothing(rows: seq<MovieGenre>, id: int, requested: seq<int>)
    requires forall g :: MovieGenre(id, g) in rows <==> g in requested
    ensures SyncGenres(rows, id, requested) == rows
  {
    var existing := GenreIdsOf(rows, id);
    forall row | row in rows ensures KeepLink(id, requested)(row) {
      if row.movieId == id {
        assert MovieGenre(id, row.genreId) == row;
      }
    }
    FilterKeepsAll(rows, KeepLink(id, requested));
    forall g | g in requested ensures !NotIn(existing)(g) {
      assert MovieGenre(id, g) in rows;
    }
    FilterDropsAll(requested, NotIn(existing));
    assert rows + [] == rows;
  }

  /** Applying the same successful update twice: the second application succeeds and
      changes nothing, since it finds no genre link to remove and none to add. */
  lemma UpdateIdempotent(s: Store, req: MovieRequest)
    ensures var t := Update(s, req);
      t.result.isSuccessful ==> Update(t.store, req) == Transition(t.store, Success(UpdatedMessage, req.id))
  {
    var t := Update(s, req);
    if t.result.isSuccessful {
      assert Synced(s.movieGenres, t.store.movieGenres, req.id, Requested(req));
      SecondUpdate(s, t.store, req);
    }
  }

  lemma SecondUpdate(s: Store, s2: Store, req: MovieRequest)
    requires !NameTaken(s, Trim(req.name), Some(req.id)) && req.id in s.movies
    requires s2.movies == s.movies[req.id := FromRequest(req)]
    requires forall g :: MovieGenre(req.id, g) in s2.movieGenres <==> g in Requested(req)
    ensures Update(s2, req) == Transition(s2, Success(UpdatedMessage, req.id))
  {
    NameFreeAfterUpdate(s, s2, req.id, Trim(req.name), FromRequest(req));
    UpdateChangesNothing(s2, req);
  }

  /** An update that finds the movie, its name free, its fields and its links already as
      requested succeeds without changing the store. */
  lemma UpdateChangesNothing(s: Store, req: MovieRequest)
    requires !NameTaken(s, Trim(req.name), Some(req.id)) && req.id in s.movies
    requires s.movies[req.id] == FromRequest(req)
    requires forall g :: MovieGenre(req.id, g) in s.movieGenres <==> g in Requested(req)
    ensures Update(s, req) == Transition(s, Success(UpdatedMessage, req.id))
  {
    SyncAgainChangesNothing(s.movieGenres, req.id, Requested(req));
    UnchangedWhenSynced(s, req);
  }

  lemma UnchangedWhenSynced(s: Store, req: MovieRequest)
    requires !NameTaken(s, Trim(req.name), Some(req.id)) && req.id in s.movies
    requires s.movies[req.id] == FromRequest(req)
    requires SyncGenres(s.movieGenres, req.id, Requested(req)) == s.movieGenres
    ensures Update(s, req) == Transition(s, Success(UpdatedMessage, req.id))
  {
    Table.SameValue(s.movies, req.id, FromRequest(req));
    SameStore(s, s.movies[req.id := FromRequest(req)], SyncGenres(s.movieGenres, req.id, Requested(req)));
  }

  lemma NameFreeAfterUpdate(s: Store, s2: Store, id: int, name: string, m: Movie)
    requires !NameTaken(s, name, Some(id))
    requires s2.movies == s.movies[id := m]
    ensures !NameTaken(s2, name, Some(id))
  {
    NameStillFree(s.movies, s2.movies, id, name);
  }

  /** Writing back what a store already holds leaves it as it was. */
  lemma SameStore(s: Store, movies: map<int, Movie>, rows: seq<MovieGenre>)
    requires movies == s.movies && rows == s.movieGenres
    ensures s.(movies := movies, movieGenres := rows) == s
  {
  }

  /** Changing only movie `id` cannot make a name taken by a movie other than `id`. */
  lemma NameStillFree(before: map<int, Movie>, after: map<int, Movie>, id: int, name: string)
    requires forall k :: k != id ==> (k in after <==> k in before)
    requires forall k :: k != id && k in after ==> after[k] == before[k]
    requires forall k :: k in before && k != id ==> before[k].name != name
    ensures forall k :: k in after && k != id ==> after[k].name != name
  {
  }

  /** The detail view and the list view agree: `Item(id)` shows `x` exactly when `x` is
      the row of the listing whose id is `id`. */
  lemma ItemInList(s: Store, id: int, x: MovieResponse)
    ensures Item(s, id) == Some(x) <==> x in List(s) && x.id == id
  {
    var r := List(s);
    ListedAsShown(s, r);
    ItemShown(s, id);
    Table.ListedIffViewed(s.movies, r, ResponseId, Shown(s), id, x);
  }

  function ResponseId(x: MovieResponse): int {
    x.id
  }

  /** A stored movie as the listing shows it, as a function of its id and record. */
  function Shown(s: Store): (int, Movie) -> MovieResponse {
    (k: int, m: Movie) => ToResponse(s, k, m)
  }

  /** The listing's own contract, restated through `ResponseId` and `Shown`. */
  lemma ListedAsShown(s: Store, r: seq<MovieResponse>)
    requires forall i :: 0 <= i < |r| ==> r[i].id in s.movies && r[i] == ToResponse(s, r[i].id, s.movies[r[i].id])
    requires forall id :: id in s.movies ==> exists i :: 0 <= i < |r| && r[i].id == id
    ensures forall i :: 0 <= i < |r| ==>
      ResponseId(r[i]) in s.movies && r[i] == Shown(s)(ResponseId(r[i]), s.movies[ResponseId(r[i])])
    ensures forall k :: k in s.movies ==> exists i :: 0 <= i < |r| && ResponseId(r[i]) == k
  {
    forall k | k in s.movies ensures exists i :: 0 <= i < |r| && ResponseId(r[i]) == k {
      var i :| 0 <= i < |r| && r[i].id == k;
      assert ResponseId(r[i]) == k;
    }
  }

  lemma ItemShown(s: Store, id: int)
    ensures Item(s, id) == if id in s.movies then Some(Shown(s)(id, s.movies[id])) else None
  {
  }

  /** A delete succeeds exactly when the id is stored, and afterwards it cannot be read
      back. */
  lemma DeleteThenItemAbsent(s: Store, id: int)
    ensures Delete(s, id).result.isSuccessful <==> id in s.movies
    ensures Item(Delete(s, id).store, id).None?
  {
  }
}
