# Movie catalogue services, modelled in Dafny

This project models the entity-service layer of an ASP.NET movie catalogue. There are six
services: directors, genres, groups, roles, movies and users. Each one wraps a small set of
business rules around a database.

The database is an in-memory `Store`:
- one `map<int, Record>` per entity, keyed by primary key;
- the two join-row sequences, `MovieGenre` and `UserRole`.

Every command (`Create`, `Update`, `Delete`) is a pure function from a store and a request
to a `Transition`. A transition is the new store plus the `CommandResponse` the service
returns. The queries (`List`, `Item`, `Edit`) are pure functions from the store to the
projected responses or requests.

The files:

- `options.dfy`, `seqs.dfy`, `ordering.dfy`, `table.dfy`: general building blocks.
  - `Option`.
  - Order-preserving `Filter`.
  - LINQ-style `OrderBy`/`ThenBy` comparators and an insertion sort.
  - Tables as maps: fresh ids, rows in ascending key, ordered rows, uniqueness of a key.
- `text.dfy`: .NET `String.Trim`, `String.IsNullOrWhiteSpace` and `String.Join`.
  - White space is the set that `Char.IsWhiteSpace` accepts.
  - `Trim` is characterised by `TrimmedFrom`: the result is the unique slice of the input
    that is surrounded by white space and neither starts nor ends with it.
- `domain.dfy`, `models.dfy`: the entity records and the request/response objects.
- `director_service.dfy`, `genre_service.dfy`, `group_service.dfy`, `role_service.dfy`,
  `movie_service.dfy`, `user_service.dfy`: one module per service.
- `catalog.dfy`: the six services behind one `Apply` over a `Command`. It proves two things:
  - a refused command changes nothing;
  - every command keeps the store invariant `Consistent`:
    - no two directors share a (first, last) name pair;
    - no two genres, groups, roles or movies share a name;
    - no two users share a user name;
    - every join row belongs to a stored movie or user.

Decisions that the source leaves to code this model cannot see:

- **Fresh ids.** A new record gets `1 + max(0, largest id)`. This stands in for the database's
  identity column, which `Service<T>.Create` relies on.
- **Unordered queries.** Where a query has no `OrderBy` of its own, it returns rows in
  ascending id. This applies to the Movie and User lists and to a director's movie names.
- **Sort order.** The collation behind `OrderBy(Name)` is not fixed. `List` takes a comparator
  `leq` that must be a total preorder (`Ordering.TotalPreorder`).
- **Error responses** carry id 0.
- **Time and money.** `DateTime` and `decimal` values are integers that are only copied.
  `DateTime.UtcNow` is the parameter `now` of `UserService.Create`.

## Model

| member | source | states |
|---|---|---|
| Text.Trim | APP/Services/GenreService.cs:72-76 | The trimmed key is the unique slice of the input surrounded by white space only, and it has no white space at either end |
| Text.TrimmedFromUnique | APP/Services/GenreService.cs:72-76 | At most one string is the trimmed form of a given string, so `Trim` is fully determined by `TrimmedFrom` |
| Text.TrimIdempotent | APP/Services/GroupService.cs:80-81 | Trimming an already trimmed key changes nothing, so a stored trimmed key compares equal to its re-trimmed form |
| Text.TrimIgnoresPadding | APP/Services/GenreService.cs:72 | Keys that differ only in leading or trailing white space trim to the same key, so the duplicate check treats them as one |
| Text.TrimOrNull | APP/Services/UserService.cs:112-118 | `s?.Trim()` keeps a null string null and trims a present one |
| Text.BlankIffTrimsToEmpty | APP/Services/UserService.cs:139 | A present string is null-or-white-space exactly when trimming leaves nothing of it |
| Text.Join | APP/Services/DirectorService.cs:43-45 | `String.Join` of no parts is empty, starts with the first part, and its length is the parts' lengths plus one separator between neighbours |
| Text.JoinAppend | APP/Services/MovieService.cs:39 | Joining one more part appends one separator and that part |
| Domain.FullName | APP/Models/DirectorResponse.cs:28 | A director's full name is the first name, one space, then the last name |
| Seqs.Filter | APP/Services/MovieService.cs:153-155 | `Where` keeps exactly the elements that satisfy the predicate, each as often as it occurred, in order |
| Seqs.FilterSingle | APP/Services/MovieService.cs:153-155 | A `Where` over one element keeps it exactly when it passes |
| Seqs.FilterAppend | APP/Services/MovieService.cs:153-155 | A `Where` over a concatenation is the concatenation of the two `Where`s, so survivors keep their order |
| Seqs.FilterKeepsAll | APP/Services/MovieService.cs:153-155 | A `Where` that every element passes returns the sequence unchanged |
| Seqs.FilterDropsAll | APP/Services/MovieService.cs:162-164 | A `Where` that no element passes returns nothing |
| Ordering.Insert | APP/Services/GenreService.cs:21 | Insertion into an ordered sequence keeps it ordered and adds exactly the one element, as a multiset |
| Ordering.SortBy | APP/Services/GenreService.cs:21 | `OrderBy` returns the same elements, as a multiset, ordered by the comparator |
| Ordering.ThenByPreorder | APP/Services/DirectorService.cs:22-23 | `OrderBy(...).ThenBy(...)` of two total preorders is again a total preorder |
| Table.FreshId | APP/Services/MovieService.cs:108-109 | The id a create assigns is positive, not in use, and larger than every stored id |
| Table.SortedKeys | APP/Services/MovieService.cs:19 | An unordered query visits every stored id exactly once, in ascending order |
| Table.Ordered | APP/Services/GroupService.cs:22 | An ordered query returns every stored row exactly once, ordered by the comparator |
| Table.InsertKeepsUnique | APP/Services/GenreService.cs:72-79 | Inserting a record whose key no stored record holds keeps keys distinct |
| Table.ReplaceKeepsUnique | APP/Services/GenreService.cs:88-97 | Replacing a record with one whose key no other record holds keeps keys distinct |
| DirectorService.NameTakenExceptSelf | APP/Services/DirectorService.cs:94-112 | The duplicate test that skips an id holds only if the plain test does, and holds whenever the plain test does and the skipped director lacks the pair; with distinct pairs, a director's own pair is never taken against it |
| DirectorService.MoviesOf | APP/Services/DirectorService.cs:21 | A director's `Movies` are exactly the stored movies that refer to it |
| DirectorService.MovieNames | APP/Services/DirectorService.cs:43-45 | One name per movie of the director, each the name of one of its movies, listed position by position in ascending movie id |
| DirectorService.ToResponse | APP/Services/DirectorService.cs:34-45 | Projects a director: the flag as "Yes"/"No", the movie count, and the movie names joined with ", " or "" when it has none |
| DirectorService.List | APP/Services/DirectorService.cs:18-47 | Every director once, ordered by last name and then by first name among equal last names |
| DirectorService.Item | APP/Services/DirectorService.cs:50-71 | Absent exactly when no director has the id; otherwise that director's projection |
| DirectorService.Edit | APP/Services/DirectorService.cs:74-87 | Absent exactly when no director has the id; otherwise its stored names and flag |
| DirectorService.Create | APP/Services/DirectorService.cs:90-104 | A taken trimmed name pair, compared case-sensitively, is refused with nothing changed; otherwise exactly one director is added under an unused id |
| DirectorService.Update | APP/Services/DirectorService.cs:108-124 | The duplicate check skips the updated id and runs before the not-found check; on success only that director's names and flag change |
| DirectorService.Delete | APP/Services/DirectorService.cs:127-141 | A missing id gives not-found and a director with movies is refused, both with nothing changed; otherwise exactly that director is removed |
| DirectorService.CreateKeepsNamesUnique | APP/Services/DirectorService.cs:94-103 | If no two directors share a (first, last) pair before a create, none do after it |
| DirectorService.UpdateKeepsNamesUnique | APP/Services/DirectorService.cs:112-123 | If no two directors share a (first, last) pair before an update, none do after it |
| DirectorService.UpdateKeepingNameSucceeds | APP/Services/DirectorService.cs:112 | Re-saving a director under its own name succeeds: a director never counts as its own duplicate |
| DirectorService.EditAfterCreate | APP/Services/DirectorService.cs:96-103 | Reading back a created director gives its new id, the trimmed names and the request's flag |
| DirectorService.PaddedNameRefused | APP/Services/DirectorService.cs:94-95 | A second create whose names differ only by surrounding white space is refused as a duplicate |
| DirectorService.DeleteRefusedIffMoviesListed | APP/Services/DirectorService.cs:127-141 | A delete of a listed director succeeds exactly when its listed movie count is zero |
| DirectorService.MoviesListedIffReferenced | APP/Services/DirectorService.cs:135 | `Movies.Count > 0` holds exactly when some stored movie refers to the director |
| DirectorService.DeleteLeavesNoMovies | APP/Services/DirectorService.cs:135-140 | After a successful delete no movie refers to the removed director |
| GenreService.NameTakenExceptSelf | APP/Services/GenreService.cs:72-88 | The duplicate test that skips an id holds only if the plain test does, and holds whenever the plain test does and the skipped genre lacks the name; with distinct names, a genre's own name is never taken against it |
| GenreService.List | APP/Services/GenreService.cs:18-36 | Every genre once, ordered by name |
| GenreService.Item | APP/Services/GenreService.cs:39-51 | Absent exactly when no genre has the id; otherwise its id and name |
| GenreService.Edit | APP/Services/GenreService.cs:54-65 | Absent exactly when no genre has the id; otherwise its id and name as a request |
| GenreService.Create | APP/Services/GenreService.cs:68-80 | A taken trimmed name is refused with nothing changed; otherwise one genre with the trimmed name is added under an unused id |
| GenreService.Update | APP/Services/GenreService.cs:84-98 | The duplicate check skips the updated id and runs before the not-found check; on success only that genre's name changes, to the trimmed one |
| GenreService.Delete | APP/Services/GenreService.cs:101-110 | Existence is the only guard: a stored genre is removed whatever refers to it |
| GenreService.CreateKeepsNamesUnique | APP/Services/GenreService.cs:72-79 | Genre names stay distinct across a create |
| GenreService.UpdateKeepsNamesUnique | APP/Services/GenreService.cs:88-97 | Genre names stay distinct across an update |
| GenreService.UpdateKeepingNameSucceeds | APP/Services/GenreService.cs:88 | Re-saving a genre under its own name succeeds |
| GenreService.EditAfterCreate | APP/Services/GenreService.cs:56-64 | Edit after a successful create returns the new id and the trimmed name |
| GenreService.PaddedNameRefused | APP/Services/GenreService.cs:72-73 | A second create whose name differs only by surrounding white space is refused |
| GenreService.DeleteThenItemAbsent | APP/Services/GenreService.cs:104-109 | A delete succeeds exactly when the genre exists, and the genre cannot be read back afterwards |
| RoleService.NameTakenExceptSelf | APP/Services/RoleService.cs:72-88 | The duplicate test that skips an id holds only if the plain test does, and holds whenever the plain test does and the skipped role lacks the name; with distinct names, a role's own name is never taken against it |
| RoleService.List | APP/Services/RoleService.cs:18-36 | Every role once, ordered by name |
| RoleService.Item | APP/Services/RoleService.cs:39-51 | Absent exactly when no role has the id; otherwise its id and name |
| RoleService.Edit | APP/Services/RoleService.cs:54-65 | Absent exactly when no role has the id; otherwise its id and name as a request |
| RoleService.Create | APP/Services/RoleService.cs:68-80 | A taken trimmed name is refused with nothing changed; otherwise one role with the trimmed name is added under an unused id |
| RoleService.Update | APP/Services/RoleService.cs:84-98 | The duplicate check skips the updated id and runs before the not-found check; on success only that role's name changes |
| RoleService.Delete | APP/Services/RoleService.cs:101-110 | Existence is the only guard: a stored role is removed whatever refers to it |
| RoleService.CreateKeepsNamesUnique | APP/Services/RoleService.cs:72-79 | Role names stay distinct across a create |
| RoleService.UpdateKeepsNamesUnique | APP/Services/RoleService.cs:88-97 | Role names stay distinct across an update |
| RoleService.UpdateKeepingNameSucceeds | APP/Services/RoleService.cs:88 | Re-saving a role under its own name succeeds |
| RoleService.EditAfterCreate | APP/Services/RoleService.cs:56-64 | Edit after a successful create returns the new id and the trimmed name |
| RoleService.PaddedNameRefused | APP/Services/RoleService.cs:72-73 | A second create whose name differs only by surrounding white space is refused |
| RoleService.DeleteThenItemAbsent | APP/Services/RoleService.cs:104-109 | A delete succeeds exactly when the role exists, and the role cannot be read back afterwards |
| GroupService.NameTakenExceptSelf | APP/Services/GroupService.cs:76-93 | The duplicate test that skips an id holds only if the plain test does, and holds whenever the plain test does and the skipped group lacks the name; with distinct names, a group's own name is never taken against it |
| GroupService.UsersOf | APP/Services/GroupService.cs:21 | A group's `Users` are exactly the stored users that refer to it |
| GroupService.UsersCountedIffHasUsers | APP/Services/GroupService.cs:115 | `Users.Count > 0` holds exactly when some stored user refers to the group, the test `Delete` refuses on |
| GroupService.FromRequest | APP/Services/GroupService.cs:78-82 | A group from a request has the trimmed name and the trimmed description, and a missing description stays missing |
| GroupService.List | APP/Services/GroupService.cs:18-38 | Every group once, ordered by name |
| GroupService.Item | APP/Services/GroupService.cs:41-54 | Absent exactly when no group has the id |
| GroupService.ItemInList | APP/Services/GroupService.cs:18-54 | The item query returns a response for an id exactly when the list query shows that response under that id |
| GroupService.DeleteThenItemAbsent | APP/Services/GroupService.cs:107-121 | After a successful delete the group cannot be read back; after a refused one it reads back as before |
| GroupService.Edit | APP/Services/GroupService.cs:57-69 | Absent exactly when no group has the id; otherwise its name and description as a request |
| GroupService.Create | APP/Services/GroupService.cs:72-85 | A taken trimmed name is refused with nothing changed; otherwise one group is added under an unused id |
| GroupService.Update | APP/Services/GroupService.cs:89-104 | The duplicate check runs before the not-found check; on success only that group's name and description change, both trimmed |
| GroupService.Delete | APP/Services/GroupService.cs:107-121 | A missing id gives not-found and a group with users is refused, both with nothing changed; otherwise exactly that group is removed |
| GroupService.CreateKeepsNamesUnique | APP/Services/GroupService.cs:76-84 | Group names stay distinct across a create |
| GroupService.UpdateKeepsNamesUnique | APP/Services/GroupService.cs:93-101 | Group names stay distinct across an update |
| GroupService.UpdateKeepingNameSucceeds | APP/Services/GroupService.cs:93 | Re-saving a group under its own name succeeds |
| GroupService.EditAfterCreate | APP/Services/GroupService.cs:57-84 | Reading back a created group gives the trimmed name and description, and re-saving that read-back reproduces the stored group |
| GroupService.RequestFixed | APP/Services/GroupService.cs:78-82 | Turning a stored group back into a request and that request into a group gives the same group |
| GroupService.PaddedNameRefused | APP/Services/GroupService.cs:76-77 | A second create whose name differs only by surrounding white space is refused |
| GroupService.DeleteLeavesNoMembers | APP/Services/GroupService.cs:110-120 | A delete succeeds exactly when the group exists and has no users, and afterwards no user refers to it |
| MovieService.NameTakenExceptSelf | APP/Services/MovieService.cs:97-134 | The duplicate test that skips an id holds only if the plain test does, and holds whenever the plain test does and the skipped movie lacks the name; with distinct names, a movie's own name is never taken against it |
| MovieService.Requested | APP/Services/MovieService.cs:150 | A missing genre id list counts as an empty one |
| MovieService.FromRequest | APP/Services/MovieService.cs:100-106 | A movie from a request has the trimmed name, and release date, revenue and director are copied |
| MovieService.GenreIdsOf | APP/Services/MovieService.cs:40 | `GenreIds` holds each of the movie's join-row genre ids once per row, and no others |
| MovieService.Links | APP/Services/MovieService.cs:116-123 | One join row for the movie per listed genre id, in order |
| MovieService.LinkedNames | APP/Services/MovieService.cs:39 | Every name is the name of a stored genre the movie links to, and every such genre's name appears. When all linked genres are stored, the names follow `GenreIds` position by position |
| MovieService.DirectorName | APP/Services/MovieService.cs:38 | "First Last" of the linked director when there is one, "" otherwise |
| MovieService.ToResponse | APP/Services/MovieService.cs:25-40 | Projects a movie with its director name, its genre ids as a multiset of its join rows, and its genre names joined with ", " |
| MovieService.NoLinksNoNames | APP/Services/MovieService.cs:39-40 | A movie with no genre ids has no genre names |
| MovieService.List | APP/Services/MovieService.cs:17-42 | Every movie once, in ascending id, each as its projection |
| MovieService.Item | APP/Services/MovieService.cs:44-74 | Absent exactly when no movie has the id; otherwise that movie's projection |
| MovieService.ItemInList | APP/Services/MovieService.cs:17-74 | The item query returns a projection for an id exactly when the list query shows that projection under that id |
| MovieService.DeleteThenItemAbsent | APP/Services/MovieService.cs:180-197 | A delete succeeds exactly when the movie exists, and the movie cannot be read back afterwards |
| MovieService.Edit | APP/Services/MovieService.cs:76-93 | Absent exactly when no movie has the id; otherwise its fields and, as a multiset, its linked genre ids |
| MovieService.CreatedLinks | APP/Services/MovieService.cs:112-127 | Create links the new movie once per occurrence of each positive requested id, and adds nothing for a missing or empty list |
| MovieService.Create | APP/Services/MovieService.cs:95-130 | A taken trimmed name is refused with nothing changed; otherwise one movie is added under an unused id, with its join rows appended |
| MovieService.SyncGenres | APP/Services/MovieService.cs:149-173 | After the sync the movie is linked to exactly the requested ids. Other movies' rows are untouched. A link in both the old and new sets keeps its count. A new link is added once per request occurrence |
| MovieService.Update | APP/Services/MovieService.cs:132-178 | The duplicate check runs before the not-found check; on success the fields are overwritten and the links synchronised as `SyncGenres` states |
| MovieService.Delete | APP/Services/MovieService.cs:180-197 | A missing id gives not-found with nothing changed; otherwise the movie and all its join rows go, and no other row does |
| MovieService.DistinctOnce | APP/Services/MovieService.cs:162-173 | A list without repeats holds each of its ids exactly once |
| MovieService.CreateKeepsNamesUnique | APP/Services/MovieService.cs:97-109 | Movie names stay distinct across a create |
| MovieService.UpdateKeepsNamesUnique | APP/Services/MovieService.cs:134-146 | Movie names stay distinct across an update |
| MovieService.CreateKeepsLinksAttached | APP/Services/MovieService.cs:109-127 | A create never leaves a join row pointing at a missing movie |
| MovieService.UpdateKeepsLinksAttached | APP/Services/MovieService.cs:149-173 | An update never leaves a join row pointing at a missing movie |
| MovieService.DeleteKeepsLinksAttached | APP/Services/MovieService.cs:188-195 | A delete removes the movie's rows with it, so no join row points at a missing movie |
| MovieService.EditAfterCreate | APP/Services/MovieService.cs:76-127 | Reading back a created movie gives the trimmed name, the copied fields, and as a multiset exactly the positive requested genre ids |
| MovieService.UpdateLinksExactlyRequested | APP/Services/MovieService.cs:149-173 | With no repeats in the request or the current links, each requested genre ends up linked exactly once and nothing else stays linked |
| MovieService.SyncAgainChangesNothing | APP/Services/MovieService.cs:152-173 | Once the links match the request, both the remove set and the add set are empty |
| MovieService.UpdateIdempotent | APP/Services/MovieService.cs:132-178 | Repeating a successful update succeeds and leaves the store as it is |
| MovieService.UpdateChangesNothing | APP/Services/MovieService.cs:132-178 | An update that finds the name free and the fields and links already as requested succeeds and leaves the store as it is |
| UserService.NameTakenExceptSelf | APP/Services/UserService.cs:105-131 | The duplicate test that skips an id holds only if the plain test does, and holds whenever the plain test does and the skipped user lacks the user name; with distinct user names, a user's own name is never taken against it |
| UserService.FromRequest | APP/Services/UserService.cs:108-123 | A created user has the trimmed user name, the trimmed or missing names and address, the verbatim password, and is registered at `now` |
| UserService.Updated | APP/Services/UserService.cs:138-152 | A blank password keeps the stored one and any other replaces it. The registration date is kept. Every other field is set as a create would set it |
| UserService.GroupName | APP/Services/UserService.cs:42 | The stored group's name, or "" when the user has none |
| UserService.ToResponse | APP/Services/UserService.cs:21-42 | Projects a user: id, user name, first and last name, gender, birth and registration dates, score, activity and address copied, plus its group name; the response has no password field |
| UserService.List | APP/Services/UserService.cs:17-44 | Every user once, in ascending id, each as its projection |
| UserService.Item | APP/Services/UserService.cs:46-78 | Absent exactly when no user has the id; otherwise that user's projection |
| UserService.ItemInList | APP/Services/UserService.cs:17-78 | The item query returns a projection for an id exactly when the list query shows that projection under that id |
| UserService.DeleteThenItemAbsent | APP/Services/UserService.cs:158-170 | A delete succeeds exactly when the user exists, and the user cannot be read back afterwards |
| UserService.AsRequest | APP/Services/UserService.cs:85-99 | The edit form holds every editable field of the stored user and no password |
| UserService.Edit | APP/Services/UserService.cs:80-101 | Absent exactly when no user has the id; the result never carries the stored password |
| UserService.Create | APP/Services/UserService.cs:103-127 | A taken trimmed user name is refused with nothing changed; otherwise one user is added under an unused id |
| UserService.Update | APP/Services/UserService.cs:129-156 | The duplicate check skips the updated id and runs before the not-found check; on success only that user changes, as `Updated` states |
| UserService.Delete | APP/Services/UserService.cs:158-170 | A missing id gives not-found and commits nothing; otherwise the user and all its UserRole rows go, and no other row does |
| UserService.CreateKeepsNamesUnique | APP/Services/UserService.cs:105-126 | User names stay distinct across a create |
| UserService.UpdateKeepsNamesUnique | APP/Services/UserService.cs:131-155 | User names stay distinct across an update |
| UserService.EditAfterCreate | APP/Services/UserService.cs:80-126 | Reading back a created user gives its fields without the password, and saving that form unchanged gives back the stored user |
| UserService.ReadBackFixed | APP/Services/UserService.cs:138-152 | Saving the edit form of a freshly created user keeps its password and changes no field |
| UserService.WhiteSpacePasswordKept | APP/Services/UserService.cs:139-142 | A password made only of white space counts as blank, so the stored one is kept |
| UserService.UpdateIdempotent | APP/Services/UserService.cs:129-156 | Repeating a successful update succeeds and leaves the store as it is |
| UserService.UpdatedTwice | APP/Services/UserService.cs:138-152 | Applying the same update to a user twice gives the once-updated user |
| UserService.CreateKeepsRolesAttached | APP/Services/UserService.cs:103-127 | A create never leaves a UserRole row pointing at a missing user |
| UserService.UpdateKeepsRolesAttached | APP/Services/UserService.cs:129-156 | An update never leaves a UserRole row pointing at a missing user |
| UserService.DeleteKeepsRolesAttached | APP/Services/UserService.cs:160-169 | A delete removes the user's UserRole rows with it, so no row points at a missing user |
| Catalog.Apply | APP/Services/MovieService.cs:95-197 | Spans the Create, Update and Delete of all six services; the cited range is the movie commands. A refused command of any service leaves the store unchanged and reports id 0 |
| Catalog.ApplyKeepsConsistent | APP/Services/DirectorService.cs:94-123 | Spans the Create, Update and Delete of all six services; the cited range is the director commands, and each service's own range is cited on its `*Keeps*` rows. Every command of every service keeps the store invariant: all uniqueness keys stay distinct and every join row stays attached |

## Left out

- **Presentation and startup.** The MVC controllers, routing, dependency injection, SQLite setup and migrations are presentation and configuration, with no business logic.
- **EF Core mechanics.** This covers `Include`/`ThenInclude`, tracked and untracked queries, and staging against `Save()`. Each successful command is one atomic store transition.
  - The `UserRole` removal that `UserService.Delete` stages before its not-found check is never saved when that check fails, so the model leaves the store unchanged in that case.
- **Formatting.** Date and currency strings (`ToString("MM/dd/yyyy")`, `ToShortDateString`, `"C2"`) depend on culture and the runtime library. Response fields that only hold such strings are not modelled.
- **Guid generation, and the `Service<T>` and `Entity` base classes.** These classes are not part of this model.
  - Their `Create` is modelled as assigning an unused id, their `Update` as replacing the record, and their `Delete` as removing it.
  - The model reuses the largest id after it is deleted. A database identity column would not.
- **Clock and decimals.** `DateTime.UtcNow` is the parameter `now`. `decimal` and `DateTime` values are integers that are only copied.
- **String collation.** `List` takes the comparator as a parameter, because the database collation is not part of this model.
- **Referential cascades in the database.** Genre and Role deletes remove only the record, as the services do. Any cascade configured in the database context is not modelled.
  - MovieService.LinkedNames: a `MovieGenre` row whose genre is missing contributes no name. In the source, `mg.Genre.Name` would fail on such a row.
- **Null required strings.** Names and user names are plain strings, as the request validation guarantees. A null one would make `.Trim()` throw in the source.
- **Password hashing** does not exist in the source.
- **Concurrency.** Commands are applied one at a time. In the source the duplicate check (for example GenreService.cs:72) and the insert (GenreService.cs:78) are separate database round trips, and no unique index is visible. Two concurrent creates of one name could both succeed there. `Catalog.Consistent` and the `*KeepsNamesUnique` lemmas hold only for commands applied one at a time.
- **Database foreign keys.** The conventional foreign keys on `MovieGenre.GenreId`, `Movie.DirectorId` and `User.GroupId` live in a database context that is not part of this model.
  - `MovieService.Create` with a genre id that no genre has succeeds in the model and stores a join row pointing at no genre. In the source such a constraint would fail at the second `Save` (MovieService.cs:126), after the movie itself was committed (MovieService.cs:109).
  - The model treats each command as one atomic transition, so it has no state where the movie is stored without its links.
- DirectorService.MovieNames: the order of a director's `Movies` navigation is unspecified in the source. The model lists the names in ascending movie id.
- MovieService.UpdateLinksExactlyRequested: states exactly-once links only when neither the request nor the current links repeat a genre id. With repeats the source adds or keeps duplicate rows, which `SyncGenres` still describes as multiset counts.
