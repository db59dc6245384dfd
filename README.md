# KMDB catalog and review ledger, in Dafny

KMDB is a movie database web API. Admins (superusers) maintain a catalog of movies, each
linked to genres. Critics (staff accounts) write at most one review per movie, rating it
from 1 to 10 stars. Anyone may browse the catalog and search it by title. Only critics
and admins may list `/reviews/`, and a critic's list holds only their own reviews; any
authenticated read of a movie carries all of that movie's reviews. Every request goes through
the same steps: the permission class says who may use which verb, the view looks up the
object, the serializer validates the body, and the store then changes its tables.

This project models that core:

- `Permissions` (permissions.dfy): the two permission classes as pure decisions over the
  verb and the caller's `is_staff` / `is_superuser` flags. Also the framework's 401/403
  split, and the intended access table (reads open to everyone, movie writes for admins
  only, review writes for critics only, the review list for admins and critics; guests get
  401 and everyone else 403) proved exhaustively against both policies.
- `Models` (models.dfy): the three tables as datatypes (`Movie`, `Genre`, `Review`, with
  nullable foreign keys). Also the field constraints (stars 1..10, CharField lengths) and
  the table invariants.
- `Search` (search.dfy): the title search, a case-insensitive substring filter.
- `Serializers` (serializers.dfy): the genre find-or-create loop as a function over the
  genre table, the duplicate-review check, and the review update applied to a row.
- `Store` (store.dfy): class `Catalog` holds the tables and the auto-increment counters as
  fields. Its methods are the serializers' mutating operations and the ORM's CASCADE and
  PROTECT rules. Every method keeps `Valid()`: keys ascend below their counters, genre
  names are unique, stored stars are in range, and every reference points at a stored row.
- `Views` (views.dfy): the request handlers. Each one runs permission check, then lookup,
  then validation, then store operation, and reports the first error. The reads are
  functions over the tables; the writes are methods on a `Catalog`.
- `Seqs` and `Outcomes` (seqs.dfy, outcomes.dfy): an order-preserving filter, a first-match
  search, pairwise invariants, and the `Option`, `Result` and error types.

Errors are kinds, not status codes: `AuthRequired` (401), `Forbidden` (403), `NotFound`
(404), `Invalid` (a validation error), `Duplicate(detail)` (the already-reviewed error)
and `Protected` (a PROTECT refusal).

The invariant "at most one review per (critic, movie)" (`OneReviewPerPair`) is kept
outside `Valid()`, because the review update as written can break it (see Findings).
Creating and deleting reviews and movies preserve it, and so does the corrected update.

In two places the code does not do what the API is meant to do:

- A critic is meant to edit only their own review of the movie in the path, found by
  (critic, movie). The code finds the review by its own key. `Views.PutReview` models the
  code, and `Views.PutOwnReview` models the intended lookup.
- A duplicate review is meant to be a business-rule error (422), distinct from field
  validation (400). The code raises the duplicate as an ordinary `ValidationError`, and
  movies/serializers.py:8 gives every `ValidationError` the status 422, field errors
  included. Here the model does not follow the code: it keeps `Duplicate` (carrying the
  code's message) and `Invalid` as separate error kinds, and it does not model status
  codes.

## Model

| member | source | states |
|---|---|---|
| Permissions.RoleOf | utils/permissions.py:12-19 | the superuser flag takes precedence over the staff flag: admin iff superuser, critic iff staff and not superuser, guest iff anonymous |
| Permissions.IsSuperUserOrReadOnly | utils/permissions.py:4-9 | allowed iff the verb is safe or the caller is an admin |
| Permissions.IsCriticoUser | utils/permissions.py:12-19 | a safe verb is allowed iff the caller is an admin or a critic; any other verb iff the caller is a critic |
| Permissions.Authorize | utils/permissions.py:4-19 | passes iff the policy allows; a refusal is AuthRequired exactly for anonymous callers and Forbidden exactly for authenticated ones |
| Permissions.MatrixHolds | utils/permissions.py:4-19 | for every action, verb and caller, the policies give the verdict of the access table (reads open; movie writes admin only; review writes critic only; review list admin and critic; guests 401, the rest 403) |
| Permissions.CatalogReadsOpen | utils/permissions.py:5-6 | every safe verb passes the catalog policy for every caller, anonymous included |
| Permissions.SuperuserPrecedence | utils/permissions.py:9 | an account with both flags may write movies and is refused (403) every review write |
| Permissions.AnonymousWritesNeedAuth | utils/permissions.py:19 | an anonymous write is refused with AuthRequired under both policies |
| Models.ValidStars | movies/models.py:14-16 | the stars validators: at least 1 and at most 10 |
| Models.ValidMovieFields | movies/models.py:6-10 | each text column is non-blank and within its maximum length |
| Models.MovieKeyUnique | movies/models.py:5-10 | two different rows of a movie table never share a key |
| Models.ReviewKeyUnique | movies/models.py:13-23 | two different rows of a review table never share a key |
| Models.MovieLookup | movies/views.py:66 | a movie key is stored iff the primary-key lookup finds a row |
| Models.ReviewLookup | movies/views.py:58-60 | a review key is stored iff the primary-key lookup finds a row |
| Seqs.Filter | movies/views.py:53 | the filtered rows are no more than the table and all satisfy the condition |
| Seqs.FilterCount | movies/views.py:53 | the filter keeps every occurrence of an accepted row and drops every other row |
| Seqs.MemberOfFilter | movies/views.py:53 | a row is in the result iff it is in the table and satisfies the condition |
| Seqs.FilterPairwise | movies/views.py:53 | filtering keeps every pairwise invariant of the table (key order, name uniqueness, one review per pair) |
| Seqs.IndexWhere | movies/serializers.py:64 | the result is the first position whose row matches, and it is absent iff no row matches |
| Search.Contains | movies/views.py:20-28 | true iff the needle occurs at some offset of the text |
| Search.TitleSearch | movies/views.py:20-28 | a movie is selected iff it is stored and its lower-cased title contains the lower-cased query; no row is selected more often than it is stored |
| Search.EmptyQuerySelectsAll | movies/views.py:20-28 | an empty title query selects every movie |
| Search.QueryCaseIrrelevant | movies/views.py:20-28 | lower-casing the query does not change the result |
| Search.LiberdadeSelectsTwo | movies/views.py:20-28 | the query "liberdade" over the three test titles selects the second and third movie, in order |
| Serializers.FindOrCreate | movies/serializers.py:64-69 | one loop step: the first genre carrying the name is reused, and otherwise a genre with that name is created under the next key (its properties are FindOrCreateSound) |
| Serializers.Resolve | movies/serializers.py:63-69 | the whole loop, one find-or-create step per payload name from first to last (its properties are ResolveSound, ResolveReuses, ResolveLinksExactlyNamed and ResolveFromEmpty) |
| Serializers.FindOrCreateSound | movies/serializers.py:64-69 | one loop step keeps the genre table valid, only appends, links a row carrying the payload name, and creates nothing when the name exists |
| Serializers.RowsDetermined | movies/serializers.py:64-69 | in a genre table a name, and a key, each pick out at most one row |
| Serializers.ResolveSound | movies/serializers.py:63-69 | the whole loop keeps genre names unique, only appends rows, and links one genre carrying each payload name, in payload order |
| Serializers.ResolveReuses | movies/serializers.py:64-66 | a payload name that an existing genre carries is linked to that genre |
| Serializers.ResolveLinksExactlyNamed | movies/serializers.py:63-69 | a genre of the resulting table is linked iff its name is in the payload |
| Serializers.ResolveFromEmpty | movies/serializers.py:63-69 | on an empty genre table, distinct names are created in payload order with consecutive keys |
| Serializers.DramaIsShared | movies/serializers.py:63-69 | two movies both listing "Drama" link the same genre key, and the table holds three genres |
| Serializers.AlreadyReviewed | movies/serializers.py:32-34 | true iff a stored review has this critic and this movie |
| Serializers.Patched | movies/serializers.py:41-43 | ReviewSerializer.update on one row: each field the body gives replaces the stored one, the others stay, and the caller becomes the critic |
| Serializers.ReviewBodyValid | movies/models.py:14-17 | a full body needs stars, text and spoilers, a partial one none of them; given stars are within 1..10 and given text is not blank |
| Serializers.ValidGenreNames | movies/models.py:27 | every nested genre name is non-blank and at most 255 characters, the CharField check of GenresSerializer |
| Serializers.PatchById | movies/serializers.py:41-43 | the update keeps every key and every other row, and makes the caller the critic of the updated row |
| Serializers.SamePairsKeepOnePerPair | movies/serializers.py:41-43 | an update that leaves every row's critic and movie as they were keeps one review per pair |
| Store.CascadeConsistent | movies/models.py:20-22 | deleting a movie with its links and reviews leaves a consistent catalog |
| Store.CascadeKeepsReviews | movies/models.py:20-22 | the reviews CASCADE keeps are exactly those of other movies, still form a review table, and keep one review per pair |
| Store.AppendKeepsReviews | movies/serializers.py:37-39 | inserting under the next key keeps the review table, and keeps one review per pair when the pair is new |
| Store.Catalog.constructor | movies/models.py:1-29 | an empty, valid catalog |
| Store.Catalog.DeleteAccount | movies/models.py:23 | an account that some review names as critic is not deleted (Protected); a missing one is NotFound; otherwise only that account goes |
| Store.Catalog.LinkGenre | movies/serializers.py:64-69 | one loop step is find-or-create on the genre table plus one link to the movie |
| Store.Catalog.AddGenres | movies/serializers.py:63-69 | the loop leaves the genre table as the find-or-create function computes it and adds a link to the movie for each resolved genre |
| Store.Catalog.CreateMovie | movies/serializers.py:59-71 | the movie is appended under the next key, then the genre loop runs for it |
| Store.Catalog.UpdateMovieFields | movies/views.py:36-37 | the scalar fields of the movie with that key are replaced; other movies, genres, links and reviews are unchanged |
| Store.Catalog.UpdateMovie | movies/serializers.py:73-84 | the genre loop runs on the movie and then its scalar fields are replaced; links are only ever added |
| Store.Catalog.DeleteMovie | movies/models.py:20-22 | the movie, its links and every review of it are removed; one review per pair is preserved |
| Store.Catalog.CreateReview | movies/serializers.py:31-39 | a second review of the movie by the critic is refused with "You already made this review." and nothing stored; otherwise exactly one review is appended with the caller as critic; one review per pair is preserved |
| Store.Catalog.UpdateReview | movies/serializers.py:41-43 | the row with that key gets the body's fields and the caller as critic; every other row is unchanged |
| Views.ReviewsVisible | movies/views.py:33-39 | get_serializer_class picks the serializer with nested reviews iff the caller is authenticated and the verb is not POST |
| Views.RenderMovie | movies/views.py:33-39 | the response carries the movie's linked genres, and carries its reviews iff the caller is authenticated and the verb is not POST |
| Views.RenderedGenresDistinct | movies/models.py:29 | a movie's genre list repeats no genre and no name |
| Views.ListMovies | movies/views.py:20-31 | always answered; the shown movies are exactly the title search's result, in table order, each rendered for the caller |
| Views.DetailFoundIff | movies/views.py:23-28 | the detail lookup, which runs the title search first, finds the key iff a stored movie has that key and a title the query matches; a found key is a stored key |
| Views.DetailWithoutQuery | movies/views.py:23-28 | without a title parameter the detail lookup finds exactly the stored keys |
| Views.RetrieveMovie | movies/views.py:23-39 | NotFound iff no stored movie has the key and a title the query matches; otherwise that movie, rendered for the caller |
| Views.ScopeReviews | movies/views.py:49-55 | a superuser gets the whole table in stored order; anyone else exactly the reviews whose critic is the caller |
| Views.ListReviews | movies/views.py:42-55 | answered iff the caller is a superuser or staff; otherwise Forbidden or, when anonymous, AuthRequired; the answer is the caller's scope |
| Views.CriticListsOwn | movies/views.py:52-53 | a critic's list holds exactly the critic's own reviews |
| Views.OthersCannotList | movies/views.py:47 | a regular user is refused the list (Forbidden) and an anonymous caller must authenticate |
| Views.ReadShapes | movies/views.py:33-39 | an anonymous read omits reviews; an authenticated read carries every review of the movie |
| Views.PostMovie | movies/views.py:23-31 | admins only; invalid fields or genre names are Invalid with nothing stored; an admin's valid request always succeeds, creating the movie and its genres and rendering it without reviews; the movie key counter advances by one, the genre counter as the genre loop leaves it, and the other counters stay |
| Views.PutMovie | movies/views.py:23-37 | admins only; NotFound unless the detail lookup (key and title filter) finds the movie; Invalid for bad fields; an admin's valid request on a found movie always succeeds, and only that movie's scalar fields change; no table other than the movies and no key counter changes |
| Views.DeleteMovieRequest | movies/views.py:23-31 | admins only; NotFound unless the detail lookup finds the movie; an admin's request on a found movie always succeeds and deletes it with CASCADE; genres, accounts and every key counter stay |
| Views.PostReview | movies/views.py:65-70 | critics only; NotFound for a missing movie before any other check; Invalid for a bad body; Duplicate for a second review; a critic's valid first review of a stored movie always succeeds, storing exactly that review by the caller under the next review key, which advances by one; the other tables and counters stay |
| Views.MovieRefValid | movies/models.py:20-22 | a movie key given in a review body must name a stored movie, the foreign-key field's check; an absent or null key passes |
| Views.PutReview | movies/views.py:58-63 | critics only; NotFound unless a review has the URL key as its own key; Invalid for a bad body; a critic's valid update of a stored key always succeeds, and that row is updated and attributed to the caller; the other tables and every key counter stay |
| Views.OwnReviewIndex | movies/views.py:58-60 | the corrected lookup finds a position exactly when the caller has reviewed the movie, and that row is the caller's review of it |
| Views.PatchKeepsPairs | movies/serializers.py:41-43 | updating the caller's own review with the movie pinned changes no row's pair, so one review per pair is kept |
| Views.PutOwnReview | movies/views.py:58-63 | the corrected update: NotFound unless the caller reviewed the movie of the path; Invalid for a bad body; a valid update of the caller's own review always succeeds; the updated row is the first review in the table by the caller of that movie, patched with the movie pinned, and it alone changes; no other table or key counter changes, and one review per pair is preserved |
| Views.PutByKeySplitsPair | movies/views.py:58-60 | the update as written can leave a critic with two reviews of one movie |

## Left out

- URL routing is not modelled. The route file imports a view the views module does not
  define, and mounts a view set without an action map. The handlers model what the
  movie view set's list, create, retrieve, update and destroy actions do.
- Account creation, password hashing, login and token issuance are not modelled. A caller
  is "anonymous" or "an existing account with two flags". `Catalog.AddAccount` only
  hands out keys.
- HTTP status codes and the JSON shape (nested critic names, write-only movie key) are not
  modelled. Errors are kinds.
- The framework's SearchFilter is simplified: no splitting of the query into terms, and
  no Unicode case folding. Lower-casing covers ASCII letters only. An absent `title`
  parameter is the empty query.
- A body that is not well-typed JSON (stars "wrong entry") is not modelled. Such bodies are
  outside the `ReviewBody` and `MovieFields` types. The serializer reports them as
  invalid at the validation step. CharField whitespace trimming is not modelled either.
- The storage range of the `classification` integer column is not modelled.
- PATCH on movies (a partial update through the nested serializer) is not modelled. Only PUT is.
- Concurrent requests are not modelled. The model is sequential, so the check-then-insert
  race of the duplicate-review check is out of scope.
- The ORM's own `create` does not run field validators, so the stars range holds for rows
  written through the API only. Rows written directly through the ORM are not modelled.
- `Catalog.DeleteMovie` does not require the key to exist: deleting a missing key changes
  nothing. The handler checks the key first and answers NotFound.
- Views.ListMovies: lists the movies in table order. The framework's query set has no
  explicit ordering, so that order is not actually guaranteed.

## Findings

| source | as written | input that shows it | evidently intended | confidence | as-written member | corrected member |
|---|---|---|---|---|---|---|
| movies/views.py:58-60 | PUT /movies/{pk}/review/ uses the default update lookup on the whole review table. It finds the review whose own key is the path's pk, with no ownership check, and the update then makes the caller its critic. | Reviews 1 (critic 2, movie 1) and 2 (critic 3, movie 1). Critic 3 PUTs to /movies/1/review/. Review 1 becomes critic 3's, so critic 3 now has two reviews of movie 1. | Update the caller's own review of the movie in the path, keeping the movie pinned, so each (critic, movie) pair keeps at most one review. | high for the lookup, medium for intent; not executed | Views.PutReview, Views.PutByKeySplitsPair | Views.PutOwnReview |
