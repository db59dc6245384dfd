/** The request handlers of movies/views.py over the catalog: each runs the framework's
    permission check, then the object lookup, then the serializer's validation, then the
    store operation, and either answers with the rendered rows or reports the first error. */
module Views {
  import opened Outcomes
  import opened Seqs
  import opened Permissions
  import opened Models
  import opened Search
  import opened Serializers
  import opened Store

  /** MovieView.get_serializer_class: the serializer with nested reviews serves every
      authenticated request except a POST. */
  predicate ReviewsVisible(c: Caller, m: HttpMethod) {
    c.Authenticated() && m != POST
  }

  /** A movie as the response carries it: its columns, its genres and, with the nested
      serializer, its reviews. */
  datatype MovieOut = MovieOut(movie: Movie, genres: seq<Genre>, reviews: Option<seq<Review>>)

  /** The genre rows joined to `movie` by the movie-genre table. */
  function LinkedTo(links: set<(nat, nat)>, movie: nat): Genre -> bool {
    (g: Genre) => (g.id, movie) in links
  }

  /** Serializing one movie: the genres it is linked to, in table order, and, when the nested
      serializer is chosen, the reviews whose movie it is. */
  function RenderMovie(m: Movie, gs: seq<Genre>, links: set<(nat, nat)>, rs: seq<Review>,
                       c: Caller, verb: HttpMethod): (out: MovieOut)
    ensures out.movie == m
    ensures forall g :: g in out.genres <==> g in gs && (g.id, m.id) in links
    ensures out.reviews.Some? <==> c.Authenticated() && verb != POST
    ensures out.reviews.Some? ==> forall r :: r in out.reviews.value <==> r in rs && r.movie == Some(m.id)
  {
    var genres := Filter(gs, LinkedTo(links, m.id));
    forall g ensures g in genres <==> g in gs && (g.id, m.id) in links {
      MemberOfFilter(gs, LinkedTo(links, m.id), g);
    }
    if ReviewsVisible(c, verb) then
      var own := Filter(rs, OnMovie(Some(m.id)));
      forall r ensures r in own <==> r in rs && r.movie == Some(m.id) {
        MemberOfFilter(rs, OnMovie(Some(m.id)), r);
      }
      MovieOut(m, genres, Some(own))
    else
      MovieOut(m, genres, None)
  }

  /** A movie's genres form a set: the rendered list repeats no genre and no genre name. */
  lemma RenderedGenresDistinct(m: Movie, gs: seq<Genre>, next: nat, links: set<(nat, nat)>,
                               rs: seq<Review>, c: Caller, verb: HttpMethod)
    requires GenreTable(gs, next)
    ensures Pairwise(RenderMovie(m, gs, links, rs, c, verb).genres, GenresOrdered)
  {
    FilterPairwise(gs, LinkedTo(links, m.id), GenresOrdered);
  }

  /** The movies a list of responses shows, in order. */
  function Shown(out: seq<MovieOut>): seq<Movie> {
    seq(|out|, i requires 0 <= i < |out| => out[i].movie)
  }

  /** GET /movies/?title=...: open to every caller; the movies the title search selects, each
      rendered as the caller's serializer renders it. An absent parameter is the empty query. */
  function ListMovies(ms: seq<Movie>, gs: seq<Genre>, links: set<(nat, nat)>, rs: seq<Review>,
                      c: Caller, query: string): (res: Result<seq<MovieOut>>)
    ensures res.Ok?
    ensures Shown(res.value) == TitleSearch(ms, query)
    ensures forall i :: 0 <= i < |res.value| ==>
      res.value[i] == RenderMovie(res.value[i].movie, gs, links, rs, c, GET)
  {
    match Authorize(SuperUserOrReadOnly, GET, c)
    case Fail(e) => assert false; Err(e)
    case Pass =>
      var found := TitleSearch(ms, query);
      var out := seq(|found|, i requires 0 <= i < |found| => RenderMovie(found[i], gs, links, rs, c, GET));
      assert Shown(out) == found;
      Ok(out)
  }

  /** The detail lookup of MovieView: get_object filters the table with the title search
      before it looks the key up, so the movie is found only when its title matches. */
  predicate DetailFound(ms: seq<Movie>, pk: nat, query: string) {
    HasMovie(TitleSearch(ms, query), pk)
  }

  /** A detail lookup finds the key exactly when a stored movie has that key and a title the
      query matches; a found key is a stored key. */
  lemma DetailFoundIff(ms: seq<Movie>, pk: nat, query: string)
    ensures DetailFound(ms, pk, query) <==> exists m :: m in ms && m.id == pk && TitleMatches(m, query)
    ensures DetailFound(ms, pk, query) ==> HasMovie(ms, pk)
  {
    if DetailFound(ms, pk, query) {
      var m :| m in TitleSearch(ms, query) && m.id == pk;
      assert m in ms && TitleMatches(m, query);
    }
    if exists m :: m in ms && m.id == pk && TitleMatches(m, query) {
      var m :| m in ms && m.id == pk && TitleMatches(m, query);
      assert m in TitleSearch(ms, query);
    }
  }

  /** Without a title parameter the detail lookup is the plain primary-key lookup. */
  lemma DetailWithoutQuery(ms: seq<Movie>, pk: nat)
    ensures DetailFound(ms, pk, "") <==> HasMovie(ms, pk)
  {
    if HasMovie(ms, pk) {
      var m :| m in ms && m.id == pk;
      EmptyQuerySelectsAll(ms, m);
    }
    DetailFoundIff(ms, pk, "");
  }

  /** GET /movies/{pk}/?title=...: open to every caller; the movie with that key if the title
      search keeps it, or NotFound. An absent parameter is the empty query. */
  function RetrieveMovie(ms: seq<Movie>, gs: seq<Genre>, links: set<(nat, nat)>, rs: seq<Review>,
                         c: Caller, pk: nat, query: string): (res: Result<MovieOut>)
    ensures res.Err? <==> !(exists m :: m in ms && m.id == pk && TitleMatches(m, query))
    ensures res.Err? ==> res.error == NotFound
    ensures res.Ok? ==> res.value.movie in ms && res.value.movie.id == pk && TitleMatches(res.value.movie, query)
    ensures res.Ok? ==> res.value == RenderMovie(res.value.movie, gs, links, rs, c, GET)
  {
    var found := TitleSearch(ms, query);
    DetailFoundIff(ms, pk, query);
    MovieLookup(found, pk);
    match IndexWhere(found, MovieWithId(pk))
    case None => Err(NotFound)
    case Some(i) =>
      assert found[i] in found;
      Ok(RenderMovie(found[i], gs, links, rs, c, GET))
  }

  /** The key the review filter compares critic_id with: the caller's id, or null. */
  function CallerKey(c: Caller): Option<nat> {
    if c.User? then Some(c.id) else None
  }

  /** ReviewView.filter_queryset: a superuser gets the whole table, anyone else only the
      reviews whose critic is the caller. */
  function ScopeReviews(rs: seq<Review>, c: Caller): (r: seq<Review>)
    ensures c.Superuser() ==> r == rs
    ensures !c.Superuser() ==> forall x :: x in r <==> x in rs && x.critic == CallerKey(c)
    ensures |r| <= |rs|
  {
    if c.Superuser() then rs
    else
      forall x ensures x in Filter(rs, ByCritic(CallerKey(c))) <==> x in rs && x.critic == CallerKey(c) {
        MemberOfFilter(rs, ByCritic(CallerKey(c)), x);
      }
      Filter(rs, ByCritic(CallerKey(c)))
  }

  /** GET /reviews/: critics and superusers pass IsCriticoUser, and see their scope. */
  function ListReviews(rs: seq<Review>, c: Caller): (res: Result<seq<Review>>)
    ensures res.Ok? <==> c.Superuser() || c.Staff()
    ensures res.Err? ==> res.error == if c.Authenticated() then Forbidden else AuthRequired
    ensures res.Ok? ==> res.value == ScopeReviews(rs, c)
  {
    match Authorize(CriticoUser, GET, c)
    case Fail(e) => Err(e)
    case Pass => Ok(ScopeReviews(rs, c))
  }

  /** A critic's list is exactly the critic's own reviews. */
  lemma CriticListsOwn(rs: seq<Review>, id: nat, r: Review)
    ensures var res := ListReviews(rs, User(id, true, false));
      res.Ok? && (r in res.value <==> r in rs && r.critic == Some(id))
  {
  }

  /** A regular user is refused the list, and an anonymous caller asked to authenticate. */
  lemma OthersCannotList(rs: seq<Review>, id: nat)
    ensures ListReviews(rs, User(id, false, false)) == Err(Forbidden)
    ensures ListReviews(rs, Anonymous) == Err(AuthRequired)
  {
  }

  /** An anonymous read of a movie carries no reviews; an authenticated one carries every
      review of the movie. */
  lemma ReadShapes(ms: seq<Movie>, gs: seq<Genre>, links: set<(nat, nat)>, rs: seq<Review>,
                   pk: nat, query: string, id: nat, staff: bool, superuser: bool)
    requires DetailFound(ms, pk, query)
    ensures RetrieveMovie(ms, gs, links, rs, Anonymous, pk, query).value.reviews.None?
    ensures var out := RetrieveMovie(ms, gs, links, rs, User(id, staff, superuser), pk, query).value;
      out.reviews.Some? && forall r :: r in out.reviews.value <==> r in rs && r.movie == Some(pk)
  {
    DetailFoundIff(ms, pk, query);
  }

  /** POST /movies/: superuser only; the fields and genre names are validated, then
      MovieSerializer.create runs, and the response is rendered without reviews. */
  method PostMovie(db: Catalog, c: Caller, f: MovieFields, names: seq<string>)
    returns (res: Result<MovieOut>)
    requires db.Valid()
    modifies db
    ensures db.Valid()
    ensures !c.Superuser() ==> res == Err(Authorize(SuperUserOrReadOnly, POST, c).error)
    ensures c.Superuser() && !(ValidMovieFields(f) && ValidGenreNames(names)) ==> res == Err(Invalid)
    ensures c.Superuser() && ValidMovieFields(f) && ValidGenreNames(names) ==> res.Ok?
    ensures res.Err? ==> unchanged(db)
    ensures res.Ok? ==>
      && c.Superuser() && ValidMovieFields(f) && ValidGenreNames(names)
      && res.value.movie == WithFields(old(db.nextMovie), f)
      && db.movies == old(db.movies) + [res.value.movie]
      && (var r := Resolve(old(db.genres), old(db.nextGenre), names);
          db.genres == r.rows && db.links == old(db.links) + LinksTo(r.ids, res.value.movie.id))
      && db.reviews == old(db.reviews) && db.accounts == old(db.accounts)
      && db.nextMovie == old(db.nextMovie) + 1
      && db.nextGenre == Resolve(old(db.genres), old(db.nextGenre), names).next
      && db.nextReview == old(db.nextReview) && db.nextAccount == old(db.nextAccount)
      && res.value == RenderMovie(res.value.movie, db.genres, db.links, db.reviews, c, POST)
  {
    var auth := Authorize(SuperUserOrReadOnly, POST, c);
    if auth.Fail? {
      return Err(auth.error);
    }
    if !(ValidMovieFields(f) && ValidGenreNames(names)) {
      return Err(Invalid);
    }
    var m := db.CreateMovie(f, names);
    res := Ok(RenderMovie(m, db.genres, db.links, db.reviews, c, POST));
  }

  /** PUT /movies/{pk}/?title=...: superuser only; the detail lookup must find the movie; the
      nested serializer keeps genres read-only, so only the scalar fields are replaced. */
  method PutMovie(db: Catalog, c: Caller, pk: nat, query: string, f: MovieFields)
    returns (res: Result<MovieOut>)
    requires db.Valid()
    modifies db
    ensures db.Valid()
    ensures !c.Superuser() ==> res == Err(Authorize(SuperUserOrReadOnly, PUT, c).error)
    ensures c.Superuser() && !DetailFound(old(db.movies), pk, query) ==> res == Err(NotFound)
    ensures c.Superuser() && DetailFound(old(db.movies), pk, query) && !ValidMovieFields(f) ==> res == Err(Invalid)
    ensures c.Superuser() && DetailFound(old(db.movies), pk, query) && ValidMovieFields(f) ==> res.Ok?
    ensures res.Err? ==> unchanged(db)
    ensures res.Ok? ==>
      && c.Superuser() && DetailFound(old(db.movies), pk, query) && ValidMovieFields(f)
      && |db.movies| == |old(db.movies)|
      && (forall k :: 0 <= k < |db.movies| ==>
            db.movies[k] == if old(db.movies)[k].id == pk then WithFields(pk, f) else old(db.movies)[k])
      && db.genres == old(db.genres) && db.links == old(db.links)
      && db.reviews == old(db.reviews) && db.accounts == old(db.accounts)
      && db.nextMovie == old(db.nextMovie) && db.nextGenre == old(db.nextGenre)
      && db.nextReview == old(db.nextReview) && db.nextAccount == old(db.nextAccount)
      && res.value == RenderMovie(WithFields(pk, f), db.genres, db.links, db.reviews, c, PUT)
  {
    var auth := Authorize(SuperUserOrReadOnly, PUT, c);
    if auth.Fail? {
      return Err(auth.error);
    }
    if !DetailFound(db.movies, pk, query) {
      return Err(NotFound);
    }
    DetailFoundIff(db.movies, pk, query);
    if !ValidMovieFields(f) {
      return Err(Invalid);
    }
    db.UpdateMovieFields(pk, f);
    res := Ok(RenderMovie(WithFields(pk, f), db.genres, db.links, db.reviews, c, PUT));
  }

  /** DELETE /movies/{pk}/?title=...: superuser only; the detail lookup must find the movie;
      CASCADE takes its reviews and its movie-genre rows with it. */
  method DeleteMovieRequest(db: Catalog, c: Caller, pk: nat, query: string) returns (res: Outcome)
    requires db.Valid()
    modifies db
    ensures db.Valid()
    ensures !c.Superuser() ==> res == Fail(Authorize(SuperUserOrReadOnly, DELETE, c).error)
    ensures c.Superuser() && !DetailFound(old(db.movies), pk, query) ==> res == Fail(NotFound)
    ensures c.Superuser() && DetailFound(old(db.movies), pk, query) ==> res.Pass?
    ensures res.Fail? ==> unchanged(db)
    ensures res.Pass? ==>
      && c.Superuser() && DetailFound(old(db.movies), pk, query) && !HasMovie(db.movies, pk)
      && db.movies == Filter(old(db.movies), OtherMovie(pk))
      && db.reviews == Filter(old(db.reviews), NotOnMovie(pk))
      && db.links == Unlinked(old(db.links), pk)
      && db.genres == old(db.genres) && db.accounts == old(db.accounts)
      && db.nextMovie == old(db.nextMovie) && db.nextGenre == old(db.nextGenre)
      && db.nextReview == old(db.nextReview) && db.nextAccount == old(db.nextAccount)
  {
    var auth := Authorize(SuperUserOrReadOnly, DELETE, c);
    if auth.Fail? {
      return auth;
    }
    if !DetailFound(db.movies, pk, query) {
      return Fail(NotFound);
    }
    db.DeleteMovie(pk);
    res := Pass;
  }

  /** POST /movies/{pk}/review/ (MovieReviewView.create): critics only; the movie must exist;
      the body's movie is replaced by the path's; the body is validated; then
      ReviewSerializer.create refuses a second review of the movie by the caller. */
  method PostReview(db: Catalog, c: Caller, pk: nat, body: ReviewBody) returns (res: Result<Review>)
    requires db.Valid() && (c.User? ==> c.id in db.accounts)
    modifies db
    ensures db.Valid()
    ensures !IsCriticoUser(POST, c) ==> res == Err(Authorize(CriticoUser, POST, c).error)
    ensures IsCriticoUser(POST, c) && !HasMovie(old(db.movies), pk) ==> res == Err(NotFound)
    ensures IsCriticoUser(POST, c) && HasMovie(old(db.movies), pk) && !ReviewBodyValid(body, false)
            ==> res == Err(Invalid)
    ensures (IsCriticoUser(POST, c) && HasMovie(old(db.movies), pk) && ReviewBodyValid(body, false)
             && AlreadyReviewed(old(db.reviews), c.id, pk)) ==> res == Err(Duplicate(ALREADY_REVIEWED))
    ensures (IsCriticoUser(POST, c) && HasMovie(old(db.movies), pk) && ReviewBodyValid(body, false)
             && !AlreadyReviewed(old(db.reviews), c.id, pk)) ==> res.Ok?
    ensures res.Err? ==> unchanged(db)
    ensures res.Ok? ==>
      && c.User? && IsCriticoUser(POST, c) && HasMovie(old(db.movies), pk)
      && ReviewBodyValid(body, false) && !AlreadyReviewed(old(db.reviews), c.id, pk)
      && res.value == Review(old(db.nextReview), body.stars.value, body.text.value,
                             body.spoilers.value, Some(pk), Some(c.id))
      && db.reviews == old(db.reviews) + [res.value]
      && db.movies == old(db.movies) && db.genres == old(db.genres) && db.links == old(db.links)
      && db.accounts == old(db.accounts)
      && db.nextReview == old(db.nextReview) + 1
      && db.nextMovie == old(db.nextMovie) && db.nextGenre == old(db.nextGenre)
      && db.nextAccount == old(db.nextAccount)
    ensures OneReviewPerPair(old(db.reviews)) ==> OneReviewPerPair(db.reviews)
  {
    var auth := Authorize(CriticoUser, POST, c);
    if auth.Fail? {
      return Err(auth.error);
    }
    if !HasMovie(db.movies, pk) {
      return Err(NotFound);
    }
    var pinned := body.(movie := MovieId(pk));
    if !ReviewBodyValid(pinned, false) {
      return Err(Invalid);
    }
    res := db.CreateReview(c.id, pk, pinned.stars.value, pinned.text.value, pinned.spoilers.value);
  }

  /** The check of the body's movie key: a given key must name a stored movie. */
  predicate MovieRefValid(ms: seq<Movie>, body: ReviewBody) {
    body.movie.MovieId? ==> HasMovie(ms, body.movie.id)
  }

  /** PUT or PATCH /movies/{pk}/review/ as written (MovieReviewView's default update): critics
      only; the review whose KEY is pk must exist; the body is validated; then
      ReviewSerializer.update replaces the given fields and makes the caller its critic. */
  method PutReview(db: Catalog, c: Caller, pk: nat, body: ReviewBody, partial: bool)
    returns (res: Result<Review>)
    requires db.Valid() && (c.User? ==> c.id in db.accounts)
    modifies db
    ensures db.Valid()
    ensures var m := if partial then PATCH else PUT;
      !IsCriticoUser(m, c) ==> res == Err(Authorize(CriticoUser, m, c).error)
    ensures c.Staff() && !c.Superuser() && !HasReview(old(db.reviews), pk) ==> res == Err(NotFound)
    ensures (c.Staff() && !c.Superuser() && HasReview(old(db.reviews), pk)
             && !(ReviewBodyValid(body, partial) && MovieRefValid(old(db.movies), body))) ==> res == Err(Invalid)
    ensures (c.Staff() && !c.Superuser() && HasReview(old(db.reviews), pk)
             && ReviewBodyValid(body, partial) && MovieRefValid(old(db.movies), body)) ==> res.Ok?
    ensures res.Err? ==> unchanged(db)
    ensures res.Ok? ==>
      && c.User? && c.Staff() && !c.Superuser() && HasReview(old(db.reviews), pk)
      && ReviewBodyValid(body, partial) && MovieRefValid(old(db.movies), body)
      && db.reviews == PatchById(old(db.reviews), pk, body, c.id)
      && res.value in db.reviews && res.value.id == pk && res.value.critic == Some(c.id)
      && db.movies == old(db.movies) && db.genres == old(db.genres) && db.links == old(db.links)
      && db.accounts == old(db.accounts)
      && db.nextMovie == old(db.nextMovie) && db.nextGenre == old(db.nextGenre)
      && db.nextReview == old(db.nextReview) && db.nextAccount == old(db.nextAccount)
  {
    var auth := Authorize(CriticoUser, if partial then PATCH else PUT, c);
    if auth.Fail? {
      return Err(auth.error);
    }
    ReviewLookup(db.reviews, pk);
    var found := IndexWhere(db.reviews, ReviewWithId(pk));
    if found.None? {
      return Err(NotFound);
    }
    if !(ReviewBodyValid(body, partial) && MovieRefValid(db.movies, body)) {
      return Err(Invalid);
    }
    var k := found.value;
    db.UpdateReview(pk, c.id, body);
    assert db.reviews[k] == Patched(old(db.reviews)[k], body, c.id);
    res := Ok(db.reviews[k]);
  }

  /** The review of `movie` written by `critic`. */
  function OwnReview(critic: nat, movie: nat): Review -> bool {
    (r: Review) => r.critic == Some(critic) && r.movie == Some(movie)
  }

  /** PUT or PATCH /movies/{pk}/review/ as evidently intended: the review is the caller's own
      review of movie pk, and the movie stays pinned to the path, so the pair never changes
      and one review per pair is kept. */
  method PutOwnReview(db: Catalog, c: Caller, pk: nat, body: ReviewBody, partial: bool)
    returns (res: Result<Review>)
    requires db.Valid() && (c.User? ==> c.id in db.accounts)
    modifies db
    ensures db.Valid()
    ensures var m := if partial then PATCH else PUT;
      !IsCriticoUser(m, c) ==> res == Err(Authorize(CriticoUser, m, c).error)
    ensures c.Staff() && !c.Superuser() && !AlreadyReviewed(old(db.reviews), c.id, pk) ==> res == Err(NotFound)
    ensures (c.Staff() && !c.Superuser() && AlreadyReviewed(old(db.reviews), c.id, pk)
             && !ReviewBodyValid(body, partial)) ==> res == Err(Invalid)
    ensures (c.Staff() && !c.Superuser() && AlreadyReviewed(old(db.reviews), c.id, pk)
             && ReviewBodyValid(body, partial)) ==> res.Ok?
    ensures res.Err? ==> unchanged(db)
    ensures res.Ok? ==>
      && c.User? && c.Staff() && !c.Superuser() && AlreadyReviewed(old(db.reviews), c.id, pk)
      && ReviewBodyValid(body, partial)
      && OwnReviewIndex(old(db.reviews), c.id, pk).Some?
      && (var k := OwnReviewIndex(old(db.reviews), c.id, pk).value;
          && res.value.id == old(db.reviews)[k].id
          && res.value == Patched(old(db.reviews)[k], body.(movie := MovieId(pk)), c.id))
      && db.reviews == PatchById(old(db.reviews), res.value.id, body.(movie := MovieId(pk)), c.id)
      && res.value in db.reviews && res.value.critic == Some(c.id) && res.value.movie == Some(pk)
      && db.movies == old(db.movies) && db.genres == old(db.genres) && db.links == old(db.links)
      && db.accounts == old(db.accounts)
      && db.nextMovie == old(db.nextMovie) && db.nextGenre == old(db.nextGenre)
      && db.nextReview == old(db.nextReview) && db.nextAccount == old(db.nextAccount)
    ensures OneReviewPerPair(old(db.reviews)) ==> OneReviewPerPair(db.reviews)
  {
    var auth := Authorize(CriticoUser, if partial then PATCH else PUT, c);
    if auth.Fail? {
      return Err(auth.error);
    }
    assert c.User? && c.Staff() && !c.Superuser() by {
      assert IsCriticoUser(if partial then PATCH else PUT, c);
    }
    var found := OwnReviewIndex(db.reviews, c.id, pk);
    if found.None? {
      return Err(NotFound);
    }
    var pinned := body.(movie := MovieId(pk));
    if !ReviewBodyValid(pinned, partial) {
      return Err(Invalid);
    }
    var k := found.value;
    var id := db.reviews[k].id;
    ghost var before := db.reviews;
    assert before[k] in before;
    db.UpdateReview(id, c.id, pinned);
    PatchKeepsPairs(before, db.nextReview, k, pinned, c.id);
    res := Ok(db.reviews[k]);
  }

  /** The corrected lookup: the position of the critic's review of the movie, found exactly
      when the critic has reviewed it. */
  function OwnReviewIndex(rs: seq<Review>, critic: nat, movie: nat): (k: Option<nat>)
    ensures k.Some? <==> AlreadyReviewed(rs, critic, movie)
    ensures k.Some? ==> k.value < |rs| && rs[k.value].critic == Some(critic) && rs[k.value].movie == Some(movie)
  {
    OwnReviewLookup(rs, critic, movie);
    IndexWhere(rs, OwnReview(critic, movie))
  }

  lemma OwnReviewLookup(rs: seq<Review>, critic: nat, movie: nat)
    ensures IndexWhere(rs, OwnReview(critic, movie)).Some? <==> AlreadyReviewed(rs, critic, movie)
  {
    if AlreadyReviewed(rs, critic, movie) {
      var r :| r in rs && r.critic == Some(critic) && r.movie == Some(movie);
      var i :| 0 <= i < |rs| && rs[i] == r;
      assert OwnReview(critic, movie)(rs[i]);
    }
  }

  /** Patching the caller's own review with its movie pinned changes no row's pair. */
  lemma PatchKeepsPairs(rs: seq<Review>, next: nat, k: nat, body: ReviewBody, caller: nat)
    requires ReviewTable(rs, next) && k < |rs|
    requires rs[k].critic == Some(caller) && rs[k].movie.Some? && body.movie == MovieId(rs[k].movie.value)
    ensures var after := PatchById(rs, rs[k].id, body, caller);
      && (OneReviewPerPair(rs) ==> OneReviewPerPair(after))
      && after[k] == Patched(rs[k], body, caller) && after[k].critic == Some(caller)
      && after[k].movie == rs[k].movie
  {
    var after := PatchById(rs, rs[k].id, body, caller);
    forall j | 0 <= j < |after| ensures after[j].critic == rs[j].critic && after[j].movie == rs[j].movie {
      if rs[j].id == rs[k].id {
        ReviewKeyUnique(rs, next, j, k);
      }
    }
    SamePairsKeepOnePerPair(rs, after);
  }

  /** The update as written breaks one review per pair: critic 3 PUTs to the key of critic
      2's review of movie 1, although critic 3 already reviewed movie 1, and ends up with two
      reviews of it. */
  lemma PutByKeySplitsPair()
    ensures var rs := [Review(1, 5, "Bom", false, Some(1), Some(2)),
                       Review(2, 8, "Otimo", false, Some(1), Some(3))];
      var body := ReviewBody(Some(10), Some("Excelente"), Some(true), NoMovie);
      && OneReviewPerPair(rs)
      && !OneReviewPerPair(PatchById(rs, 1, body, 3))
  {
    var rs := [Review(1, 5, "Bom", false, Some(1), Some(2)),
               Review(2, 8, "Otimo", false, Some(1), Some(3))];
    var body := ReviewBody(Some(10), Some("Excelente"), Some(true), NoMovie);
    var after := PatchById(rs, 1, body, 3);
    assert after[0] == Review(1, 10, "Excelente", true, Some(1), Some(3));
    assert after[1] == rs[1];
    assert !DistinctPair(after[0], after[1]);
  }
}
