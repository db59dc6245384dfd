/** The three tables of movies/models.py as value types, the field constraints the schema
    declares, and the table invariants the store keeps. */
module Models {
  import opened Outcomes
  import opened Seqs

  /** The validators on Review.stars. */
  const MIN_STARS := 1
  const MAX_STARS := 10

  /** The max_length of the CharFields. */
  const SHORT_FIELD := 255
  const SYNOPSIS_FIELD := 511

  predicate ValidStars(stars: int) {
    MIN_STARS <= stars <= MAX_STARS
  }

  datatype Movie = Movie(id: nat, title: string, duration: string, premiere: string,
                         classification: int, synopsis: string)

  /** The writable scalar fields of a movie, as they come in a request body. */
  datatype MovieFields = MovieFields(title: string, duration: string, premiere: string,
                                     classification: int, synopsis: string)

  function WithFields(id: nat, f: MovieFields): Movie {
    Movie(id, f.title, f.duration, f.premiere, f.classification, f.synopsis)
  }

  /** A CharField value the serializer accepts: not blank and within max_length. */
  predicate ValidChars(s: string, maxLength: nat) {
    1 <= |s| <= maxLength
  }

  /** The checks the serializer derives from the movie's CharFields. */
  predicate ValidMovieFields(f: MovieFields) {
    && ValidChars(f.title, SHORT_FIELD) && ValidChars(f.duration, SHORT_FIELD)
    && ValidChars(f.premiere, SHORT_FIELD) && ValidChars(f.synopsis, SYNOPSIS_FIELD)
  }

  /** A genre row. The schema puts no uniqueness on the name. */
  datatype Genre = Genre(id: nat, name: string)

  /** A review row. Both foreign keys are nullable at the storage level. */
  datatype Review = Review(id: nat, stars: int, text: string, spoilers: bool,
                           movie: Option<nat>, critic: Option<nat>)

  predicate HasMovie(ms: seq<Movie>, id: nat) {
    exists m :: m in ms && m.id == id
  }

  predicate HasGenre(gs: seq<Genre>, id: nat) {
    exists g :: g in gs && g.id == id
  }

  /** Auto-increment keys: positive, below the next key to hand out, ascending in the table. */
  predicate MoviesOrdered(a: Movie, b: Movie) { a.id < b.id }

  ghost predicate MovieTable(ms: seq<Movie>, next: nat) {
    1 <= next && (forall i :: 0 <= i < |ms| ==> 1 <= ms[i].id < next) && Pairwise(ms, MoviesOrdered)
  }

  /** Genre keys ascend and, through find-or-create, no two rows share a name. */
  predicate GenresOrdered(a: Genre, b: Genre) { a.id < b.id && a.name != b.name }

  ghost predicate GenreTable(gs: seq<Genre>, next: nat) {
    1 <= next && (forall i :: 0 <= i < |gs| ==> 1 <= gs[i].id < next) && Pairwise(gs, GenresOrdered)
  }

  predicate ReviewsOrdered(a: Review, b: Review) { a.id < b.id }

  /** Review keys ascend and every stored review passed the stars validators. */
  ghost predicate ReviewTable(rs: seq<Review>, next: nat) {
    && 1 <= next
    && (forall i :: 0 <= i < |rs| ==> 1 <= rs[i].id < next && ValidStars(rs[i].stars))
    && Pairwise(rs, ReviewsOrdered)
  }

  /** Two reviews do not both belong to the same (critic, movie) pair. */
  predicate DistinctPair(a: Review, b: Review) {
    a.critic.None? || a.movie.None? || a.critic != b.critic || a.movie != b.movie
  }

  /** At most one review per (critic, movie) pair. */
  predicate OneReviewPerPair(rs: seq<Review>) {
    Pairwise(rs, DistinctPair)
  }

  /** Every row of the movie-genre table joins an existing genre to an existing movie. */
  ghost predicate LinksValid(links: set<(nat, nat)>, gs: seq<Genre>, ms: seq<Movie>) {
    forall l :: l in links ==> HasGenre(gs, l.0) && HasMovie(ms, l.1)
  }

  /** Every non-null foreign key of a review points at an existing movie or account. */
  ghost predicate ReviewRefsValid(rs: seq<Review>, ms: seq<Movie>, accounts: set<nat>) {
    && (forall r :: r in rs && r.movie.Some? ==> HasMovie(ms, r.movie.value))
    && (forall r :: r in rs && r.critic.Some? ==> r.critic.value in accounts)
  }

  ghost predicate AccountTable(accounts: set<nat>, next: nat) {
    1 <= next && forall a :: a in accounts ==> 1 <= a < next
  }

  /** Movie keys are unique. */
  lemma MovieKeyUnique(ms: seq<Movie>, next: nat, i: nat, j: nat)
    requires MovieTable(ms, next) && i < |ms| && j < |ms|
    ensures i != j ==> ms[i].id != ms[j].id
  {
    if i < j { assert MoviesOrdered(ms[i], ms[j]); }
    if j < i { assert MoviesOrdered(ms[j], ms[i]); }
  }

  /** Review keys are unique. */
  lemma ReviewKeyUnique(rs: seq<Review>, next: nat, i: nat, j: nat)
    requires ReviewTable(rs, next) && i < |rs| && j < |rs|
    ensures i != j ==> rs[i].id != rs[j].id
  {
    if i < j { assert ReviewsOrdered(rs[i], rs[j]); }
    if j < i { assert ReviewsOrdered(rs[j], rs[i]); }
  }

  /** Lookup by primary key. */
  function MovieWithId(id: nat): Movie -> bool {
    (m: Movie) => m.id == id
  }

  function ReviewWithId(id: nat): Review -> bool {
    (r: Review) => r.id == id
  }

  function OtherMovie(id: nat): Movie -> bool {
    (m: Movie) => m.id != id
  }

  /** The reviews CASCADE leaves when movie `id` is deleted. */
  function NotOnMovie(id: nat): Review -> bool {
    (r: Review) => r.movie != Some(id)
  }

  predicate HasReview(rs: seq<Review>, id: nat) {
    exists r :: r in rs && r.id == id
  }

  /** A key is present exactly when the primary-key lookup finds a row. */
  lemma MovieLookup(ms: seq<Movie>, id: nat)
    ensures HasMovie(ms, id) <==> IndexWhere(ms, MovieWithId(id)).Some?
  {
    if HasMovie(ms, id) {
      var m :| m in ms && m.id == id;
      var i :| 0 <= i < |ms| && ms[i] == m;
      assert MovieWithId(id)(ms[i]);
    }
  }

  lemma ReviewLookup(rs: seq<Review>, id: nat)
    ensures HasReview(rs, id) <==> IndexWhere(rs, ReviewWithId(id)).Some?
  {
    if HasReview(rs, id) {
      var r :| r in rs && r.id == id;
      var i :| 0 <= i < |rs| && rs[i] == r;
      assert ReviewWithId(id)(rs[i]);
    }
  }
}
