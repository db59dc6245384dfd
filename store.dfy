/** The persistent state behind the views: the movie, genre, movie-genre, review and account
    tables, with the auto-increment counters, and the mutating operations of the serializers
    and of the ORM (CASCADE and PROTECT). */
module Store {
  import opened Outcomes
  import opened Seqs
  import opened Models
  import opened Serializers

  /** The rows of the movie-genre table that link each of `ids` to `movie`. */
  function LinksTo(ids: seq<nat>, movie: nat): set<(nat, nat)> {
    set k | 0 <= k < |ids| :: (ids[k], movie)
  }

  /** The movie-genre rows left after movie `id` is deleted. */
  function Unlinked(links: set<(nat, nat)>, id: nat): set<(nat, nat)> {
    set l | l in links && l.1 != id
  }

  lemma LinksToSnoc(ids: seq<nat>, id: nat, movie: nat)
    ensures LinksTo(ids + [id], movie) == LinksTo(ids, movie) + {(id, movie)}
  {
    var extended := ids + [id];
    assert extended[|ids|] == id;
    forall l | l in LinksTo(ids, movie) ensures l in LinksTo(extended, movie) {
      var k :| 0 <= k < |ids| && l == (ids[k], movie);
      assert extended[k] == ids[k];
    }
  }

  /** Linking a genre row of a table that only grew keeps the movie-genre table valid. */
  lemma LinkStep(links: set<(nat, nat)>, before: seq<Genre>, after: seq<Genre>, ms: seq<Movie>,
                 g: Genre, movie: nat)
    requires LinksValid(links, before, ms) && before <= after && g in after && HasMovie(ms, movie)
    ensures LinksValid(links + {(g.id, movie)}, after, ms)
  {
    forall l | l in links ensures HasGenre(after, l.0) {
      var h :| h in before && h.id == l.0;
      var i :| 0 <= i < |before| && before[i] == h;
      assert after[i] == h;
    }
  }

  /** The tables and counters of a catalog are consistent: keys ascend below their counters,
      genre names are unique, stored stars are in range, and every link and every non-null
      foreign key points at an existing row. */
  ghost predicate Consistent(ms: seq<Movie>, gs: seq<Genre>, ls: set<(nat, nat)>, rs: seq<Review>,
                             accounts: set<nat>, nm: nat, ng: nat, nr: nat, na: nat)
  {
    && MovieTable(ms, nm)
    && GenreTable(gs, ng)
    && ReviewTable(rs, nr)
    && LinksValid(ls, gs, ms)
    && ReviewRefsValid(rs, ms, accounts)
    && AccountTable(accounts, na)
  }

  /** Deleting movie `id` with its links and reviews leaves a consistent catalog. */
  lemma CascadeConsistent(ms: seq<Movie>, gs: seq<Genre>, ls: set<(nat, nat)>, rs: seq<Review>,
                          accounts: set<nat>, nm: nat, ng: nat, nr: nat, na: nat, id: nat)
    requires Consistent(ms, gs, ls, rs, accounts, nm, ng, nr, na)
    ensures Consistent(Filter(ms, OtherMovie(id)), gs, Unlinked(ls, id), Filter(rs, NotOnMovie(id)),
                       accounts, nm, ng, nr, na)
  {
    CascadeKeepsMovies(ms, nm, id);
    CascadeKeepsReviews(rs, nr, id);
    CascadeKeepsRefs(ms, nm, gs, ls, rs, accounts, id);
  }

  /** After the cascade no movie has key `id`, and one review per pair survives it. */
  lemma CascadeFacts(ms: seq<Movie>, rs: seq<Review>, id: nat)
    ensures !HasMovie(Filter(ms, OtherMovie(id)), id)
    ensures OneReviewPerPair(rs) ==> OneReviewPerPair(Filter(rs, NotOnMovie(id)))
  {
    forall m | m in Filter(ms, OtherMovie(id)) ensures m.id != id {
      MemberOfFilter(ms, OtherMovie(id), m);
    }
    if OneReviewPerPair(rs) {
      FilterPairwise(rs, NotOnMovie(id), DistinctPair);
    }
  }

  /** Deleting movie `id` keeps the movie table a movie table. */
  lemma CascadeKeepsMovies(ms: seq<Movie>, next: nat, id: nat)
    requires MovieTable(ms, next)
    ensures MovieTable(Filter(ms, OtherMovie(id)), next)
    ensures forall x :: HasMovie(ms, x) && x != id <==> HasMovie(Filter(ms, OtherMovie(id)), x)
  {
    var ms' := Filter(ms, OtherMovie(id));
    FilterPairwise(ms, OtherMovie(id), MoviesOrdered);
    forall m ensures m in ms' <==> m in ms && m.id != id {
      MemberOfFilter(ms, OtherMovie(id), m);
    }
    forall i | 0 <= i < |ms'| ensures 1 <= ms'[i].id < next {
      assert ms'[i] in ms;
    }
  }

  /** The reviews CASCADE keeps still form a review table with one review per pair. */
  lemma CascadeKeepsReviews(rs: seq<Review>, next: nat, id: nat)
    requires ReviewTable(rs, next)
    ensures ReviewTable(Filter(rs, NotOnMovie(id)), next)
    ensures forall r :: r in Filter(rs, NotOnMovie(id)) <==> r in rs && r.movie != Some(id)
    ensures OneReviewPerPair(rs) ==> OneReviewPerPair(Filter(rs, NotOnMovie(id)))
  {
    var rs' := Filter(rs, NotOnMovie(id));
    FilterPairwise(rs, NotOnMovie(id), ReviewsOrdered);
    if OneReviewPerPair(rs) {
      FilterPairwise(rs, NotOnMovie(id), DistinctPair);
    }
    forall r ensures r in rs' <==> r in rs && r.movie != Some(id) {
      MemberOfFilter(rs, NotOnMovie(id), r);
    }
    forall i | 0 <= i < |rs'| ensures 1 <= rs'[i].id < next && ValidStars(rs'[i].stars) {
      assert rs'[i] in rs;
    }
  }

  /** After the cascade, no link and no review points at the deleted movie. */
  lemma CascadeKeepsRefs(ms: seq<Movie>, next: nat, gs: seq<Genre>, ls: set<(nat, nat)>,
                         rs: seq<Review>, accounts: set<nat>, id: nat)
    requires MovieTable(ms, next) && LinksValid(ls, gs, ms) && ReviewRefsValid(rs, ms, accounts)
    ensures LinksValid(Unlinked(ls, id), gs, Filter(ms, OtherMovie(id)))
    ensures ReviewRefsValid(Filter(rs, NotOnMovie(id)), Filter(ms, OtherMovie(id)), accounts)
  {
    CascadeKeepsMovies(ms, next, id);
    forall r ensures r in Filter(rs, NotOnMovie(id)) <==> r in rs && r.movie != Some(id) {
      MemberOfFilter(rs, NotOnMovie(id), r);
    }
  }

  /** Appending a review under the next key keeps the table, and keeps one review per pair
      when the pair is new. */
  lemma AppendKeepsReviews(rs: seq<Review>, next: nat, r: Review)
    requires ReviewTable(rs, next) && r.id == next && ValidStars(r.stars)
    requires r.critic.Some? && r.movie.Some?
    ensures ReviewTable(rs + [r], next + 1)
    ensures OneReviewPerPair(rs) && !AlreadyReviewed(rs, r.critic.value, r.movie.value)
            ==> OneReviewPerPair(rs + [r])
  {
    var rs' := rs + [r];
    forall i, j | 0 <= i < j < |rs'|
      ensures ReviewsOrdered(rs'[i], rs'[j])
    {
      if j < |rs| {
        assert ReviewsOrdered(rs[i], rs[j]);
      }
    }
    if OneReviewPerPair(rs) && !AlreadyReviewed(rs, r.critic.value, r.movie.value) {
      forall i, j | 0 <= i < j < |rs'| ensures DistinctPair(rs'[i], rs'[j]) {
        if j < |rs| {
          assert DistinctPair(rs[i], rs[j]);
        } else {
          assert rs[i] in rs;
        }
      }
    }
  }

  /** Replacing the review at `k` by one with the same key, valid stars and valid references
      keeps the review table and its references valid. */
  lemma ReplaceKeepsReviews(rs: seq<Review>, next: nat, ms: seq<Movie>, accounts: set<nat>,
                            k: nat, r: Review)
    requires ReviewTable(rs, next) && ReviewRefsValid(rs, ms, accounts) && k < |rs|
    requires r.id == rs[k].id && ValidStars(r.stars)
    requires (r.movie.Some? ==> HasMovie(ms, r.movie.value)) && (r.critic.Some? ==> r.critic.value in accounts)
    ensures ReviewTable(rs[k := r], next) && ReviewRefsValid(rs[k := r], ms, accounts)
  {
    var rs' := rs[k := r];
    forall i, j | 0 <= i < j < |rs'| ensures ReviewsOrdered(rs'[i], rs'[j]) {
      assert ReviewsOrdered(rs[i], rs[j]);
    }
    forall x | x in rs' ensures (x.movie.Some? ==> HasMovie(ms, x.movie.value)) && (x.critic.Some? ==> x.critic.value in accounts) {
      var j :| 0 <= j < |rs'| && rs'[j] == x;
      assert rs[j] in rs;
    }
  }

  /** Rewriting rows in place without touching their keys keeps the keys and their order. */
  lemma UpdateKeepsMovieKeys(before: seq<Movie>, after: seq<Movie>)
    requires |before| == |after|
    requires forall j :: 0 <= j < |after| ==> after[j].id == before[j].id
    ensures forall x :: HasMovie(before, x) ==> HasMovie(after, x)
    ensures forall i, j :: 0 <= i < j < |after| && MoviesOrdered(before[i], before[j]) ==> MoviesOrdered(after[i], after[j])
  {
    forall x | HasMovie(before, x) ensures HasMovie(after, x) {
      var m :| m in before && m.id == x;
      var i :| 0 <= i < |before| && before[i] == m;
      assert after[i] in after;
    }
  }

  class Catalog {
    var movies: seq<Movie>
    var genres: seq<Genre>
    /** The many-to-many table as (genre id, movie id) pairs: a set, so linking twice is
        linking once. */
    var links: set<(nat, nat)>
    var reviews: seq<Review>
    var accounts: set<nat>
    var nextMovie: nat
    var nextGenre: nat
    var nextReview: nat
    var nextAccount: nat

    /** Keys ascend below their counters, genre names are unique, stored stars are in range,
        and every link and every non-null foreign key points at an existing row. */
    ghost predicate Valid()
      reads this
    {
      Consistent(movies, genres, links, reviews, accounts, nextMovie, nextGenre, nextReview, nextAccount)
    }

    constructor ()
      ensures Valid()
      ensures movies == [] && genres == [] && links == {} && reviews == [] && accounts == {}
      ensures nextMovie == 1 && nextGenre == 1 && nextReview == 1 && nextAccount == 1
    {
      movies, genres, links, reviews, accounts := [], [], {}, [], {};
      nextMovie, nextGenre, nextReview, nextAccount := 1, 1, 1, 1;
    }

    /** Registers an account under the next key; only the key matters to this model. */
    method AddAccount() returns (id: nat)
      requires Valid()
      modifies this
      ensures Valid()
      ensures id == old(nextAccount) && id !in old(accounts)
      ensures accounts == old(accounts) + {id} && nextAccount == id + 1
      ensures movies == old(movies) && genres == old(genres) && links == old(links)
      ensures reviews == old(reviews)
      ensures nextMovie == old(nextMovie) && nextGenre == old(nextGenre)
      ensures nextReview == old(nextReview)
    {
      id := nextAccount;
      accounts := accounts + {id};
      nextAccount := nextAccount + 1;
    }

    /** Deleting an account that some review names as its critic is refused (PROTECT). */
    method DeleteAccount(id: nat) returns (res: Outcome)
      requires Valid()
      modifies this
      ensures Valid()
      ensures id !in old(accounts) ==> res == Fail(NotFound)
      ensures id in old(accounts) && (exists r :: r in reviews && r.critic == Some(id))
              ==> res == Fail(Protected)
      ensures res.Pass? <==> id in old(accounts) && !exists r :: r in reviews && r.critic == Some(id)
      ensures accounts == if res.Pass? then old(accounts) - {id} else old(accounts)
      ensures movies == old(movies) && genres == old(genres) && links == old(links)
      ensures reviews == old(reviews)
      ensures nextMovie == old(nextMovie) && nextGenre == old(nextGenre)
      ensures nextReview == old(nextReview) && nextAccount == old(nextAccount)
    {
      if id !in accounts {
        return Fail(NotFound);
      }
      var k := IndexWhere(reviews, ByCritic(Some(id)));
      if k.Some? {
        assert reviews[k.value] in reviews;
        return Fail(Protected);
      }
      assert forall r :: r in reviews ==> r.critic != Some(id) by {
        forall r | r in reviews ensures r.critic != Some(id) {
          var j :| 0 <= j < |reviews| && reviews[j] == r;
          assert !ByCritic(Some(id))(reviews[j]);
        }
      }
      accounts := accounts - {id};
      res := Pass;
    }

    /** One iteration of the genre loop: `Genres.objects.filter(name=...).first()`, creating
        the genre when there is none, then linking it to the movie. */
    method LinkGenre(movie: nat, name: string) returns (id: nat)
      requires Valid() && HasMovie(movies, movie)
      modifies this
      ensures Valid()
      ensures FindOrCreate(old(genres), old(nextGenre), name) == Resolution(genres, nextGenre, [id])
      ensures links == old(links) + {(id, movie)}
      ensures movies == old(movies) && reviews == old(reviews) && accounts == old(accounts)
      ensures nextMovie == old(nextMovie) && nextReview == old(nextReview)
      ensures nextAccount == old(nextAccount)
    {
      FindOrCreateSound(genres, nextGenre, name);
      var found := IndexWhere(genres, Named(name));
      ghost var before := genres;
      if found.Some? {
        id := genres[found.value].id;
      } else {
        id := nextGenre;
        genres := genres + [Genre(id, name)];
        nextGenre := nextGenre + 1;
      }
      LinkStep(links, before, genres, movies, Genre(id, name), movie);
      links := links + {(id, movie)};
    }

    /** The genre loop shared by MovieSerializer.create and update: find or create a genre
        for each payload name, in order, and link it to the movie. */
    method AddGenres(movie: nat, names: seq<string>)
      requires Valid() && HasMovie(movies, movie)
      modifies this
      ensures Valid()
      ensures var r := Resolve(old(genres), old(nextGenre), names);
        genres == r.rows && nextGenre == r.next && links == old(links) + LinksTo(r.ids, movie)
      ensures movies == old(movies) && reviews == old(reviews) && accounts == old(accounts)
      ensures nextMovie == old(nextMovie) && nextReview == old(nextReview)
      ensures nextAccount == old(nextAccount)
    {
      ghost var ids: seq<nat> := [];
      var i := 0;
      while i < |names|
        invariant 0 <= i <= |names|
        invariant Resolve(old(genres), old(nextGenre), names[..i]) == Resolution(genres, nextGenre, ids)
        invariant links == old(links) + LinksTo(ids, movie)
        invariant Valid()
        invariant movies == old(movies) && reviews == old(reviews) && accounts == old(accounts)
        invariant nextMovie == old(nextMovie) && nextReview == old(nextReview)
        invariant nextAccount == old(nextAccount)
      {
        ResolveStep(old(genres), old(nextGenre), names, i);
        var id := LinkGenre(movie, names[i]);
        LinksToSnoc(ids, id, movie);
        ids := ids + [id];
        i := i + 1;
      }
      assert names[..i] == names;
    }

    /** MovieSerializer.create: insert the movie under the next key, then run the genre loop. */
    method CreateMovie(f: MovieFields, names: seq<string>) returns (m: Movie)
      requires Valid()
      modifies this
      ensures Valid()
      ensures m == WithFields(old(nextMovie), f) && !HasMovie(old(movies), m.id)
      ensures movies == old(movies) + [m] && nextMovie == old(nextMovie) + 1
      ensures var r := Resolve(old(genres), old(nextGenre), names);
        genres == r.rows && nextGenre == r.next && links == old(links) + LinksTo(r.ids, m.id)
      ensures reviews == old(reviews) && accounts == old(accounts)
      ensures nextReview == old(nextReview) && nextAccount == old(nextAccount)
    {
      m := WithFields(nextMovie, f);
      assert !HasMovie(movies, m.id);
      forall i, j | 0 <= i < j < |movies + [m]| ensures MoviesOrdered((movies + [m])[i], (movies + [m])[j]) {
        if j < |movies| {
          assert MoviesOrdered(movies[i], movies[j]);
        }
      }
      movies := movies + [m];
      nextMovie := nextMovie + 1;
      assert m in movies;
      AddGenres(m.id, names);
    }

    /** The default update of the scalar movie fields (what an authorized PUT runs). */
    method UpdateMovieFields(id: nat, f: MovieFields)
      requires Valid() && HasMovie(movies, id)
      modifies this
      ensures Valid()
      ensures |movies| == |old(movies)|
      ensures forall k :: 0 <= k < |movies| ==>
        movies[k] == if old(movies)[k].id == id then WithFields(id, f) else old(movies)[k]
      ensures genres == old(genres) && links == old(links) && reviews == old(reviews)
      ensures accounts == old(accounts) && nextMovie == old(nextMovie) && nextGenre == old(nextGenre)
      ensures nextReview == old(nextReview) && nextAccount == old(nextAccount)
    {
      MovieLookup(movies, id);
      var k := IndexWhere(movies, MovieWithId(id)).value;
      ghost var before := movies;
      movies := movies[k := WithFields(id, f)];
      forall j | 0 <= j < |movies| ensures movies[j] == if before[j].id == id then WithFields(id, f) else before[j] {
        if before[j].id == id {
          MovieKeyUnique(before, nextMovie, j, k);
          assert j == k;
        }
      }
      UpdateKeepsMovieKeys(before, movies);
    }

    /** MovieSerializer.update: run the genre loop on the instance, then replace its scalar
        fields. Links are only ever added. */
    method UpdateMovie(id: nat, f: MovieFields, names: seq<string>)
      requires Valid() && HasMovie(movies, id)
      modifies this
      ensures Valid()
      ensures var r := Resolve(old(genres), old(nextGenre), names);
        genres == r.rows && nextGenre == r.next && links == old(links) + LinksTo(r.ids, id)
      ensures old(links) <= links
      ensures |movies| == |old(movies)|
      ensures forall k :: 0 <= k < |movies| ==>
        movies[k] == if old(movies)[k].id == id then WithFields(id, f) else old(movies)[k]
      ensures reviews == old(reviews) && accounts == old(accounts)
      ensures nextMovie == old(nextMovie) && nextReview == old(nextReview)
      ensures nextAccount == old(nextAccount)
    {
      AddGenres(id, names);
      UpdateMovieFields(id, f);
    }

    /** Deleting a movie removes its movie-genre rows and, by CASCADE, every review of it.
        Deleting a key that is not there changes nothing. */
    method DeleteMovie(id: nat)
      requires Valid()
      modifies this
      ensures Valid()
      ensures movies == Filter(old(movies), OtherMovie(id)) && !HasMovie(movies, id)
      ensures reviews == Filter(old(reviews), NotOnMovie(id))
      ensures links == Unlinked(old(links), id)
      ensures OneReviewPerPair(old(reviews)) ==> OneReviewPerPair(reviews)
      ensures genres == old(genres) && accounts == old(accounts)
      ensures nextMovie == old(nextMovie) && nextGenre == old(nextGenre)
      ensures nextReview == old(nextReview) && nextAccount == old(nextAccount)
    {
      CascadeConsistent(movies, genres, links, reviews, accounts, nextMovie, nextGenre, nextReview,
                        nextAccount, id);
      CascadeFacts(movies, reviews, id);
      var ms, rs, ls := Filter(movies, OtherMovie(id)), Filter(reviews, NotOnMovie(id)), Unlinked(links, id);
      movies, reviews, links := ms, rs, ls;
    }

    /** ReviewSerializer.create: refuse a second review by the same critic of the same movie,
        otherwise insert the review under the next key, attributed to the critic. */
    method CreateReview(critic: nat, movie: nat, stars: int, text: string, spoilers: bool)
      returns (res: Result<Review>)
      requires Valid() && HasMovie(movies, movie) && critic in accounts && ValidStars(stars)
      modifies this
      ensures Valid()
      ensures AlreadyReviewed(old(reviews), critic, movie) ==>
        res == Err(Duplicate(ALREADY_REVIEWED)) && unchanged(this)
      ensures !AlreadyReviewed(old(reviews), critic, movie) ==>
        && res == Ok(Review(old(nextReview), stars, text, spoilers, Some(movie), Some(critic)))
        && reviews == old(reviews) + [res.value] && nextReview == old(nextReview) + 1
      ensures OneReviewPerPair(old(reviews)) ==> OneReviewPerPair(reviews)
      ensures movies == old(movies) && genres == old(genres) && links == old(links)
      ensures accounts == old(accounts)
      ensures nextMovie == old(nextMovie) && nextGenre == old(nextGenre)
      ensures nextAccount == old(nextAccount)
    {
      if AlreadyReviewed(reviews, critic, movie) {
        return Err(Duplicate(ALREADY_REVIEWED));
      }
      var r := Review(nextReview, stars, text, spoilers, Some(movie), Some(critic));
      AppendKeepsReviews(reviews, nextReview, r);
      assert ReviewRefsValid(reviews + [r], movies, accounts);
      reviews, nextReview := reviews + [r], nextReview + 1;
      res := Ok(r);
    }

    /** ReviewSerializer.update on the stored review with key `id`: the fields of the body
        replace the stored ones and the critic becomes the caller. */
    method UpdateReview(id: nat, caller: nat, body: ReviewBody)
      requires Valid() && HasReview(reviews, id) && caller in accounts
      requires body.stars.Some? ==> ValidStars(body.stars.value)
      requires body.movie.MovieId? ==> HasMovie(movies, body.movie.id)
      modifies this
      ensures Valid()
      ensures reviews == PatchById(old(reviews), id, body, caller)
      ensures movies == old(movies) && genres == old(genres) && links == old(links)
      ensures accounts == old(accounts)
      ensures nextMovie == old(nextMovie) && nextGenre == old(nextGenre)
      ensures nextReview == old(nextReview) && nextAccount == old(nextAccount)
    {
      ReviewLookup(reviews, id);
      var k := IndexWhere(reviews, ReviewWithId(id)).value;
      ghost var rs0 := reviews;
      ReplaceKeepsReviews(reviews, nextReview, movies, accounts, k, Patched(reviews[k], body, caller));
      reviews := reviews[k := Patched(reviews[k], body, caller)];
      forall j | 0 <= j < |reviews|
        ensures reviews[j] == if rs0[j].id == id then Patched(rs0[j], body, caller) else rs0[j]
      {
        if rs0[j].id == id {
          ReviewKeyUnique(rs0, nextReview, j, k);
          assert j == k;
        }
      }
      assert reviews == PatchById(rs0, id, body, caller);
    }
  }
}
