/** The logic of movies/serializers.py that does not depend on the store: genre
    find-or-create over a genre table, and the review body the serializers validate. */
module Serializers {
  import opened Outcomes
  import opened Seqs
  import opened Models

  /** Matches the rows of `Genres.objects.filter(name=name)`. */
  function Named(name: string): Genre -> bool {
    (g: Genre) => g.name == name
  }

  /** The genre table after part of a payload has been processed, and the genre id linked for
      each payload entry so far. */
  datatype Resolution = Resolution(rows: seq<Genre>, next: nat, ids: seq<nat>)

  /** One iteration of the genre loop: reuse the first row with exactly this name, or create a
      row with the next auto-increment key. */
  function FindOrCreate(rows: seq<Genre>, next: nat, name: string): Resolution {
    match IndexWhere(rows, Named(name))
    case Some(i) => Resolution(rows, next, [rows[i].id])
    case None => Resolution(rows + [Genre(next, name)], next + 1, [next])
  }

  /** The genre loop over a whole payload, processed from the first name to the last. */
  function Resolve(rows: seq<Genre>, next: nat, names: seq<string>): Resolution
    decreases |names|
  {
    if names == [] then Resolution(rows, next, [])
    else
      var prev := Resolve(rows, next, names[..|names| - 1]);
      var step := FindOrCreate(prev.rows, prev.next, names[|names| - 1]);
      Resolution(step.rows, step.next, prev.ids + step.ids)
  }

  /** Processing one more payload entry is one more find-or-create step. */
  lemma ResolveStep(rows: seq<Genre>, next: nat, names: seq<string>, i: nat)
    requires i < |names|
    ensures var prev := Resolve(rows, next, names[..i]);
      var step := FindOrCreate(prev.rows, prev.next, names[i]);
      Resolve(rows, next, names[..i + 1]) == Resolution(step.rows, step.next, prev.ids + step.ids)
  {
    assert names[..i + 1][..i] == names[..i];
  }

  /** The table holds a row with this id and this name. */
  predicate HasRow(rows: seq<Genre>, id: nat, name: string) {
    Genre(id, name) in rows
  }

  /** In a genre table, a name and an id each pick out at most one row. */
  lemma RowsDetermined(rows: seq<Genre>, next: nat, g: Genre, h: Genre)
    requires GenreTable(rows, next) && g in rows && h in rows
    ensures g.name == h.name ==> g == h
    ensures g.id == h.id ==> g == h
  {
    var i :| 0 <= i < |rows| && rows[i] == g;
    var j :| 0 <= j < |rows| && rows[j] == h;
    if i < j {
      assert GenresOrdered(rows[i], rows[j]);
    } else if j < i {
      assert GenresOrdered(rows[j], rows[i]);
    }
  }

  /** One find-or-create step keeps the table a genre table, only appends to it, and links a
      row carrying the requested name; an existing name creates nothing. */
  lemma FindOrCreateSound(rows: seq<Genre>, next: nat, name: string)
    requires GenreTable(rows, next)
    ensures var r := FindOrCreate(rows, next, name);
      && GenreTable(r.rows, r.next) && rows <= r.rows && next <= r.next && |r.ids| == 1
      && HasRow(r.rows, r.ids[0], name)
      && ((exists g :: g in rows && g.name == name) ==> r.rows == rows)
  {
    match IndexWhere(rows, Named(name))
    case Some(i) =>
      assert rows[i] == Genre(rows[i].id, name);
    case None =>
      var rows' := rows + [Genre(next, name)];
      forall i, j | 0 <= i < j < |rows'| ensures GenresOrdered(rows'[i], rows'[j]) {
        if j == |rows| {
          assert !Named(name)(rows[i]);
        } else {
          assert GenresOrdered(rows[i], rows[j]);
        }
      }
      assert rows'[|rows|] == Genre(next, name);
  }

  lemma RowKept(before: seq<Genre>, after: seq<Genre>, g: Genre)
    requires before <= after && g in before
    ensures g in after
  {
    var i :| 0 <= i < |before| && before[i] == g;
    assert after[i] == g;
  }

  /** The genre loop keeps the table a genre table and only appends to it; it links
      one genre per payload entry, and that genre is named as the entry is. */
  lemma {:induction false} ResolveSound(rows: seq<Genre>, next: nat, names: seq<string>)
    requires GenreTable(rows, next)
    ensures var r := Resolve(rows, next, names);
      && GenreTable(r.rows, r.next) && rows <= r.rows && next <= r.next && |r.ids| == |names|
      && forall k :: 0 <= k < |names| ==> HasRow(r.rows, r.ids[k], names[k])
  {
    if names != [] {
      var init := names[..|names| - 1];
      ResolveSound(rows, next, init);
      var prev := Resolve(rows, next, init);
      FindOrCreateSound(prev.rows, prev.next, names[|names| - 1]);
      var r := Resolve(rows, next, names);
      forall k | 0 <= k < |init| ensures HasRow(r.rows, r.ids[k], names[k]) {
        assert init[k] == names[k] && r.ids[k] == prev.ids[k];
        RowKept(prev.rows, r.rows, Genre(prev.ids[k], names[k]));
      }
    }
  }

  /** A payload name that already names a row is linked to that row, so two movies listing
      the same genre share one genre id. */
  lemma ResolveReuses(rows: seq<Genre>, next: nat, names: seq<string>, g: Genre, k: nat)
    requires GenreTable(rows, next) && g in rows && k < |names| && names[k] == g.name
    ensures k < |Resolve(rows, next, names).ids| && Resolve(rows, next, names).ids[k] == g.id
  {
    ResolveSound(rows, next, names);
    var r := Resolve(rows, next, names);
    var i :| 0 <= i < |rows| && rows[i] == g;
    assert r.rows[i] == g;
    RowsDetermined(r.rows, r.next, g, Genre(r.ids[k], names[k]));
  }

  /** The genres linked by the loop are exactly the rows whose name the payload lists. */
  lemma ResolveLinksExactlyNamed(rows: seq<Genre>, next: nat, names: seq<string>, g: Genre)
    requires GenreTable(rows, next)
    requires g in Resolve(rows, next, names).rows
    ensures g.id in Resolve(rows, next, names).ids <==> g.name in names
  {
    ResolveSound(rows, next, names);
    var r := Resolve(rows, next, names);
    if g.id in r.ids {
      var k :| 0 <= k < |r.ids| && r.ids[k] == g.id;
      RowsDetermined(r.rows, r.next, g, Genre(r.ids[k], names[k]));
    }
    if g.name in names {
      var k :| 0 <= k < |names| && names[k] == g.name;
      RowsDetermined(r.rows, r.next, g, Genre(r.ids[k], names[k]));
    }
  }

  /** The genre rows a payload of distinct names creates on an empty table: one per name, in
      payload order, with consecutive keys starting at `next`. */
  function FreshRows(next: nat, names: seq<string>): seq<Genre> {
    seq(|names|, k requires 0 <= k < |names| => Genre(next + k, names[k]))
  }

  function FreshIds(next: nat, n: nat): seq<nat> {
    seq(n, k requires 0 <= k < n => next + k)
  }

  /** On an empty genre table, distinct payload names get ids in payload order. */
  lemma {:induction false} ResolveFromEmpty(next: nat, names: seq<string>)
    requires forall i, j :: 0 <= i < j < |names| ==> names[i] != names[j]
    ensures Resolve([], next, names)
         == Resolution(FreshRows(next, names), next + |names|, FreshIds(next, |names|))
  {
    if names != [] {
      var n := |names| - 1;
      var init := names[..n];
      assert forall i, j :: 0 <= i < j < |init| ==> init[i] != init[j] by {
        forall i, j | 0 <= i < j < |init| ensures init[i] != init[j] {
          assert init[i] == names[i] && init[j] == names[j];
        }
      }
      assert names[n] !in init by {
        forall i | 0 <= i < |init| ensures init[i] != names[n] {
          assert init[i] == names[i];
        }
      }
      ResolveFromEmpty(next, init);
      var prev := Resolve([], next, init);
      assert prev == Resolution(FreshRows(next, init), next + n, FreshIds(next, n));
      NewNameCreates(prev.rows, prev.next, next, init, names[n]);
      var step := FindOrCreate(prev.rows, prev.next, names[n]);
      assert step == Resolution(prev.rows + [Genre(next + n, names[n])], next + n + 1, [next + n]);
      FreshSnoc(next, names);
    }
  }

  lemma FreshSnoc(next: nat, names: seq<string>)
    requires names != []
    ensures var n := |names| - 1;
      && FreshRows(next, names[..n]) + [Genre(next + n, names[n])] == FreshRows(next, names)
      && FreshIds(next, n) + [next + n] == FreshIds(next, |names|)
  {
  }

  /** A name that no row carries is created. */
  lemma NewNameCreates(rows: seq<Genre>, next: nat, start: nat, init: seq<string>, name: string)
    requires rows == FreshRows(start, init) && name !in init
    ensures FindOrCreate(rows, next, name) == Resolution(rows + [Genre(next, name)], next + 1, [next])
  {
    forall j | 0 <= j < |rows| ensures !Named(name)(rows[j]) {
      assert rows[j].name == init[j];
    }
  }

  /** The scenario of the genre test: the second movie's "Drama" reuses the first movie's. */
  lemma DramaIsShared()
    ensures var first := Resolve([], 1, ["Crime", "Drama"]);
            var second := Resolve(first.rows, first.next, ["Ficção Científica", "Drama"]);
            && first.ids == [1, 2] && second.ids == [3, 2]
            && second.rows == [Genre(1, "Crime"), Genre(2, "Drama"), Genre(3, "Ficção Científica")]
  {
    ResolveFromEmpty(1, ["Crime", "Drama"]);
    var first := Resolve([], 1, ["Crime", "Drama"]);
    assert first.rows == [Genre(1, "Crime"), Genre(2, "Drama")];
    assert GenreTable(first.rows, first.next) by {
      assert GenresOrdered(first.rows[0], first.rows[1]);
    }
    var names := ["Ficção Científica", "Drama"];
    assert names[..1] == ["Ficção Científica"] && names[..1][..0] == [];
    assert IndexWhere(first.rows, Named(names[0])).None?;
    assert IndexWhere(first.rows + [Genre(3, names[0])], Named("Drama")) == Some(1);
  }

  /** A review field that may be absent from the body, or null for the nullable movie key. */
  datatype MovieInput = NoMovie | NullMovie | MovieId(id: nat)

  /** The writable fields of a review request body; an absent field is None. */
  datatype ReviewBody = ReviewBody(stars: Option<int>, text: Option<string>,
                                   spoilers: Option<bool>, movie: MovieInput)

  /** ReviewSerializer's field validation (the movie key is checked against the table by the
      caller): on a full write the three required fields are present, any stars given are
      within the validators' range, and any review text given is not blank. */
  predicate ReviewBodyValid(body: ReviewBody, partial: bool) {
    && (partial || (body.stars.Some? && body.text.Some? && body.spoilers.Some?))
    && (body.stars.Some? ==> ValidStars(body.stars.value))
    && (body.text.Some? ==> body.text.value != "")
  }

  /** GenresSerializer's validation of the nested genre names. */
  predicate ValidGenreNames(names: seq<string>) {
    forall k :: 0 <= k < |names| ==> ValidChars(names[k], SHORT_FIELD)
  }

  function ByCritic(critic: Option<nat>): Review -> bool {
    (r: Review) => r.critic == critic
  }

  function OnMovie(movie: Option<nat>): Review -> bool {
    (r: Review) => r.movie == movie
  }

  /** The duplicate check of ReviewSerializer.create: the chained critic and movie filters
      select something. */
  function AlreadyReviewed(rs: seq<Review>, critic: nat, movie: nat): (found: bool)
    ensures found <==> exists r :: r in rs && r.critic == Some(critic) && r.movie == Some(movie)
  {
    var mine := Filter(rs, ByCritic(Some(critic)));
    var both := Filter(mine, OnMovie(Some(movie)));
    forall r ensures r in both <==> r in rs && r.critic == Some(critic) && r.movie == Some(movie) {
      MemberOfFilter(rs, ByCritic(Some(critic)), r);
      MemberOfFilter(mine, OnMovie(Some(movie)), r);
    }
    assert both != [] <==> exists r :: r in both by {
      if both != [] { assert both[0] in both; }
    }
    both != []
  }

  const ALREADY_REVIEWED := "You already made this review."

  /** ReviewSerializer.update on one row: every field present in the body replaces the stored
      one, the movie key follows the body when it is given, and the critic becomes the caller. */
  function Patched(r: Review, body: ReviewBody, caller: nat): Review {
    Review(r.id,
           if body.stars.Some? then body.stars.value else r.stars,
           if body.text.Some? then body.text.value else r.text,
           if body.spoilers.Some? then body.spoilers.value else r.spoilers,
           match body.movie
           case NoMovie => r.movie
           case NullMovie => None
           case MovieId(m) => Some(m),
           Some(caller))
  }

  /** The review table after ReviewSerializer.update ran on the row with key `id`. */
  function PatchById(rs: seq<Review>, id: nat, body: ReviewBody, caller: nat): (r: seq<Review>)
    ensures |r| == |rs|
    ensures forall k :: 0 <= k < |rs| ==> r[k].id == rs[k].id
    ensures forall k :: 0 <= k < |rs| && rs[k].id == id ==> r[k].critic == Some(caller)
    ensures forall k :: 0 <= k < |rs| && rs[k].id != id ==> r[k] == rs[k]
  {
    seq(|rs|, k requires 0 <= k < |rs| => if rs[k].id == id then Patched(rs[k], body, caller) else rs[k])
  }

  /** An update that leaves every row's critic and movie as they were keeps one review per
      pair. */
  lemma SamePairsKeepOnePerPair(before: seq<Review>, after: seq<Review>)
    requires |before| == |after|
    requires forall k :: 0 <= k < |after| ==> after[k].critic == before[k].critic && after[k].movie == before[k].movie
    ensures OneReviewPerPair(before) ==> OneReviewPerPair(after)
  {
    if OneReviewPerPair(before) {
      forall i, j | 0 <= i < j < |after| ensures DistinctPair(after[i], after[j]) {
        assert DistinctPair(before[i], before[j]);
      }
    }
  }
}
