/** The `?title=` filter on the movie list: a case-insensitive substring match on the title. */
module Search {
  import opened Models
  import opened Seqs

  /** Lower-casing of the ASCII letters; other characters are kept as they are. */
  function LowerChar(c: char): char {
    if 'A' <= c <= 'Z' then (c as int + 32) as char else c
  }

  function Lower(s: string): string {
    seq(|s|, i requires 0 <= i < |s| => LowerChar(s[i]))
  }

  /** `needle` occurs in `hay` starting at offset `i`. */
  predicate OccursAt(needle: string, hay: string, i: int) {
    0 <= i <= |hay| - |needle| && hay[i..i + |needle|] == needle
  }

  /** `needle` occurs in `hay` at some offset. */
  ghost predicate OccursIn(needle: string, hay: string) {
    exists i :: OccursAt(needle, hay, i)
  }

  lemma ShiftedOccurrence(needle: string, hay: string)
    requires |needle| <= |hay| && hay != []
    ensures OccursIn(needle, hay) <==> needle <= hay || OccursIn(needle, hay[1..])
  {
    var tail := hay[1..];
    if OccursIn(needle, hay) && !(needle <= hay) {
      var i :| OccursAt(needle, hay, i);
      assert i != 0;
      assert tail[i - 1..i - 1 + |needle|] == needle;
      assert OccursAt(needle, tail, i - 1);
    }
    if OccursIn(needle, tail) {
      var i :| OccursAt(needle, tail, i);
      assert hay[i + 1..i + 1 + |needle|] == needle;
      assert OccursAt(needle, hay, i + 1);
    }
    if needle <= hay {
      assert hay[0..|needle|] == needle;
      assert OccursAt(needle, hay, 0);
    }
  }

  /** The containment test the filter runs: try each offset from the left. */
  function Contains(hay: string, needle: string): (r: bool)
    ensures r <==> OccursIn(needle, hay)
  {
    if |needle| > |hay| then false
    else if needle <= hay then (assert OccursAt(needle, hay, 0); true)
    else (ShiftedOccurrence(needle, hay); Contains(hay[1..], needle))
  }

  /** A needle whose first character is absent from `hay` does not occur in it. */
  lemma MissingFirstChar(needle: string, hay: string)
    requires needle != [] && forall k :: 0 <= k < |hay| ==> hay[k] != needle[0]
    ensures !OccursIn(needle, hay)
  {
    forall i | 0 <= i <= |hay| - |needle| ensures !OccursAt(needle, hay, i) {
      assert hay[i..i + |needle|][0] == hay[i];
    }
  }

  lemma LowerIdempotent(s: string)
    ensures Lower(Lower(s)) == Lower(s)
  {
  }

  function TitleMatches(m: Movie, query: string): bool {
    Contains(Lower(m.title), Lower(query))
  }

  /** SearchForTitle on the movie table: the movies whose lower-cased title contains the
      lower-cased query, in table order. */
  function TitleSearch(ms: seq<Movie>, query: string): (r: seq<Movie>)
    ensures forall m :: m in r <==> m in ms && OccursIn(Lower(query), Lower(m.title))
    ensures forall m :: multiset(r)[m] <= multiset(ms)[m]
  {
    var r := Filter(ms, m => TitleMatches(m, query));
    FilterCount(ms, m => TitleMatches(m, query));
    forall m ensures m in r <==> m in ms && TitleMatches(m, query) {
      MemberOfFilter(ms, m => TitleMatches(m, query), m);
    }
    r
  }

  /** An empty query selects every movie. */
  lemma EmptyQuerySelectsAll(ms: seq<Movie>, m: Movie)
    requires m in ms
    ensures m in TitleSearch(ms, "")
  {
    assert Lower("") == "";
    assert OccursAt("", Lower(m.title), 0);
  }

  /** The query's case does not matter. */
  lemma QueryCaseIrrelevant(ms: seq<Movie>, query: string)
    ensures TitleSearch(ms, Lower(query)) == TitleSearch(ms, query)
  {
    LowerIdempotent(query);
    FilterCongruent(ms, m => TitleMatches(m, Lower(query)), m => TitleMatches(m, query));
  }

  /** The three titles of the catalog test: "liberdade" selects the last two. */
  lemma LiberdadeSelectsTwo(a: Movie, b: Movie, c: Movie)
    requires a.title == "O Poderoso Chefão" && b.title == "Um Sonho de liberdade"
    requires c.title == "Em busca de liberdade"
    ensures TitleSearch([a, b, c], "liberdade") == [b, c]
  {
    TitleMatchFacts(a, b, c);
    var p := m => TitleMatches(m, "liberdade");
    assert [a, b, c][1..] == [b, c] && [b, c][1..] == [c] && [c][1..] == [];
    assert Filter([c], p) == [c];
    assert Filter([b, c], p) == [b, c];
    assert Filter([a, b, c], p) == [b, c];
  }

  lemma TitleMatchFacts(a: Movie, b: Movie, c: Movie)
    requires a.title == "O Poderoso Chefão" && b.title == "Um Sonho de liberdade"
    requires c.title == "Em busca de liberdade"
    ensures !TitleMatches(a, "liberdade") && TitleMatches(b, "liberdade")
    ensures TitleMatches(c, "liberdade")
  {
    ChefaoMisses(a);
    MatchesAt(b, 12);
    MatchesAt(c, 12);
  }

  lemma ChefaoMisses(a: Movie)
    requires a.title == "O Poderoso Chefão"
    ensures !TitleMatches(a, "liberdade")
  {
    LowerLiteral("O Poderoso Chefão", "o poderoso chefão");
    LowerLiteral("liberdade", "liberdade");
    MissingFirstChar("liberdade", "o poderoso chefão");
  }

  /** A title that spells "liberdade" at offset `i` matches the query "liberdade". */
  lemma MatchesAt(m: Movie, i: nat)
    requires i + 9 <= |m.title| && m.title[i..i + 9] == "liberdade"
    ensures TitleMatches(m, "liberdade")
  {
    var low := Lower(m.title);
    LowerLiteral("liberdade", "liberdade");
    forall k | 0 <= k < 9 ensures low[i..i + 9][k] == "liberdade"[k] {
      assert m.title[i + k] == m.title[i..i + 9][k];
    }
    assert OccursAt("liberdade", low, i);
  }

  lemma LowerLiteral(s: string, t: string)
    requires |s| == |t| && forall i :: 0 <= i < |s| ==> LowerChar(s[i]) == t[i]
    ensures Lower(s) == t
  {
  }
}
