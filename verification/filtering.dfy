/** The filter engine (`MovieRecommender.filter_movies`): a genre step, a
    rating step and a title step, each a row selection over the table, then a
    sort by Year descending and Rating descending.

    Each step is the model's own computation: a scanning case-insensitive
    substring search stands in for the regular-expression matches that
    `filter_movies` uses for genres and titles. Each is proved equal (as a
    multiset of rows) to the selection described by an independent predicate:
    `GenreMatches`, `RatingMatches`, `TitleMatches`.
 */
module Filtering {
  import opened Optional
  import opened Strings
  import opened Seqs
  import opened Movies

  /** The genre choice that stands for "no genre restriction". */
  const AllGenres: string := "All"

  // ---------------------------------------------------------------------------
  // What each step should keep
  // ---------------------------------------------------------------------------

  /** The selection names no genre other than "All" (the empty selection included). */
  ghost predicate NoGenreRestriction(genres: seq<string>) {
    forall g :: g in genres ==> g == AllGenres
  }

  /** Without a genre restriction every row passes; otherwise a row passes when
      its Genre is present and holds some selected non-"All" tag, ignoring case. */
  ghost predicate GenreMatches(m: Movie, genres: seq<string>) {
    || NoGenreRestriction(genres)
    || (m.genre.Some? && exists g :: g in genres && g != AllGenres
                                     && IsSubstring(Lower(g), Lower(m.genre.value)))
  }

  /** A positive rating selects the band [rating, rating + 1); any other value
      selects everything. */
  ghost predicate RatingMatches(m: Movie, rating: real) {
    rating <= 0.0 || (rating <= m.rating && m.rating < rating + 1.0)
  }

  /** An empty query selects everything; otherwise the Title must be present
      and contain the query, ignoring case. */
  ghost predicate TitleMatches(m: Movie, query: string) {
    query == [] || (m.title.Some? && IsSubstring(Lower(query), Lower(m.title.value)))
  }

  ghost predicate Matches(m: Movie, genres: seq<string>, rating: real, query: string) {
    GenreMatches(m, genres) && RatingMatches(m, rating) && TitleMatches(m, query)
  }

  // ---------------------------------------------------------------------------
  // The steps as the model computes them
  // ---------------------------------------------------------------------------

  /** The alternation `g1|g2|...` matched case-insensitively against a Genre
      cell: some selected tag occurs in it. */
  function MatchesAnyGenre(cell: string, selected: seq<string>): (r: bool)
    ensures r <==> exists g :: g in selected && IsSubstring(Lower(g), Lower(cell))
  {
    if selected == [] then false
    else
      assert forall g :: g in selected <==> g == selected[0] || g in selected[1..];
      var head := selected[0];
      assert ContainsIgnoringCase(cell, head) ==> head in selected && IsSubstring(Lower(head), Lower(cell));
      ContainsIgnoringCase(cell, head) || MatchesAnyGenre(cell, selected[1..])
  }

  /** Drops the "All" entries; when any tag is left, keeps the rows whose
      Genre is present and matches one of them. */
  function GenreStep(data: seq<Movie>, genres: seq<string>): (r: seq<Movie>)
    ensures forall m :: multiset(r)[m] == if GenreMatches(m, genres) then multiset(data)[m] else 0
    ensures (forall m :: m in data ==> GenreMatches(m, genres)) ==> r == data
  {
    var selected := Filter(genres, g => g != AllGenres);
    if selected != [] then
      assert !NoGenreRestriction(genres);
      Filter(data, (m: Movie) => m.genre.Some? && MatchesAnyGenre(m.genre.value, selected))
    else
      data
  }

  /** Keeps the rows with `rating <= Rating < rating + 1` when `rating > 0`. */
  function RatingStep(data: seq<Movie>, rating: real): (r: seq<Movie>)
    ensures forall m :: multiset(r)[m] == if RatingMatches(m, rating) then multiset(data)[m] else 0
    ensures (forall m :: m in data ==> RatingMatches(m, rating)) ==> r == data
  {
    if rating > 0.0 then Filter(data, (m: Movie) => m.rating >= rating && m.rating < rating + 1.0)
    else data
  }

  /** Keeps the rows whose lower-cased Title contains the lower-cased query,
      when the query is non-empty. */
  function SearchStep(data: seq<Movie>, query: string): (r: seq<Movie>)
    ensures forall m :: multiset(r)[m] == if TitleMatches(m, query) then multiset(data)[m] else 0
    ensures (forall m :: m in data ==> TitleMatches(m, query)) ==> r == data
  {
    if query != [] then Filter(data, (m: Movie) => m.title.Some? && ContainsIgnoringCase(m.title.value, query))
    else data
  }

  // ---------------------------------------------------------------------------
  // Ordering
  // ---------------------------------------------------------------------------

  /** `a` may be listed before `b`: a later Year, or the same Year and a Rating
      at least as high. */
  predicate Precedes(a: Movie, b: Movie) {
    a.year > b.year || (a.year == b.year && a.rating >= b.rating)
  }

  ghost predicate SortedByYearRating(s: seq<Movie>) {
    forall i, j :: 0 <= i < j < |s| ==> Precedes(s[i], s[j])
  }

  /** Places `x` in front of the first row it may precede. */
  function Insert(x: Movie, ys: seq<Movie>): (r: seq<Movie>)
    requires SortedByYearRating(ys)
    ensures SortedByYearRating(r)
    ensures multiset(r) == multiset(ys) + multiset{x}
    ensures forall m :: m in r <==> m in ys || m == x
  {
    if ys == [] || Precedes(x, ys[0]) then [x] + ys
    else
      var rest := Insert(x, ys[1..]);
      assert ys == [ys[0]] + ys[1..];
      assert forall m :: m in rest ==> Precedes(ys[0], m);
      [ys[0]] + rest
  }

  /** `sort_values(by=["Year", "Rating"], ascending=[False, False])`, as an
      insertion sort. */
  function SortByYearRating(s: seq<Movie>): (r: seq<Movie>)
    ensures SortedByYearRating(r)
    ensures multiset(r) == multiset(s)
  {
    if s == [] then []
    else
      assert s == [s[0]] + s[1..];
      Insert(s[0], SortByYearRating(s[1..]))
  }

  // ---------------------------------------------------------------------------
  // The whole query
  // ---------------------------------------------------------------------------

  /** `filter_movies(genres, rating, search_query)`: the table rows passing all
      three steps, each kept with all its copies, ordered by Year and then
      Rating, both descending. The table itself is a value and is not changed. */
  function FilterMovies(table: seq<Movie>, genres: seq<string>, rating: real, query: string): (r: seq<Movie>)
    ensures forall m :: multiset(r)[m] == if Matches(m, genres, rating, query) then multiset(table)[m] else 0
    ensures forall m :: m in r <==> m in table && Matches(m, genres, rating, query)
    ensures SortedByYearRating(r)
  {
    var byGenre := GenreStep(table, genres);
    var byRating := RatingStep(byGenre, rating);
    var byTitle := SearchStep(byRating, query);
    var r := SortByYearRating(byTitle);
    assert forall m :: m in r <==> multiset(r)[m] > 0;
    assert forall m :: m in table <==> multiset(table)[m] > 0;
    r
  }

  // ---------------------------------------------------------------------------
  // Properties of the whole query
  // ---------------------------------------------------------------------------

  /** Sorting rows that are already in order leaves them where they are. */
  lemma {:induction false} SortKeepsSorted(s: seq<Movie>)
    requires SortedByYearRating(s)
    ensures SortByYearRating(s) == s
  {
    if s != [] {
      SortKeepsSorted(s[1..]);
      assert s == [s[0]] + s[1..];
    }
  }

  /** Running a query on its own result gives that result back, contents and
      order alike. */
  lemma FilterIdempotent(table: seq<Movie>, genres: seq<string>, rating: real, query: string)
    ensures FilterMovies(FilterMovies(table, genres, rating, query), genres, rating, query)
            == FilterMovies(table, genres, rating, query)
  {
    var once := FilterMovies(table, genres, rating, query);
    assert GenreStep(once, genres) == once;
    assert RatingStep(once, rating) == once;
    assert SearchStep(once, query) == once;
    SortKeepsSorted(once);
  }

  /** A query with no restriction of any kind ("All" or nothing for genres, a
      rating of at most 0, an empty search) returns every row of the table. */
  lemma UnrestrictedQueryKeepsAll(table: seq<Movie>, genres: seq<string>, rating: real)
    requires NoGenreRestriction(genres) && rating <= 0.0
    ensures multiset(FilterMovies(table, genres, rating, [])) == multiset(table)
    ensures |FilterMovies(table, genres, rating, [])| == |table|
  {
    var r := FilterMovies(table, genres, rating, []);
    assert forall m :: multiset(r)[m] == multiset(table)[m];
    assert multiset(r) == multiset(table);
    assert |multiset(r)| == |multiset(table)|;
  }
}
