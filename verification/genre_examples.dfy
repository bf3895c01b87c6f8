/** A worked instance of genre extraction: two Genre cells that share a tag up
    to letter case, "Action, Comedy" and "comedy, Drama". Deduplication is by
    exact string, so both spellings survive, and sorting by code point puts
    upper-case initials before lower-case ones.
 */
module GenreExamples {
  import opened Optional
  import opened Strings
  import opened Movies
  import opened Genres

  /** Two rows whose Genre cells differ only in the case of one tag. */
  function MixedCaseTable(): seq<Movie> {
    [Movie(None, Some("Action, Comedy"), 7.0, 2010),
     Movie(None, Some("comedy, Drama"), 8.0, 2012)]
  }

  /** Leading whitespace alone is removed by stripping. */
  lemma StripPadded(front: string, m: string)
    requires AllSpace(front) && Trimmed(m)
    ensures Strip(front + m) == m
  {
    assert front + m + [] == front + m;
    StripUnique(front, m, []);
  }

  /** A cell that splits into two pieces has exactly their stripped forms as tags. */
  lemma TwoTags(g: string, a: string, b: string, ta: string, tb: string)
    requires Split(g, Separator) == [a, b] && Strip(a) == ta && Strip(b) == tb
    ensures forall t :: IsCellTag(t, g) <==> t == ta || t == tb
  {
    assert a in [a, b] && b in [a, b];
  }

  lemma FirstRowPieces()
    ensures Split("Action, Comedy", Separator) == ["Action", " Comedy"]
  {
    assert Join(["Action", " Comedy"], Separator) == "Action, Comedy";
    SplitJoin(["Action", " Comedy"], Separator);
  }

  lemma SecondRowPieces()
    ensures Split("comedy, Drama", Separator) == ["comedy", " Drama"]
  {
    assert Join(["comedy", " Drama"], Separator) == "comedy, Drama";
    SplitJoin(["comedy", " Drama"], Separator);
  }

  lemma StrippedAction() ensures Strip("Action") == "Action" {
    assert [] + "Action" == "Action";
    StripPadded([], "Action");
  }

  lemma StrippedComedy() ensures Strip(" Comedy") == "Comedy" {
    assert [' '] + "Comedy" == " Comedy";
    StripPadded([' '], "Comedy");
  }

  lemma StrippedLowerComedy() ensures Strip("comedy") == "comedy" {
    assert [] + "comedy" == "comedy";
    StripPadded([], "comedy");
  }

  lemma StrippedDrama() ensures Strip(" Drama") == "Drama" {
    assert [' '] + "Drama" == " Drama";
    StripPadded([' '], "Drama");
  }

  lemma FirstRowTags()
    ensures forall t :: IsCellTag(t, "Action, Comedy") <==> t == "Action" || t == "Comedy"
  {
    FirstRowPieces();
    StrippedAction();
    StrippedComedy();
    TwoTags("Action, Comedy", "Action", " Comedy", "Action", "Comedy");
  }

  lemma SecondRowTags()
    ensures forall t :: IsCellTag(t, "comedy, Drama") <==> t == "comedy" || t == "Drama"
  {
    SecondRowPieces();
    StrippedLowerComedy();
    StrippedDrama();
    TwoTags("comedy, Drama", "comedy", " Drama", "comedy", "Drama");
  }

  /** The tags of a two-row table are those of its two cells. */
  lemma TwoRowTags(table: seq<Movie>, t: string)
    requires |table| == 2 && table[0].genre.Some? && table[1].genre.Some?
    ensures IsGenreTag(t, table) <==> IsCellTag(t, table[0].genre.value) || IsCellTag(t, table[1].genre.value)
  {
    assert HasTag(table[0], t) <==> IsCellTag(t, table[0].genre.value);
    assert HasTag(table[1], t) <==> IsCellTag(t, table[1].genre.value);
  }

  lemma MixedCaseTags()
    ensures forall t :: IsGenreTag(t, MixedCaseTable()) <==> t in ["Action", "Comedy", "Drama", "comedy"]
  {
    FirstRowTags();
    SecondRowTags();
    forall t ensures IsGenreTag(t, MixedCaseTable()) <==> t in ["Action", "Comedy", "Drama", "comedy"] {
      TwoRowTags(MixedCaseTable(), t);
    }
  }

  lemma MixedCaseSorted()
    ensures StrictlySorted(["Action", "Comedy", "Drama", "comedy"])
  {
    var e := ["Action", "Comedy", "Drama", "comedy"];
    assert StrLess(e[0], e[1]) && StrLess(e[0], e[2]) && StrLess(e[0], e[3]);
    assert StrLess(e[1], e[2]) && StrLess(e[1], e[3]) && StrLess(e[2], e[3]);
  }

  /** "Comedy" and "comedy" are kept as two tags, in code-point order. */
  lemma CaseSensitiveDedupExample()
    ensures GetGenres(MixedCaseTable()) == Success(["Action", "Comedy", "Drama", "comedy"])
  {
    var table := MixedCaseTable();
    var r := GetGenres(table);
    assert table[0].genre.Some? && table[1].genre.Some?;
    MixedCaseTags();
    MixedCaseSorted();
    StrictlySortedUnique(r.value, ["Action", "Comedy", "Drama", "comedy"]);
  }
}
