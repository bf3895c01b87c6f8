/** Concrete queries that pin down the rating band, case-insensitive title
    search and the sort keys on small tables. */
module FilterExamples {
  import opened Optional
  import opened Strings
  import opened Movies
  import opened Filtering

  /** A row with only a rating and a year. */
  function Rated(rating: real, year: int): Movie {
    Movie(None, None, rating, year)
  }

  /** A target of 7 keeps 7.9 and drops both 8.0 (the band's open end) and 6.9. */
  lemma RatingBandExample()
    ensures FilterMovies([Rated(6.9, 2000), Rated(7.9, 2000), Rated(8.0, 2000)], [], 7.0, []) == [Rated(7.9, 2000)]
  {
    var table := [Rated(6.9, 2000), Rated(7.9, 2000), Rated(8.0, 2000)];
    var r := FilterMovies(table, [], 7.0, []);
    assert multiset(r) == multiset{Rated(7.9, 2000)} by {
      forall m ensures multiset(r)[m] == multiset{Rated(7.9, 2000)}[m] {
        if m in table {
          assert m == table[0] || m == table[1] || m == table[2];
        }
      }
    }
    assert |r| == 1 by {
      assert |multiset(r)| == 1;
    }
    assert r[0] in multiset(r);
  }

  lemma LowerBatman()
    ensures Lower("batman") == "batman"
    ensures Lower("Batman Begins")[..6] == "batman"
  {
  }

  lemma BatmanTitleMatches()
    ensures TitleMatches(Movie(Some("Batman Begins"), None, 8.2, 2005), "batman")
  {
    LowerBatman();
    assert OccursAt(Lower("Batman Begins"), Lower("batman"), 0);
  }

  /** Searching "batman" finds the title "Batman Begins". */
  lemma CaseInsensitiveSearchExample()
    ensures var m := Movie(Some("Batman Begins"), None, 8.2, 2005);
            FilterMovies([m], [], 0.0, "batman") == [m]
  {
    var m := Movie(Some("Batman Begins"), None, 8.2, 2005);
    BatmanTitleMatches();
    var r := FilterMovies([m], [], 0.0, "batman");
    assert multiset(r) == multiset{m} by {
      forall x ensures multiset(r)[x] == multiset{m}[x] {
      }
    }
    assert |multiset(r)| == 1;
    assert r[0] in multiset(r);
  }

  /** Year dominates Rating: 2015 with 5.0 comes before 2010 with 8.0. */
  lemma YearFirstExample()
    ensures FilterMovies([Rated(8.0, 2010), Rated(5.0, 2015)], [], 0.0, []) == [Rated(5.0, 2015), Rated(8.0, 2010)]
  {
    var a, b := Rated(8.0, 2010), Rated(5.0, 2015);
    var r := FilterMovies([a, b], [], 0.0, []);
    assert multiset(r) == multiset{a, b} by {
      forall x ensures multiset(r)[x] == multiset{a, b}[x] {
      }
    }
    assert |multiset(r)| == 2;
    assert r[0] in multiset(r) && r[1] in multiset(r);
    assert Precedes(r[0], r[1]);
  }
}
