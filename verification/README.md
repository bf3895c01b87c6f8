# Movie recommender filter engine, in Dafny

A model of the non-UI logic of a small movie browser. The browser loads a
table of movies and lets a user narrow it down. The model covers three parts:

- **Genre extraction** (`get_genres`). It splits every Genre cell on commas and
  strips whitespace from each piece. It returns the distinct tags in sorted order.
- **The filter engine** (`filter_movies`). It applies three steps:
  - a case-insensitive genre match that OR-combines the selected tags and
    ignores the "All" choice;
  - a one-point rating band `[r, r + 1)`, applied only when `r > 0`;
  - a case-insensitive title search.

  It then sorts the rows by Year descending and Rating descending.
- **Pagination** in `main`. Results are shown twelve per page, and the page
  count is a ceiling division.

Each step is computed here by the model's own means: a scanning substring
search stands in for the regular-expression and `str.contains` matches, a
recursive selection for the boolean row mask, and an insertion sort for pandas'
`sort_values`. Each is then proved equal to an independent description of what
it should return. The filter steps are matched against the
predicates `GenreMatches`, `RatingMatches` and `TitleMatches`. The sort's output
is proved to be a permutation of its input and to be in key order. Genre
extraction is proved to return a strictly increasing sequence whose elements
are exactly the trimmed pieces of the Genre cells. Pagination is proved to cover
the result exactly once, in order.

Modules, one per file:

| file | module | content |
|---|---|---|
| optional.dfy | `Optional` | `Option` (a missing cell) and `Result` (a raised error) |
| strings.dfy | `Strings` | Python's `strip`, `split`, `lower`, substring test and string order |
| seqs.dfy | `Seqs` | order-preserving row selection (`data[mask]`) |
| movies.dfy | `Movies` | the `Movie` row |
| genres.dfy | `Genres` | `get_genres` |
| genre_examples.dfy | `GenreExamples` | a worked case-sensitive deduplication |
| filtering.dfy | `Filtering` | `filter_movies` and its properties |
| filter_examples.dfy | `FilterExamples` | worked rating-band, search and sort cases |
| pagination.dfy | `Pagination` | page count, page slices, the result area |

## Model

| member | source | states |
|---|---|---|
| `Strings.StripSplits` | final_project_REAPYTHON5RMVKZ/app.py:17 | `strip()` returns a contiguous middle part of the input. That part has no whitespace at either end, and everything cut off on both sides is whitespace. |
| `Strings.StripUnique` | final_project_REAPYTHON5RMVKZ/app.py:17 | Whitespace padding around a trimmed middle strips back to exactly that middle, so the properties in `StripSplits` fix the result of `Strip`. |
| `Strings.StripIdempotent` | final_project_REAPYTHON5RMVKZ/app.py:17 | Stripping an already stripped tag changes nothing. |
| `Strings.Split` | final_project_REAPYTHON5RMVKZ/app.py:16 | `split(',')` yields at least one piece. No piece contains a comma, and joining the pieces with commas rebuilds the cell. |
| `Strings.SplitJoin` | final_project_REAPYTHON5RMVKZ/app.py:16 | Splitting undoes joining when no piece holds the separator. Together with `Split` this makes the two inverses. |
| `Strings.Lower` | final_project_REAPYTHON5RMVKZ/app.py:38 | `lower()` keeps the length and lower-cases each character in place. |
| `Strings.LowerIdempotent` | final_project_REAPYTHON5RMVKZ/app.py:38 | Lower-casing twice equals lower-casing once, and no upper-case ASCII letter is left. |
| `Strings.Contains` | final_project_REAPYTHON5RMVKZ/app.py:38 | The scanning substring search returns true iff the needle occurs at some index of the haystack. |
| `Strings.ContainsIgnoringCase` | final_project_REAPYTHON5RMVKZ/app.py:38 | The case-insensitive test holds iff the lower-cased needle occurs in the lower-cased haystack. |
| `Strings.StrLessTransitive` | final_project_REAPYTHON5RMVKZ/app.py:18 | The code-point string order used by `sorted` is transitive. |
| `Strings.StrLessTotal` | final_project_REAPYTHON5RMVKZ/app.py:18 | Any two different strings are ordered one way or the other. |
| `Seqs.Filter` | final_project_REAPYTHON5RMVKZ/app.py:27 | A boolean row mask keeps exactly the rows that pass, with all their copies. It never keeps more rows than the input, and it is the identity when every row passes. |
| `Seqs.FilterConcat` | final_project_REAPYTHON5RMVKZ/app.py:27 | Selecting from two tables placed one after the other equals selecting from each and concatenating the results, so kept rows stay in their table order. |
| `Genres.CellTags` | final_project_REAPYTHON5RMVKZ/app.py:16-17 | The tags of one Genre cell are exactly the stripped forms of its comma-separated pieces. |
| `Genres.InsertTag` | final_project_REAPYTHON5RMVKZ/app.py:17-18 | Adding one tag to a strictly sorted list keeps it strictly sorted, and the elements become the old ones plus that tag. |
| `Genres.InsertTags` | final_project_REAPYTHON5RMVKZ/app.py:16-17 | Adding a cell's tags keeps the list strictly sorted and adds exactly those tags. |
| `Genres.CollectFrom` | final_project_REAPYTHON5RMVKZ/app.py:15-17 | The walk over the rows fails iff some remaining Genre cell is missing, and then it reports the first such row. Otherwise its elements are exactly the tags collected so far plus the tags of the remaining rows. |
| `Genres.GetGenres` | final_project_REAPYTHON5RMVKZ/app.py:13-18 | `get_genres` succeeds iff every Genre cell is present, and a missing cell is reported by its first row. On success the result is strictly increasing, has no duplicates, and holds a tag iff the tag is the stripped form of a comma-separated piece of some row's Genre. |
| `Genres.StrictlySortedUnique` | final_project_REAPYTHON5RMVKZ/app.py:18 | Two strictly sorted lists with the same elements are equal, so the result of `GetGenres` is `sorted` of the tag set. |
| `GenreExamples.CaseSensitiveDedupExample` | final_project_REAPYTHON5RMVKZ/app.py:14-18 | For cells "Action, Comedy" and "comedy, Drama" the result is `["Action", "Comedy", "Drama", "comedy"]`. Deduplication is by exact string. |
| `Filtering.MatchesAnyGenre` | final_project_REAPYTHON5RMVKZ/app.py:26-27 | The alternation of the selected tags matches a Genre cell iff some tag occurs in it, ignoring case. |
| `Filtering.GenreStep` | final_project_REAPYTHON5RMVKZ/app.py:23-27 | If the selection is only "All" or empty, every row is kept. Otherwise a row is kept iff its Genre is present and contains some selected non-"All" tag, ignoring case. Kept rows keep all their copies, and a step that every row passes is the identity. |
| `Filtering.RatingStep` | final_project_REAPYTHON5RMVKZ/app.py:29-34 | For `rating > 0` a row is kept iff `rating <= Rating < rating + 1`. For `rating <= 0` every row is kept. |
| `Filtering.SearchStep` | final_project_REAPYTHON5RMVKZ/app.py:36-38 | For a non-empty query a row is kept iff its Title is present and its lower-cased form contains the lower-cased query. An empty query keeps every row. |
| `Filtering.Insert` | final_project_REAPYTHON5RMVKZ/app.py:40-43 | Inserting into a list sorted by (Year, Rating) descending keeps it sorted and adds exactly one copy of the row. |
| `Filtering.SortByYearRating` | final_project_REAPYTHON5RMVKZ/app.py:40-43 | The sort returns a permutation of its input in which every earlier row has a later Year, or the same Year and a Rating at least as high. |
| `Filtering.FilterMovies` | final_project_REAPYTHON5RMVKZ/app.py:20-43 | The result is a permutation of exactly those table rows that pass all three steps, each with its full multiplicity. A row is in it iff it is in the table and passes. The result is ordered by Year descending, then Rating descending. |
| `Filtering.SortKeepsSorted` | final_project_REAPYTHON5RMVKZ/app.py:40-43 | Sorting rows that are already in key order leaves them unchanged. |
| `Filtering.FilterIdempotent` | final_project_REAPYTHON5RMVKZ/app.py:20-43 | Re-running a query on its own result gives the same rows in the same order. |
| `Filtering.UnrestrictedQueryKeepsAll` | final_project_REAPYTHON5RMVKZ/app.py:24-38 | Genres only "All" or none, a rating of at most 0 and an empty search together return every row of the table, reordered. |
| `FilterExamples.RatingBandExample` | final_project_REAPYTHON5RMVKZ/app.py:30-34 | A rating of 7 keeps 7.9 and drops 8.0 and 6.9. |
| `FilterExamples.CaseInsensitiveSearchExample` | final_project_REAPYTHON5RMVKZ/app.py:37-38 | Searching "batman" finds "Batman Begins". |
| `FilterExamples.YearFirstExample` | final_project_REAPYTHON5RMVKZ/app.py:40-43 | A 2015 row rated 5.0 is listed before a 2010 row rated 8.0, because Year dominates. |
| `Pagination.TotalPages` | final_project_REAPYTHON5RMVKZ/app.py:151-152 | The page count is the least `t` with `n <= 12 t`, which is `ceil(n / 12)`. |
| `Pagination.PageSlice` | final_project_REAPYTHON5RMVKZ/app.py:163-165 | Page `p` holds at most 12 results, namely those at positions `12 (p - 1)` onward in order. It is non-empty for `p <= total_pages`, full for `p < total_pages`, and empty beyond the last page. On any page up to the last, it ends at position `min(12 p, n)`, so the last page holds every remaining result. |
| `Pagination.PagesUpToPrefix` | final_project_REAPYTHON5RMVKZ/app.py:163-165 | The first `k` pages concatenated are the first `min(12 k, n)` results. |
| `Pagination.PagesReassemble` | final_project_REAPYTHON5RMVKZ/app.py:151-165 | Concatenating pages 1 to `total_pages` reproduces the whole result. |
| `Pagination.PageOfIndex` | final_project_REAPYTHON5RMVKZ/app.py:151-165 | Result `i` is shown on page `i / 12 + 1` at position `i % 12`, and that page is within the page selector's range. |
| `Pagination.ShowResults` | final_project_REAPYTHON5RMVKZ/app.py:142-167 | An empty result shows the not-found notice. Otherwise the view shows the result count, `ceil(n / 12)` pages and 1 to 12 cards for any selectable page. The cards are the whole slice `iloc[12 (p - 1) : 12 p]` of the result: they start at position `12 (p - 1)` and end at `min(12 p, n)`. |

## Where the code decides

- `get_genres` raises when a Genre cell is missing, because it calls `split` on
  a NaN. The filter engine, by contrast, treats a missing cell as a non-match.
  `Genres.GetGenres` returns `Failure(MissingGenre(row))` for the first such row.
- Genre deduplication is by exact string: no case folding happens before the
  tags enter the set. "Comedy" and "comedy" are therefore two tags
  (`GenreExamples.CaseSensitiveDedupExample`). Case-insensitive deduplication
  would not match the code.
- The code does not promise to keep rows that tie on both Year and Rating in
  their input order. Only the key order is claimed about the code.

## Left out

- Streamlit rendering is not modelled: the sidebar widgets, `session_state`,
  the callbacks and the HTML cards (app.py:49-198). This is UI plumbing. Two of
  the three call sites (app.py:83-87, 135-139) pass a rating of -1 when only the
  genres or the search change. That case is covered by `RatingStep` for any
  `rating <= 0`. The rating button (app.py:112-116) passes the slider's value.
- Loading the CSV file with `pd.read_csv` and reporting a missing file
  (app.py:11, 60-64) are left out as I/O. The table is a parameter.
- The Runtime, Director and Description columns, and the 140-character
  description cut-off, are display-only. They are not part of `Movie`.
- The row labels pandas keeps after filtering are left out. Pagination uses
  positions (`iloc`), and the model returns positions only.
- Filtering.MatchesAnyGenre: the selected tags are joined with `|` and used
  as a regular expression. The model treats this as "contains any selected tag
  literally". That is exact only when the tags contain no regular-expression
  metacharacters.
- Filtering.SearchStep: pandas' `str.contains` also reads the search query as
  a regular expression. The model treats it as a literal substring, so a query
  with metacharacters such as `.` or `(` is not modelled.
- Strings.Lower: only ASCII letters are lower-cased. Python's full Unicode case
  mapping, and the regex IGNORECASE folding used for genres, agree with this on
  ASCII text only.
- Filtering.SortByYearRating: the model sorts with a stable insertion sort.
  Its contract claims only the key order and the permutation. The tie order of
  pandas' `sort_values` is not claimed. `Filtering.SortKeepsSorted` and
  `Filtering.FilterIdempotent` rely on the model's stable tie order.
- Rating is a mathematical `real`, not a binary float. NaN ratings and
  rounding at the band edges are not modelled. Year is an unbounded integer.
- Pagination.TotalPages: the code divides as floats and then takes the
  ceiling. The integer form used here agrees for every count below 2^53.
- The page selector's upper bound (`max_value=total_pages`) is not a
  precondition. `PageSlice` and `ShowResults` accept any page from 1 upward,
  as slicing in the code does.
