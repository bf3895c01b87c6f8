/** Pagination of a query result: twelve cards per page, pages numbered from 1. */
module Pagination {

  /** Cards per page (`per_page`). */
  const PerPage: nat := 12

  /** `math.ceil(n / per_page)`: the fewest pages that hold `n` results. */
  function TotalPages(n: nat): (t: nat)
    ensures n <= t * PerPage
    ensures t > 0 ==> (t - 1) * PerPage < n
  {
    (n + PerPage - 1) / PerPage
  }

  function Min(a: int, b: int): int {
    if a <= b then a else b
  }

  /** `results.iloc[start:end]` with `start = (page - 1) * per_page` and
      `end = start + per_page`; slicing past the end yields fewer rows or none. */
  function PageSlice<T>(results: seq<T>, page: int): (r: seq<T>)
    requires page >= 1
    ensures |r| <= PerPage
    ensures r != [] ==> (page - 1) * PerPage + |r| <= |results|
    ensures forall k :: 0 <= k < |r| ==> r[k] == results[(page - 1) * PerPage + k]
    ensures page <= TotalPages(|results|) ==> |r| > 0
    ensures page < TotalPages(|results|) ==> |r| == PerPage
    ensures page > TotalPages(|results|) ==> r == []
    ensures page <= TotalPages(|results|) ==> (page - 1) * PerPage + |r| == Min(page * PerPage, |results|)
  {
    var start := (page - 1) * PerPage;
    var end := start + PerPage;
    if start >= |results| then [] else results[start..Min(end, |results|)]
  }

  /** Pages 1 to `k`, one after the other. */
  function PagesUpTo<T>(results: seq<T>, k: nat): seq<T> {
    if k == 0 then [] else PagesUpTo(results, k - 1) + PageSlice(results, k)
  }

  /** The first `k` pages are the first `min(12 k, n)` results. */
  lemma {:induction false} PagesUpToPrefix<T>(results: seq<T>, k: nat)
    ensures PagesUpTo(results, k) == results[..Min(k * PerPage, |results|)]
  {
    if k > 0 {
      PagesUpToPrefix(results, k - 1);
      var before := Min((k - 1) * PerPage, |results|);
      var page := PageSlice(results, k);
      if (k - 1) * PerPage >= |results| {
        assert page == [];
      } else {
        assert results[..Min(k * PerPage, |results|)] == results[..before] + page;
      }
    }
  }

  /** Reading every page in order reproduces the whole result. */
  lemma PagesReassemble<T>(results: seq<T>)
    ensures PagesUpTo(results, TotalPages(|results|)) == results
  {
    PagesUpToPrefix(results, TotalPages(|results|));
    assert results[..|results|] == results;
  }

  /** Every result appears on page `i / 12 + 1` at position `i % 12`. */
  lemma PageOfIndex<T>(results: seq<T>, i: nat)
    requires i < |results|
    ensures 1 <= i / PerPage + 1 <= TotalPages(|results|)
    ensures i % PerPage < |PageSlice(results, i / PerPage + 1)|
    ensures PageSlice(results, i / PerPage + 1)[i % PerPage] == results[i]
  {
    var p := i / PerPage + 1;
    assert (p - 1) * PerPage + i % PerPage == i;
  }

  /** What the result area shows: a "not found" notice, or one page together
      with the page count and the number of results found. */
  datatype View<T> = NotFound | Showing(cards: seq<T>, totalPages: nat, found: nat)

  /** The result area for `results` at the page chosen in the page selector,
      whose lowest value is 1. */
  function ShowResults<T>(results: seq<T>, page: int): (v: View<T>)
    requires page >= 1
    ensures v.NotFound? <==> results == []
    ensures v.Showing? ==> v.found == |results| && v.totalPages >= 1
                           && (v.totalPages - 1) * PerPage < |results| <= v.totalPages * PerPage
    ensures v.Showing? && page <= v.totalPages ==> 1 <= |v.cards| <= PerPage
    ensures v.Showing? && v.cards != [] ==> (page - 1) * PerPage + |v.cards| <= |results|
    ensures v.Showing? ==> forall k :: 0 <= k < |v.cards| ==> v.cards[k] == results[(page - 1) * PerPage + k]
    ensures v.Showing? && page <= v.totalPages ==> (page - 1) * PerPage + |v.cards| == Min(page * PerPage, |results|)
  {
    if results == [] then NotFound
    else Showing(PageSlice(results, page), TotalPages(|results|), |results|)
  }
}
