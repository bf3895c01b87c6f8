/** Genre extraction (`MovieRecommender.get_genres`): every distinct tag found
    in the comma-separated Genre column, whitespace-trimmed, returned sorted.
 */
module Genres {
  import opened Optional
  import opened Strings
  import opened Movies

  /** The character between the tags of one Genre cell. */
  const Separator: char := ','

  /** Why extraction stopped: the Genre cell of this row is missing, and
      splitting a missing value raises. */
  datatype GenreError = MissingGenre(row: nat)

  /** Strictly increasing in Python's string order: sorted and duplicate-free. */
  ghost predicate StrictlySorted(s: seq<string>) {
    forall i, j :: 0 <= i < j < |s| ==> StrLess(s[i], s[j])
  }

  /** `t` is one of the trimmed comma-separated pieces of the Genre cell `g`. */
  ghost predicate IsCellTag(t: string, g: string) {
    exists p :: p in Split(g, Separator) && Strip(p) == t
  }

  /** The row has a Genre cell and `t` is one of its tags. */
  ghost predicate HasTag(m: Movie, t: string) {
    m.genre.Some? && IsCellTag(t, m.genre.value)
  }

  /** `t` is a tag of some row at index `i` or later. */
  ghost predicate IsTagFrom(t: string, table: seq<Movie>, i: nat) {
    exists k :: i <= k < |table| && HasTag(table[k], t)
  }

  /** `t` is the trimmed form of a comma-separated piece of some row's Genre. */
  ghost predicate IsGenreTag(t: string, table: seq<Movie>) {
    IsTagFrom(t, table, 0)
  }

  /** The tags of one Genre cell, in the order they appear, repeats kept. */
  function CellTags(g: string): (r: seq<string>)
    ensures forall t :: t in r <==> IsCellTag(t, g)
  {
    var pieces := Split(g, Separator);
    var r := seq(|pieces|, k requires 0 <= k < |pieces| => Strip(pieces[k]));
    assert forall p :: p in pieces ==> Strip(p) in r by {
      forall p | p in pieces ensures Strip(p) in r {
        var k :| 0 <= k < |pieces| && pieces[k] == p;
        assert r[k] == Strip(p);
      }
    }
    r
  }

  /** Adds `t` to a strictly sorted sequence of tags, keeping it strictly
      sorted: the set insertion followed by the sort, done in one step. */
  function InsertTag(xs: seq<string>, t: string): (r: seq<string>)
    requires StrictlySorted(xs)
    ensures StrictlySorted(r)
    ensures forall x :: x in r <==> x in xs || x == t
  {
    if xs == [] then [t]
    else if t == xs[0] then xs
    else if StrLess(t, xs[0]) then
      assert forall j :: 0 < j < |xs| ==> StrLess(t, xs[j]) by {
        forall j | 0 < j < |xs| ensures StrLess(t, xs[j]) {
          StrLessTransitive(t, xs[0], xs[j]);
        }
      }
      [t] + xs
    else
      var rest := InsertTag(xs[1..], t);
      StrLessTotal(t, xs[0]);
      assert forall x :: x in rest ==> StrLess(xs[0], x);
      [xs[0]] + rest
  }

  /** Adds every tag of `ts` to `acc`. */
  function InsertTags(acc: seq<string>, ts: seq<string>): (r: seq<string>)
    requires StrictlySorted(acc)
    ensures StrictlySorted(r)
    ensures forall x :: x in r <==> x in acc || x in ts
    decreases |ts|
  {
    if ts == [] then acc
    else InsertTags(InsertTag(acc, ts[0]), ts[1..])
  }

  /** Walks the rows from `i` on, in table order, adding each row's tags to
      `acc`; the first row with a missing Genre stops the walk. */
  function CollectFrom(table: seq<Movie>, i: nat, acc: seq<string>): (r: Result<seq<string>, GenreError>)
    requires i <= |table|
    requires StrictlySorted(acc)
    ensures r.Success? <==> forall k :: i <= k < |table| ==> table[k].genre.Some?
    ensures r.Failure? ==> i <= r.error.row < |table| && table[r.error.row].genre.None?
                           && forall k :: i <= k < r.error.row ==> table[k].genre.Some?
    ensures r.Success? ==> StrictlySorted(r.value)
    ensures r.Success? ==> forall t :: t in r.value <==> t in acc || IsTagFrom(t, table, i)
    decreases |table| - i
  {
    if i == |table| then Success(acc)
    else match table[i].genre
      case None => Failure(MissingGenre(i))
      case Some(g) =>
        TagsFromStep(table, i);
        CollectFrom(table, i + 1, InsertTags(acc, CellTags(g)))
  }

  /** The tags from row `i` on are row `i`'s tags plus those from row `i + 1` on. */
  lemma TagFromStep(t: string, table: seq<Movie>, i: nat)
    requires i < |table|
    ensures IsTagFrom(t, table, i) <==> HasTag(table[i], t) || IsTagFrom(t, table, i + 1)
  {
    if IsTagFrom(t, table, i) {
      var k :| i <= k < |table| && HasTag(table[k], t);
      if k > i {
        assert IsTagFrom(t, table, i + 1);
      }
    }
    if IsTagFrom(t, table, i + 1) {
      var k :| i + 1 <= k < |table| && HasTag(table[k], t);
      assert i <= k;
    }
    if HasTag(table[i], t) {
      assert i <= i < |table|;
    }
  }

  lemma TagsFromStep(table: seq<Movie>, i: nat)
    requires i < |table|
    ensures forall t :: IsTagFrom(t, table, i) <==> HasTag(table[i], t) || IsTagFrom(t, table, i + 1)
  {
    forall t ensures IsTagFrom(t, table, i) <==> HasTag(table[i], t) || IsTagFrom(t, table, i + 1) {
      TagFromStep(t, table, i);
    }
  }

  /** `get_genres`: the distinct trimmed tags of all Genre cells, strictly
      increasing; fails at the first row whose Genre is missing. */
  function GetGenres(table: seq<Movie>): (r: Result<seq<string>, GenreError>)
    ensures r.Success? <==> forall k :: 0 <= k < |table| ==> table[k].genre.Some?
    ensures r.Failure? ==> r.error.row < |table| && table[r.error.row].genre.None?
                           && forall k :: 0 <= k < r.error.row ==> table[k].genre.Some?
    ensures r.Success? ==> StrictlySorted(r.value)
    ensures r.Success? ==> forall i, j :: 0 <= i < j < |r.value| ==> r.value[i] != r.value[j]
    ensures r.Success? ==> forall t :: t in r.value <==> IsGenreTag(t, table)
  {
    var r := CollectFrom(table, 0, []);
    assert r.Success? ==> forall i, j :: 0 <= i < j < |r.value| ==> r.value[i] != r.value[j] by {
      if r.Success? {
        forall i, j | 0 <= i < j < |r.value| ensures r.value[i] != r.value[j] {
          StrLessIrreflexive(r.value[i]);
        }
      }
    }
    r
  }

  /** A strictly sorted sequence is fixed by its elements, so the result of
      `GetGenres` is exactly `sorted(set_of_tags)`. */
  lemma {:induction false} StrictlySortedUnique(a: seq<string>, b: seq<string>)
    requires StrictlySorted(a) && StrictlySorted(b)
    requires forall x :: x in a <==> x in b
    ensures a == b
    decreases |a|
  {
    assert a != [] ==> a[0] in b;
    assert b != [] ==> b[0] in a;
    if a != [] && b != [] {
      var i :| 0 <= i < |a| && a[i] == b[0];
      var j :| 0 <= j < |b| && b[j] == a[0];
      if i > 0 && j > 0 {
        StrLessTransitive(a[0], b[0], a[0]);
        StrLessIrreflexive(a[0]);
      }
      assert a[0] == b[0];
      forall x ensures x in a[1..] <==> x in b[1..] {
        if x in a[1..] {
          var k :| 1 <= k < |a| && a[k] == x;
          StrLessIrreflexive(a[0]);
          assert x in b;
        }
        if x in b[1..] {
          var k :| 1 <= k < |b| && b[k] == x;
          StrLessIrreflexive(b[0]);
          assert x in a;
        }
      }
      StrictlySortedUnique(a[1..], b[1..]);
      assert a == [a[0]] + a[1..] && b == [b[0]] + b[1..];
    }
  }
}
