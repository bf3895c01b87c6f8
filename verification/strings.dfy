/** The string operations the filter engine relies on, with Python's meaning:
    `str.strip()`, `str.split(sep)`, `str.lower()`, the `in` / `str.contains`
    substring test and the code-point ordering that `sorted` uses on strings.
 */
module Strings {

  /** Python's `str.isspace` for a single code point: the characters that
      `str.strip()` with no argument removes. */
  predicate IsSpace(c: char) {
    var n := c as int;
    || n == 0x20
    || 0x09 <= n <= 0x0D
    || 0x1C <= n <= 0x1F
    || n == 0x85
    || n == 0xA0
    || n == 0x1680
    || 0x2000 <= n <= 0x200A
    || n == 0x2028
    || n == 0x2029
    || n == 0x202F
    || n == 0x205F
    || n == 0x3000
  }

  ghost predicate AllSpace(s: string) {
    forall k :: 0 <= k < |s| ==> IsSpace(s[k])
  }

  /** Neither end of `s` is whitespace (vacuously true of ""). */
  ghost predicate Trimmed(s: string) {
    s == [] || (!IsSpace(s[0]) && !IsSpace(s[|s| - 1]))
  }

  /** Number of whitespace characters at the front of `s`. */
  function LeadingSpaces(s: string): (n: nat)
    ensures n <= |s|
    ensures forall k :: 0 <= k < n ==> IsSpace(s[k])
    ensures n < |s| ==> !IsSpace(s[n])
  {
    if s == [] || !IsSpace(s[0]) then 0 else 1 + LeadingSpaces(s[1..])
  }

  /** Number of whitespace characters at the back of `s`. */
  function TrailingSpaces(s: string): (n: nat)
    ensures n <= |s|
    ensures forall k :: |s| - n <= k < |s| ==> IsSpace(s[k])
    ensures n < |s| ==> !IsSpace(s[|s| - 1 - n])
  {
    if s == [] || !IsSpace(s[|s| - 1]) then 0 else 1 + TrailingSpaces(s[..|s| - 1])
  }

  /** Python's `s.strip()`: `s` without its leading and trailing whitespace. */
  function Strip(s: string): string {
    var i := LeadingSpaces(s);
    if i == |s| then [] else s[i..|s| - TrailingSpaces(s)]
  }

  /** The input splits as `front + Strip(s) + back` with whitespace-only outer
      parts, and the middle has no whitespace at either end. */
  lemma StripSplits(s: string)
    ensures Trimmed(Strip(s))
    ensures exists front, back :: s == front + Strip(s) + back && AllSpace(front) && AllSpace(back)
  {
    var i := LeadingSpaces(s);
    if i == |s| {
      var none: string := [];
      assert s == s + Strip(s) + none;
      assert AllSpace(s) && AllSpace(none);
    } else {
      var n := TrailingSpaces(s);
      assert i < |s| - n by {
        assert !IsSpace(s[i]);
      }
      var front, r, back := s[..i], Strip(s), s[|s| - n..];
      assert s == front + r + back;
      assert AllSpace(front) by {
        forall k | 0 <= k < |front| ensures IsSpace(front[k]) {
          assert front[k] == s[k];
        }
      }
      assert AllSpace(back) by {
        forall k | 0 <= k < |back| ensures IsSpace(back[k]) {
          assert back[k] == s[|s| - n + k];
        }
      }
    }
  }

  /** Whitespace in front of a part that does not start with whitespace is
      exactly what `LeadingSpaces` counts. */
  lemma {:induction false} LeadingSpacesOf(front: string, rest: string)
    requires AllSpace(front)
    requires rest == [] || !IsSpace(rest[0])
    ensures LeadingSpaces(front + rest) == |front|
  {
    if front != [] {
      assert (front + rest)[1..] == front[1..] + rest;
      LeadingSpacesOf(front[1..], rest);
    }
  }

  /** Whitespace after a part that does not end with whitespace is exactly
      what `TrailingSpaces` counts. */
  lemma {:induction false} TrailingSpacesOf(rest: string, back: string)
    requires AllSpace(back)
    requires rest == [] || !IsSpace(rest[|rest| - 1])
    ensures TrailingSpaces(rest + back) == |back|
  {
    if back != [] {
      assert (rest + back)[..|rest + back| - 1] == rest + back[..|back| - 1];
      TrailingSpacesOf(rest, back[..|back| - 1]);
    }
  }

  /** Strip is determined by its contract: whatever whitespace padding
      surrounds a trimmed middle, stripping gives back exactly that middle. */
  lemma StripUnique(front: string, m: string, back: string)
    requires AllSpace(front) && AllSpace(back) && Trimmed(m)
    ensures Strip(front + m + back) == m
  {
    var s := front + m + back;
    if m == [] {
      assert s == (front + back) + [];
      LeadingSpacesOf(front + back, []);
    } else {
      assert s == front + (m + back);
      LeadingSpacesOf(front, m + back);
      assert s[|front|..] == m + back;
      TrailingSpacesOf(m, back);
    }
  }

  /** Stripping twice changes nothing more than stripping once. */
  lemma StripIdempotent(s: string)
    ensures Strip(Strip(s)) == Strip(s)
  {
    var m := Strip(s);
    assert m == [] + m + [];
    StripUnique([], m, []);
  }

  /** Index of the first `c` in `s`, or `|s|` when `c` does not occur. */
  function IndexOf(s: string, c: char): (k: nat)
    ensures k <= |s|
    ensures c !in s[..k]
    ensures k < |s| ==> s[k] == c
  {
    if s == [] then 0
    else if s[0] == c then 0
    else
      var k := 1 + IndexOf(s[1..], c);
      assert s[..k] == [s[0]] + s[1..][..k - 1];
      k
  }

  /** Joins pieces with `sep` between neighbours (Python's `sep.join`). */
  function Join(pieces: seq<string>, sep: char): string
    requires |pieces| >= 1
  {
    if |pieces| == 1 then pieces[0] else pieces[0] + [sep] + Join(pieces[1..], sep)
  }

  /** Python's `s.split(sep)` for a one-character separator: the maximal
      separator-free pieces, in order, empty pieces included. */
  function Split(s: string, sep: char): (r: seq<string>)
    ensures |r| >= 1
    ensures forall p :: p in r ==> sep !in p
    ensures Join(r, sep) == s
    decreases |s|
  {
    var k := IndexOf(s, sep);
    if k == |s| then
      assert s[..k] == s;
      [s]
    else
      var tail := Split(s[k + 1..], sep);
      assert s == s[..k] + [sep] + s[k + 1..];
      [s[..k]] + tail
  }

  /** Splitting undoes joining, when no piece holds the separator. */
  lemma {:induction false} SplitJoin(pieces: seq<string>, sep: char)
    requires |pieces| >= 1
    requires forall p :: p in pieces ==> sep !in p
    ensures Split(Join(pieces, sep), sep) == pieces
    decreases |pieces|
  {
    var s := Join(pieces, sep);
    var p := pieces[0];
    if |pieces| == 1 {
      assert sep !in s;
      assert IndexOf(s, sep) == |s|;
    } else {
      var rest := Join(pieces[1..], sep);
      assert s == p + [sep] + rest;
      assert s[|p|] == sep;
      assert s[..|p|] == p;
      var k := IndexOf(s, sep);
      assert p in pieces;
      assert k == |p|;
      assert s[k + 1..] == rest;
      SplitJoin(pieces[1..], sep);
    }
  }

  /** ASCII lower-casing of one character. */
  function LowerChar(c: char): char {
    if 'A' <= c <= 'Z' then (c as int + 32) as char else c
  }

  /** Python's `s.lower()`, restricted to ASCII letters. */
  function Lower(s: string): (r: string)
    ensures |r| == |s|
    ensures forall k :: 0 <= k < |s| ==> r[k] == LowerChar(s[k])
  {
    if s == [] then [] else [LowerChar(s[0])] + Lower(s[1..])
  }

  /** Lower-casing is idempotent and leaves no upper-case ASCII letter. */
  lemma LowerIdempotent(s: string)
    ensures Lower(Lower(s)) == Lower(s)
    ensures forall k :: 0 <= k < |s| ==> !('A' <= Lower(s)[k] <= 'Z')
  {
    var once := Lower(s);
    var twice := Lower(once);
    assert forall k :: 0 <= k < |s| ==> twice[k] == once[k];
  }

  /** `needle` occurs in `hay` starting at index `i`. */
  ghost predicate OccursAt(hay: string, needle: string, i: nat) {
    i + |needle| <= |hay| && hay[i..i + |needle|] == needle
  }

  /** `needle` is a substring of `hay` (Python's `needle in hay`). */
  ghost predicate IsSubstring(needle: string, hay: string) {
    exists i: nat :: OccursAt(hay, needle, i)
  }

  lemma OccursShift(hay: string, needle: string, i: nat)
    requires |hay| > 0
    ensures OccursAt(hay[1..], needle, i) <==> OccursAt(hay, needle, i + 1)
  {
    if i + |needle| <= |hay[1..]| {
      assert hay[1..][i..i + |needle|] == hay[i + 1..i + 1 + |needle|];
    }
  }

  /** A match starts at 0 or somewhere in the tail. */
  lemma SubstringStep(hay: string, needle: string)
    requires |needle| <= |hay| && hay != []
    ensures IsSubstring(needle, hay) <==>
              (hay[..|needle|] == needle || IsSubstring(needle, hay[1..]))
  {
    if hay[..|needle|] == needle {
      assert OccursAt(hay, needle, 0);
    }
    if IsSubstring(needle, hay[1..]) {
      var i: nat :| OccursAt(hay[1..], needle, i);
      OccursShift(hay, needle, i);
    }
    if IsSubstring(needle, hay) {
      var i: nat :| OccursAt(hay, needle, i);
      if i > 0 {
        OccursShift(hay, needle, i - 1);
      }
    }
  }

  /** Substring search by scanning every start position. */
  function Contains(hay: string, needle: string): (r: bool)
    ensures r <==> IsSubstring(needle, hay)
    decreases |hay|
  {
    if |needle| > |hay| then
      assert forall i: nat :: !OccursAt(hay, needle, i);
      false
    else if needle == [] then
      assert OccursAt(hay, needle, 0);
      true
    else
      SubstringStep(hay, needle);
      hay[..|needle|] == needle || Contains(hay[1..], needle)
  }

  /** Case-insensitive substring test, as `lower(needle) in lower(hay)`. */
  function ContainsIgnoringCase(hay: string, needle: string): (r: bool)
    ensures r <==> IsSubstring(Lower(needle), Lower(hay))
  {
    Contains(Lower(hay), Lower(needle))
  }

  /** Python's `a < b` on strings: lexicographic by code point, and a proper
      prefix sorts first. */
  predicate StrLess(a: string, b: string) {
    if a == [] then b != []
    else b != [] && (a[0] < b[0] || (a[0] == b[0] && StrLess(a[1..], b[1..])))
  }

  lemma StrLessIrreflexive(a: string)
    ensures !StrLess(a, a)
  {
  }

  lemma {:induction false} StrLessTransitive(a: string, b: string, c: string)
    requires StrLess(a, b) && StrLess(b, c)
    ensures StrLess(a, c)
    decreases |a|
  {
    if a != [] && a[0] == b[0] && b[0] == c[0] {
      StrLessTransitive(a[1..], b[1..], c[1..]);
    }
  }

  lemma {:induction false} StrLessTotal(a: string, b: string)
    ensures a == b || StrLess(a, b) || StrLess(b, a)
    decreases |a|
  {
    if a != [] && b != [] && a[0] == b[0] {
      StrLessTotal(a[1..], b[1..]);
      if a[1..] == b[1..] {
        assert a == [a[0]] + a[1..] && b == [b[0]] + b[1..];
      }
    }
  }
}
