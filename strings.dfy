/**
 * The string operations the pipeline borrows from Go's standard library:
 * `fmt.Sprintf("%v/%v", ...)`, `strings.ToLower`, the byte-wise ordering
 * `sort.StringSlice` sorts by, the reverse sort itself, and the leftmost
 * match of a literal pattern that `regexp.FindStringIndex` reports.
 */
module Strings {

  import opened Results

  /** The path `readFiles` asks the file service for: `dirname/filename`. */
  function Path(dirname: string, filename: string): (p: string)
    ensures |p| == |dirname| + 1 + |filename| && p[|dirname|] == '/'
    ensures p[..|dirname|] == dirname && p[|dirname| + 1..] == filename
  {
    dirname + "/" + filename
  }

  function LowerChar(c: char): char
  {
    if 'A' <= c <= 'Z' then (c as int + 32) as char else c
  }

  /** `strings.ToLower`, restricted to ASCII letters. */
  function Lower(s: string): (r: string)
    ensures |r| == |s|
    ensures forall i :: 0 <= i < |s| ==> !('A' <= r[i] <= 'Z')
    ensures forall i :: 0 <= i < |s| && !('A' <= s[i] <= 'Z') ==> r[i] == s[i]
    ensures forall i :: 0 <= i < |s| && 'A' <= s[i] <= 'Z' ==> r[i] as int == s[i] as int + 32
  {
    seq(|s|, i requires 0 <= i < |s| => LowerChar(s[i]))
  }

  /** Lower-casing a name twice gives the same key as lower-casing it once. */
  lemma LowerIdempotent(s: string)
    ensures Lower(Lower(s)) == Lower(s)
  {
  }

  // ---------------------------------------------------------------------------
  // Go's string order

  /**
   * Go compares strings byte by byte. UTF-8 preserves the order of code
   * points, so comparing the characters lexicographically gives the same order.
   */
  predicate Less(a: string, b: string)
    decreases |a|
  {
    if a == [] then b != []
    else if b == [] then false
    else if a[0] != b[0] then a[0] < b[0]
    else Less(a[1..], b[1..])
  }

  lemma {:induction false} LessIrreflexive(a: string)
    ensures !Less(a, a)
    decreases |a|
  {
    if a != [] {
      LessIrreflexive(a[1..]);
    }
  }

  lemma {:induction false} LessTransitive(a: string, b: string, c: string)
    requires Less(a, b) && Less(b, c)
    ensures Less(a, c)
    decreases |a|
  {
    if a != [] && a[0] == b[0] && b[0] == c[0] {
      LessTransitive(a[1..], b[1..], c[1..]);
    }
  }

  /** Two different strings are always ordered one way or the other. */
  lemma {:induction false} LessTotal(a: string, b: string)
    requires a != b
    ensures Less(a, b) || Less(b, a)
    decreases |a|
  {
    if a != [] && b != [] && a[0] == b[0] {
      assert a == [a[0]] + a[1..] && b == [b[0]] + b[1..];
      LessTotal(a[1..], b[1..]);
    }
  }

  /** Strings that share their first `n` characters are ordered by what follows. */
  lemma {:induction false} LessAfterCommonPrefix(a: string, b: string, n: nat)
    requires n <= |a| && n <= |b| && a[..n] == b[..n]
    ensures Less(a, b) <==> Less(a[n..], b[n..])
    decreases n
  {
    if n > 0 {
      assert a[0] == a[..n][0] && b[0] == b[..n][0];
      assert a[1..][..n - 1] == a[1..n] == a[..n][1..];
      assert b[1..][..n - 1] == b[1..n] == b[..n][1..];
      LessAfterCommonPrefix(a[1..], b[1..], n - 1);
      assert a[1..][n - 1..] == a[n..] && b[1..][n - 1..] == b[n..];
    }
  }

  lemma {:induction false} LessAsymmetric(a: string, b: string)
    requires Less(a, b)
    ensures !Less(b, a)
  {
    if Less(b, a) {
      LessTransitive(a, b, a);
      LessIrreflexive(a);
    }
  }

  // ---------------------------------------------------------------------------
  // sort.Sort(sort.Reverse(sort.StringSlice(keys)))

  /** No element is smaller than one that comes after it. */
  ghost predicate Descending(s: seq<string>)
  {
    forall i, j :: 0 <= i < j < |s| ==> !Less(s[i], s[j])
  }

  function InsertDescending(x: string, s: seq<string>): (r: seq<string>)
    requires Descending(s)
    ensures Descending(r)
    ensures multiset(r) == multiset(s) + multiset{x}
  {
    if s == [] then [x]
    else if Less(s[0], x) then
      InsertBeforeHead(x, s);
      [x] + s
    else
      var rest := InsertDescending(x, s[1..]);
      assert s == [s[0]] + s[1..];
      forall j | 0 <= j < |rest| ensures !Less(s[0], rest[j]) {
        assert rest[j] in multiset(rest);
        if rest[j] != x {
          var k :| 0 <= k < |s[1..]| && s[1..][k] == rest[j];
          assert s[k + 1] == rest[j];
        }
      }
      [s[0]] + rest
  }

  lemma InsertBeforeHead(x: string, s: seq<string>)
    requires Descending(s) && s != [] && Less(s[0], x)
    ensures Descending([x] + s)
  {
    forall j | 0 <= j < |s| ensures !Less(x, s[j]) {
      if Less(x, s[j]) {
        LessTransitive(s[0], x, s[j]);
        if j == 0 {
          LessIrreflexive(s[0]);
        }
      }
    }
  }

  /** The keys in descending order: a permutation of the input, sorted. */
  function SortDescending(s: seq<string>): (r: seq<string>)
    ensures Descending(r)
    ensures multiset(r) == multiset(s)
  {
    if s == [] then []
    else
      assert s == [s[0]] + s[1..];
      InsertDescending(s[0], SortDescending(s[1..]))
  }

  /** Sorting keeps exactly the elements it was given. */
  lemma SortDescendingMembers(s: seq<string>)
    ensures forall x :: x in SortDescending(s) <==> x in s
  {
    var r := SortDescending(s);
    forall x ensures x in r <==> x in s {
      assert x in r <==> x in multiset(r);
      assert x in s <==> x in multiset(s);
    }
  }

  /** `sort.Sort(sort.Reverse(sort.StringSlice(keys)))`, on a copy of `keys`. */
  method ReverseSort(keys: seq<string>) returns (sorted: seq<string>)
    ensures Descending(sorted)
    ensures forall x :: x in sorted <==> x in keys
    ensures multiset(sorted) == multiset(keys)
  {
    SortDescendingMembers(keys);
    sorted := SortDescending(keys);
  }

  /** No element occurs twice. */
  predicate Distinct(s: seq<string>)
  {
    forall i, j :: 0 <= i < j < |s| ==> s[i] != s[j]
  }

  /** A sequence without repeats holds each element at most once. */
  lemma {:induction false} DistinctCountsAtMostOne(s: seq<string>, x: string)
    requires Distinct(s)
    ensures multiset(s)[x] <= 1
    decreases |s|
  {
    if s != [] {
      assert s == [s[0]] + s[1..];
      DistinctCountsAtMostOne(s[1..], x);
      if s[0] == x {
        assert x !in s[1..];
      }
    }
  }

  /** Reordering a sequence without repeats, as the sort does, adds none. */
  lemma PermutationKeepsDistinct(s: seq<string>, r: seq<string>)
    requires Distinct(s) && multiset(r) == multiset(s)
    ensures Distinct(r)
  {
    forall i, j | 0 <= i < j < |r| ensures r[i] != r[j] {
      if r[i] == r[j] {
        var x := r[i];
        assert r == r[..j] + r[j..];
        assert x in r[..j] && x in r[j..];
        assert multiset(r)[x] == multiset(r[..j])[x] + multiset(r[j..])[x];
        DistinctCountsAtMostOne(s, x);
        assert false;
      }
    }
  }

  // ---------------------------------------------------------------------------
  // Leftmost occurrence of a literal pattern

  predicate OccursAt(s: string, pat: string, i: int)
  {
    0 <= i && i + |pat| <= |s| && s[i..i + |pat|] == pat
  }

  ghost predicate Contains(s: string, pat: string)
  {
    exists i :: OccursAt(s, pat, i)
  }

  /** The first position at or after `from` where `pat` occurs in `s`. */
  function FindFrom(s: string, pat: string, from: nat): (r: Option<nat>)
    decreases |s| - from
    ensures r.Some? ==> from <= r.value && OccursAt(s, pat, r.value)
    ensures r.Some? ==> forall j :: from <= j < r.value ==> !OccursAt(s, pat, j)
    ensures r.None? ==> forall j :: from <= j ==> !OccursAt(s, pat, j)
  {
    if from + |pat| > |s| then None
    else if s[from..from + |pat|] == pat then Some(from)
    else FindFrom(s, pat, from + 1)
  }

  /**
   * Where `regexp.FindStringIndex` finds the patterns `(^|\A)?(ssm:)` and
   * `(^|\A)?(env:)`: the anchor group is optional, so the match is the leftmost
   * occurrence of the literal anywhere in the string.
   */
  function FindFirst(s: string, pat: string): (r: Option<nat>)
    ensures r.Some? <==> Contains(s, pat)
    ensures r.Some? ==> OccursAt(s, pat, r.value) && forall j :: 0 <= j < r.value ==> !OccursAt(s, pat, j)
  {
    FindFrom(s, pat, 0)
  }
}
