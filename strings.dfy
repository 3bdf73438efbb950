/** The pieces of Rust's `str` API that the GC-root code relies on, on `seq<char>`. */
module Strings {
  import opened Wrappers

  /** Number of occurrences of `c` in `s`. */
  function Count(s: string, c: char): nat
  {
    multiset(s)[c]
  }

  predicate StartsWith(s: string, prefix: string)
  {
    |prefix| <= |s| && s[..|prefix|] == prefix
  }

  /** Index of the last `c` in `s` (`str::rfind` with a char pattern). */
  function LastIndexOf(s: string, c: char): (r: Option<nat>)
    ensures r.None? <==> c !in s
    ensures r.Some? ==> r.value < |s| && s[r.value] == c && c !in s[r.value + 1..]
  {
    if s == [] then None
    else if s[|s| - 1] == c then Some(|s| - 1)
    else
      var r := LastIndexOf(s[..|s| - 1], c);
      assert r.Some? ==> s[r.value + 1..] == s[..|s| - 1][r.value + 1..] + [s[|s| - 1]];
      assert r.None? ==> s == s[..|s| - 1] + [s[|s| - 1]];
      r
  }

  /** Cutting `s` at a `c` after which no `c` follows finds the last `c`. */
  lemma {:induction false} LastIndexOfCut(p: string, c: char, z: string)
    requires c !in z
    ensures LastIndexOf(p + [c] + z, c) == Some(|p|)
  {
    if z != [] {
      var s := p + [c] + z;
      assert s[..|s| - 1] == p + [c] + z[..|z| - 1];
      assert s[|s| - 1] == z[|z| - 1];
      LastIndexOfCut(p, c, z[..|z| - 1]);
    }
  }

  /**
   * `s.rsplitn(3, c)`: at most three pieces, cut at the last two `c`s,
   * the rightmost piece first.
   */
  function RSplit3(s: string, c: char): (r: seq<string>)
    ensures 1 <= |r| <= 3
    ensures |r| == 1 ==> r[0] == s && c !in s
    ensures |r| == 2 ==> s == r[1] + [c] + r[0] && c !in r[1] && c !in r[0]
    ensures |r| == 3 ==> s == r[2] + [c] + r[1] + [c] + r[0] && c !in r[1] && c !in r[0]
  {
    match LastIndexOf(s, c)
    case None => [s]
    case Some(i) =>
      assert s == s[..i] + [c] + s[i + 1..];
      match LastIndexOf(s[..i], c)
      case None => [s[i + 1..], s[..i]]
      case Some(k) =>
        assert s[..i] == s[..k] + [c] + s[k + 1..i];
        [s[i + 1..], s[k + 1..i], s[..k]]
  }

  /** `rsplitn(3, c)` yields three pieces exactly when `c` occurs at least twice. */
  lemma RSplit3Count(s: string, c: char)
    ensures |RSplit3(s, c)| == 3 <==> Count(s, c) >= 2
  {
    var r := RSplit3(s, c);
    if |r| == 2 {
      assert multiset(s)[c] == multiset(r[1])[c] + 1 + multiset(r[0])[c];
    } else if |r| == 3 {
      assert multiset(s)[c] == multiset(r[2])[c] + 1 + multiset(r[1])[c] + 1 + multiset(r[0])[c];
    }
  }

  /** The pieces of a string cut at two `c`s, neither of the last two containing `c`. */
  lemma RSplit3Cut(a: string, c: char, b: string, z: string)
    requires c !in b && c !in z
    ensures RSplit3(a + [c] + b + [c] + z, c) == [z, b, a]
  {
    var ab := a + [c] + b;
    var s := ab + [c] + z;
    LastIndexOfCut(ab, c, z);
    LastIndexOfCut(a, c, b);
    assert s[..|ab|] == ab;
    assert s[|ab| + 1..] == z;
    assert s[|a| + 1..|ab|] == b;
    assert s[..|a|] == a;
  }

  /** `s` has the form `<pat>` at position `i`. */
  predicate OccursAt(s: string, pat: string, i: nat)
  {
    i + |pat| <= |s| && s[i..i + |pat|] == pat
  }

  /** Start of the last occurrence of `pat` in `s` (`str::rfind` with a string pattern). */
  function LastOccurrence(s: string, pat: string): (r: Option<nat>)
    ensures r.Some? ==> OccursAt(s, pat, r.value)
    ensures r.Some? ==> forall j: nat :: r.value < j ==> !OccursAt(s, pat, j)
    ensures r.None? ==> forall j: nat :: !OccursAt(s, pat, j)
    decreases |s|
  {
    if |s| < |pat| then None
    else if s[|s| - |pat|..] == pat then Some(|s| - |pat|)
    else
      var r := LastOccurrence(s[..|s| - 1], pat);
      assert forall j: nat :: j + |pat| < |s| ==> (OccursAt(s, pat, j) <==> OccursAt(s[..|s| - 1], pat, j)) by {
        forall j: nat | j + |pat| < |s|
          ensures OccursAt(s, pat, j) <==> OccursAt(s[..|s| - 1], pat, j)
        {
          OccursBeforeEnd(s, pat, j);
        }
      }
      r
  }

  /** Dropping the last character keeps every occurrence that ends before it. */
  lemma OccursBeforeEnd(s: string, pat: string, j: nat)
    requires j + |pat| < |s|
    ensures OccursAt(s, pat, j) <==> OccursAt(s[..|s| - 1], pat, j)
  {
    assert s[..|s| - 1][j..j + |pat|] == s[j..j + |pat|];
  }

  /** Pieces joined with `sep` in between (`[..].join(sep)`). */
  function Join(parts: seq<string>, sep: string): string
  {
    if |parts| == 0 then ""
    else if |parts| == 1 then parts[0]
    else Join(parts[..|parts| - 1], sep) + sep + parts[|parts| - 1]
  }

  /** `str::split(c)`: the pieces between the `c`s, built from the right. */
  function Split(s: string, c: char): (r: seq<string>)
    ensures |r| >= 1
    ensures forall k :: 0 <= k < |r| ==> c !in r[k]
    decreases |s|
  {
    match LastIndexOf(s, c)
    case None => [s]
    case Some(i) =>
      var r := Split(s[..i], c) + [s[i + 1..]];
      assert s == s[..i] + [c] + s[i + 1..];
      r
  }

  /** Each piece is made of characters of the text. */
  lemma {:induction false} SplitPiecesWithin(s: string, c: char, k: nat)
    requires k < |Split(s, c)|
    ensures multiset(Split(s, c)[k]) <= multiset(s)
    decreases |s|
  {
    match LastIndexOf(s, c)
    case None =>
    case Some(i) =>
      assert s == s[..i] + [c] + s[i + 1..];
      var r := Split(s, c);
      if k < |r| - 1 {
        assert r[k] == Split(s[..i], c)[k];
        SplitPiecesWithin(s[..i], c, k);
      }
  }

  /** Joining the pieces with the separator gives the text back. */
  lemma {:induction false} SplitJoin(s: string, c: char)
    ensures Join(Split(s, c), [c]) == s
    decreases |s|
  {
    match LastIndexOf(s, c)
    case None =>
    case Some(i) =>
      SplitJoin(s[..i], c);
      var r := Split(s, c);
      assert r[..|r| - 1] == Split(s[..i], c);
      assert s == s[..i] + [c] + s[i + 1..];
  }

  /** Appending text without a `c` only extends the last piece of the split. */
  lemma SplitAppend(s: string, c: char, t: string)
    requires c !in t
    ensures var r := Split(s, c);
      Split(s + t, c) == r[..|r| - 1] + [r[|r| - 1] + t]
  {
    match LastIndexOf(s, c)
    case None =>
    case Some(i) =>
      assert s + t == s[..i] + [c] + (s[i + 1..] + t);
      LastIndexOfCut(s[..i], c, s[i + 1..] + t);
      assert (s + t)[..i] == s[..i];
      assert (s + t)[i + 1..] == s[i + 1..] + t;
  }
}
