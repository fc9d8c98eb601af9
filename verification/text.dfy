/** The few operations on Python `str` values that the share-link code relies
    on: `find`, `split(sep)` with a non-empty separator, and `rstrip(ch)`. */
module Text {
  import opened Optional

  /** True when `sep` occurs in `s` starting at index `i`. */
  predicate StartsAt(s: string, sep: string, i: int)
  {
    0 <= i && i + |sep| <= |s| && s[i..i + |sep|] == sep
  }

  /** True when `s` ends with `suffix`. */
  predicate EndsWith(s: string, suffix: string)
  {
    |suffix| <= |s| && s[|s| - |suffix|..] == suffix
  }

  /** The first occurrence of `sep` in `s` at or after index `k`. */
  function FindFrom(s: string, sep: string, k: nat): (r: Option<nat>)
    requires k <= |s|
    ensures r.Some? ==> k <= r.value && StartsAt(s, sep, r.value)
    ensures forall j :: k <= j && (r.None? || j < r.value) ==> !StartsAt(s, sep, j)
    decreases |s| - k
  {
    if k + |sep| > |s| then None
    else if s[k..k + |sep|] == sep then Some(k)
    else FindFrom(s, sep, k + 1)
  }

  /** Python's `s.find(sep)`, with "not found" as `None`. */
  function IndexOf(s: string, sep: string): (r: Option<nat>)
    ensures r.Some? ==> StartsAt(s, sep, r.value)
    ensures forall j :: 0 <= j && (r.None? || j < r.value) ==> !StartsAt(s, sep, j)
  {
    FindFrom(s, sep, 0)
  }

  /** An index where `sep` starts with no earlier start is what `IndexOf` finds. */
  lemma IndexOfFirst(s: string, sep: string, i: int)
    requires StartsAt(s, sep, i)
    requires forall j :: 0 <= j < i ==> !StartsAt(s, sep, j)
    ensures IndexOf(s, sep) == Some(i)
  {
  }

  /** Two strings with the same occurrences of `sep` have the same first one. */
  lemma IndexOfSameStarts(s: string, t: string, sep: string)
    requires forall j :: StartsAt(s, sep, j) <==> StartsAt(t, sep, j)
    ensures IndexOf(s, sep) == IndexOf(t, sep)
  {
    match IndexOf(s, sep)
    case None =>
    case Some(i) =>
      assert StartsAt(t, sep, i);
      IndexOfFirst(t, sep, i);
  }

  /** A one-character separator starts exactly where that character stands. */
  lemma StartsAtChar(s: string, c: char, j: int)
    ensures StartsAt(s, [c], j) <==> 0 <= j < |s| && s[j] == c
  {
    if 0 <= j < |s| {
      assert s[j..j + 1] == [s[j]];
    }
  }

  /** No occurrence of a one-character separator before `i` means the character
      does not occur in `s[..i]`. */
  lemma NoStartsNoChar(s: string, c: char, i: int)
    requires 0 <= i <= |s|
    requires forall j :: 0 <= j < i ==> !StartsAt(s, [c], j)
    ensures c !in s[..i]
  {
    forall j | 0 <= j < i
      ensures s[..i][j] != c
    {
      StartsAtChar(s, c, j);
    }
  }

  /** Python's `s.split(sep)` for a non-empty separator: the pieces between
      successive non-overlapping occurrences, scanning left to right. */
  function Split(s: string, sep: string): (parts: seq<string>)
    requires |sep| > 0
    ensures |parts| >= 1
    decreases |s|
  {
    match IndexOf(s, sep)
    case None => [s]
    case Some(i) => [s[..i]] + Split(s[i + |sep|..], sep)
  }

  /** The first piece of a split is everything before the first separator. */
  lemma SplitHead(s: string, sep: string)
    requires |sep| > 0
    ensures Split(s, sep)[0] == (match IndexOf(s, sep) case None => s case Some(i) => s[..i])
    ensures |Split(s, sep)| >= 2 <==> IndexOf(s, sep).Some?
  {
  }

  /** Splitting on one character yields one more piece than there are
      occurrences of that character. */
  lemma {:induction false} SplitCountsSeparators(s: string, c: char)
    ensures |Split(s, [c])| == multiset(s)[c] + 1
    decreases |s|
  {
    match IndexOf(s, [c])
    case None =>
      NoStartsNoChar(s, c, |s|);
      assert s[..|s|] == s;
    case Some(i) =>
      var rest := s[i + 1..];
      SplitCountsSeparators(rest, c);
      NoStartsNoChar(s, c, i);
      StartsAtChar(s, c, i);
      assert s == s[..i] + [c] + rest;
      assert multiset(s) == multiset(s[..i]) + multiset([c]) + multiset(rest);
  }

  /** A string with exactly two pieces around a one-character separator is
      the two pieces joined by it, and neither piece holds the separator; and
      conversely such a join splits back into its two pieces. */
  lemma SplitInTwo(s: string, c: char, a: string, b: string)
    ensures Split(s, [c]) == [a, b] <==> s == a + [c] + b && c !in a && c !in b
  {
    if Split(s, [c]) == [a, b] {
      SplitHead(s, [c]);
      var i := IndexOf(s, [c]).value;
      var rest := s[i + 1..];
      NoStartsNoChar(s, c, i);
      StartsAtChar(s, c, i);
      assert Split(s, [c]) == [s[..i]] + Split(rest, [c]);
      assert Split(rest, [c]) == Split(s, [c])[1..] == [b];
      SplitHead(rest, [c]);
      NoStartsNoChar(rest, c, |rest|);
      assert rest[..|rest|] == rest;
      assert s == s[..i] + [c] + rest;
    }
    if s == a + [c] + b && c !in a && c !in b {
      forall j | 0 <= j < |a|
        ensures !StartsAt(s, [c], j)
      {
        StartsAtChar(s, c, j);
        assert s[j] == a[j];
      }
      StartsAtChar(s, c, |a|);
      IndexOfFirst(s, [c], |a|);
      assert s[|a| + 1..] == b;
      forall j | 0 <= j
        ensures !StartsAt(b, [c], j)
      {
        StartsAtChar(b, c, j);
      }
      assert IndexOf(b, [c]) == None;
      assert Split(b, [c]) == [b];
      assert s[..|a|] == a;
      assert Split(s, [c]) == [a] + Split(b, [c]);
    }
  }

  /** Python's `s.rstrip(c)` for a single character: drop every trailing `c`. */
  function RStrip(s: string, c: char): (r: string)
    ensures r <= s
    ensures |r| > 0 ==> r[|r| - 1] != c
    ensures forall k :: |r| <= k < |s| ==> s[k] == c
    decreases |s|
  {
    if |s| > 0 && s[|s| - 1] == c then RStrip(s[..|s| - 1], c) else s
  }

  /** `n` copies of one character. */
  function Repeat(c: char, n: nat): (r: string)
    ensures |r| == n && forall k :: 0 <= k < n ==> r[k] == c
  {
    seq(n, _ => c)
  }

  /** A string is its stripped form followed by the characters stripped. */
  lemma RStripSplits(s: string, c: char)
    ensures s == RStrip(s, c) + Repeat(c, |s| - |RStrip(s, c)|)
  {
  }

  /** Appending more of the stripped character does not change the result. */
  lemma {:induction false} RStripIgnoresAppended(s: string, c: char, n: nat)
    ensures RStrip(s + Repeat(c, n), c) == RStrip(s, c)
    decreases n
  {
    if n > 0 {
      var t := s + Repeat(c, n);
      assert t[..|t| - 1] == s + Repeat(c, n - 1);
      RStripIgnoresAppended(s, c, n - 1);
    } else {
      assert s + Repeat(c, 0) == s;
    }
  }
}
