/** The parts of Go's `strings` package the report uses. A Go string is a
    sequence of bytes; here it is a `string` whose every character stands for
    one byte, so non-ASCII text is written as its UTF-8 bytes. */
module GoStrings {

  /** ASCII whitespace, as `strings.TrimSpace` trims it. */
  predicate IsSpace(c: char) {
    c == ' ' || c == '\t' || c == '\n' || c == '\U{0B}' || c == '\U{0C}' || c == '\r'
  }

  predicate AllSpace(s: string) {
    forall i :: 0 <= i < |s| ==> IsSpace(s[i])
  }

  /** Neither starts nor ends with whitespace. */
  predicate IsTrimmed(s: string) {
    s == [] || (!IsSpace(s[0]) && !IsSpace(s[|s| - 1]))
  }

  /** The first position at or after `i` that does not hold whitespace, or
      `|s|` if there is none. */
  function SkipSpaces(s: string, i: nat): (j: nat)
    requires i <= |s|
    ensures i <= j <= |s|
    ensures forall k :: i <= k < j ==> IsSpace(s[k])
    ensures j == |s| || !IsSpace(s[j])
    decreases |s| - i
  {
    if i == |s| || !IsSpace(s[i]) then i else SkipSpaces(s, i + 1)
  }

  /** The position just past the last non-whitespace byte in `s[lo..j]`, or
      `lo` if there is none. */
  function SkipSpacesBack(s: string, lo: nat, j: nat): (k: nat)
    requires lo <= j <= |s|
    ensures lo <= k <= j
    ensures forall m :: k <= m < j ==> IsSpace(s[m])
    ensures k == lo || !IsSpace(s[k - 1])
    decreases j
  {
    if j == lo || !IsSpace(s[j - 1]) then j else SkipSpacesBack(s, lo, j - 1)
  }

  /** `strings.TrimSpace` on ASCII whitespace: the slice between the first
      and the last byte that is not whitespace. The result is trimmed, and
      everything cut off on either side is whitespace. */
  function TrimSpace(s: string): (r: string)
    ensures IsTrimmed(r)
    ensures var lo := SkipSpaces(s, 0);
            && lo + |r| <= |s| && r == s[lo..lo + |r|]
            && (forall k :: 0 <= k < lo ==> IsSpace(s[k]))
            && (forall k :: lo + |r| <= k < |s| ==> IsSpace(s[k]))
  {
    var lo := SkipSpaces(s, 0);
    var hi := SkipSpacesBack(s, lo, |s|);
    var r := s[lo..hi];
    assert r == s[lo..lo + |r|];
    r
  }

  /** Skipping from `i` ends at `j` when exactly the bytes in between are
      whitespace. */
  lemma {:induction false} SkipSpacesTo(s: string, i: nat, j: nat)
    requires i <= j <= |s|
    requires forall k :: i <= k < j ==> IsSpace(s[k])
    requires j == |s| || !IsSpace(s[j])
    ensures SkipSpaces(s, i) == j
    decreases j - i
  {
    if i < j {
      SkipSpacesTo(s, i + 1, j);
    }
  }

  lemma {:induction false} SkipSpacesBackTo(s: string, lo: nat, k: nat, j: nat)
    requires lo <= k <= j <= |s|
    requires forall m :: k <= m < j ==> IsSpace(s[m])
    requires k == lo || !IsSpace(s[k - 1])
    ensures SkipSpacesBack(s, lo, j) == k
    decreases j
  {
    if k < j {
      SkipSpacesBackTo(s, lo, k, j - 1);
    }
  }

  /** Trimming a text wrapped in whitespace gives the text back. */
  lemma TrimSpacePadded(a: string, t: string, b: string)
    requires AllSpace(a) && AllSpace(b) && IsTrimmed(t)
    ensures TrimSpace(a + t + b) == t
  {
    var w := a + t + b;
    assert forall k :: 0 <= k < |a| ==> w[k] == a[k];
    assert forall k :: |a| <= k < |a| + |t| ==> w[k] == t[k - |a|];
    assert forall k :: |a| + |t| <= k < |w| ==> w[k] == b[k - |a| - |t|];
    if t == [] {
      SkipSpacesTo(w, 0, |w|);
      SkipSpacesBackTo(w, |w|, |w|, |w|);
      assert w[|w|..|w|] == t;
    } else {
      SkipSpacesTo(w, 0, |a|);
      SkipSpacesBackTo(w, |a|, |a| + |t|, |w|);
      assert w[|a|..|a| + |t|] == t;
    }
  }

  /** Trimming twice is trimming once. */
  lemma TrimSpaceIdempotent(s: string)
    ensures TrimSpace(TrimSpace(s)) == TrimSpace(s)
  {
    var t := TrimSpace(s);
    TrimSpacePadded([], t, []);
    assert [] + t + [] == t;
  }

  /** The last position below `n` holding `c`, or -1. */
  function LastIndexBelow(s: string, c: char, n: nat): (r: int)
    requires n <= |s|
    ensures -1 <= r < n
    ensures r >= 0 ==> s[r] == c
    ensures forall k :: r < k < n ==> s[k] != c
  {
    if n == 0 then -1
    else if s[n - 1] == c then n - 1
    else LastIndexBelow(s, c, n - 1)
  }

  /** `strings.LastIndex` for a one-byte needle: the position of the last
      occurrence of `c`, or -1 when `c` does not occur. */
  function LastIndex(s: string, c: char): (r: int)
    ensures -1 <= r < |s|
    ensures r == -1 <==> c !in s
    ensures r >= 0 ==> s[r] == c
    ensures forall k :: r < k < |s| ==> s[k] != c
  {
    LastIndexBelow(s, c, |s|)
  }
}
