/** Go's `sort.Strings`: byte-wise lexicographic ordering of strings. */
module GoSort {
  import opened Collections

  /** Go's `a < b` on strings: the first differing byte decides, and a proper
      prefix comes first. */
  predicate LexLess(a: string, b: string)
    decreases |a|
  {
    if |a| == 0 then |b| > 0
    else if |b| == 0 then false
    else if a[0] != b[0] then a[0] < b[0]
    else LexLess(a[1..], b[1..])
  }

  lemma {:induction false} LexLessIrreflexive(a: string)
    ensures !LexLess(a, a)
    decreases |a|
  {
    if |a| > 0 {
      LexLessIrreflexive(a[1..]);
    }
  }

  lemma {:induction false} LexLessTransitive(a: string, b: string, c: string)
    requires LexLess(a, b) && LexLess(b, c)
    ensures LexLess(a, c)
    decreases |a|
  {
    if |a| > 0 && a[0] == b[0] && b[0] == c[0] {
      LexLessTransitive(a[1..], b[1..], c[1..]);
    }
  }

  lemma LexLessAsymmetric(a: string, b: string)
    requires LexLess(a, b)
    ensures !LexLess(b, a)
  {
    if LexLess(b, a) {
      LexLessTransitive(a, b, a);
      LexLessIrreflexive(a);
    }
  }

  /** Any two distinct strings are ordered one way or the other. */
  lemma {:induction false} LexLessTotal(a: string, b: string)
    ensures a == b || LexLess(a, b) || LexLess(b, a)
    decreases |a|
  {
    if |a| > 0 && |b| > 0 && a[0] == b[0] {
      LexLessTotal(a[1..], b[1..]);
      if a[1..] == b[1..] {
        assert a == [a[0]] + a[1..] && b == [b[0]] + b[1..];
      }
    }
  }

  /** `a` may come before `b` in sorted order. */
  predicate LexLe(a: string, b: string) {
    !LexLess(b, a)
  }

  lemma LexLeTransitive(a: string, b: string, c: string)
    requires LexLe(a, b) && LexLe(b, c)
    ensures LexLe(a, c)
  {
    LexLessTotal(a, b);
    if LexLess(c, a) && LexLess(a, b) {
      LexLessTransitive(c, a, b);
    }
  }

  lemma LexLeAntisymmetric(a: string, b: string)
    requires LexLe(a, b) && LexLe(b, a)
    ensures a == b
  {
    LexLessTotal(a, b);
  }

  predicate StringsSorted(s: seq<string>) {
    forall i, j :: 0 <= i < j < |s| ==> LexLe(s[i], s[j])
  }

  /** A sorted sequence stays sorted under a head that may precede all of
      it. */
  lemma SortedCons(h: string, t: seq<string>)
    requires StringsSorted(t) && forall j :: 0 <= j < |t| ==> LexLe(h, t[j])
    ensures StringsSorted([h] + t)
  {
    forall i, j | 0 <= i < j < |t| + 1 ensures LexLe(([h] + t)[i], ([h] + t)[j]) {
      if i > 0 { assert ([h] + t)[i] == t[i - 1]; }
      assert ([h] + t)[j] == t[j - 1];
    }
  }

  /** Inserts `x` into a sorted sequence, keeping it sorted. */
  function InsertString(x: string, xs: seq<string>): (r: seq<string>)
    requires StringsSorted(xs)
    ensures multiset(r) == multiset(xs) + multiset{x}
    ensures StringsSorted(r)
  {
    if xs == [] || LexLe(x, xs[0]) then
      assert forall j :: 0 <= j < |xs| ==> LexLe(x, xs[j]) by {
        forall j | 0 <= j < |xs| ensures LexLe(x, xs[j]) {
          if j > 0 { LexLeTransitive(x, xs[0], xs[j]); }
        }
      }
      SortedCons(x, xs);
      [x] + xs
    else
      SortedTail(xs);
      var rest := InsertString(x, xs[1..]);
      InsertedMembers(rest, xs[1..], x);
      assert forall j :: 0 <= j < |rest| ==> LexLe(xs[0], rest[j]) by {
        LexLessAsymmetric(xs[0], x);
        forall j | 0 <= j < |rest| ensures LexLe(xs[0], rest[j]) {
          if rest[j] != x {
            var i :| 0 <= i < |xs| - 1 && xs[1..][i] == rest[j];
            assert xs[i + 1] == rest[j];
          }
        }
      }
      SortedCons(xs[0], rest);
      ConsInserted(xs, rest, x);
      [xs[0]] + rest
  }

  /** `sort.Strings`: a sorted permutation of the input. */
  function SortStrings(xs: seq<string>): (r: seq<string>)
    ensures multiset(r) == multiset(xs)
    ensures StringsSorted(r)
  {
    if xs == [] then []
    else
      assert xs == [xs[0]] + xs[1..];
      InsertString(xs[0], SortStrings(xs[1..]))
  }

  lemma SortedTail(a: seq<string>)
    requires a != [] && StringsSorted(a)
    ensures StringsSorted(a[1..])
  {
    assert forall i :: 0 <= i < |a| - 1 ==> a[1..][i] == a[i + 1];
  }

  /** Two sorted arrangements of the same strings start alike. */
  lemma SortedHeadsEqual(a: seq<string>, b: seq<string>)
    requires StringsSorted(a) && StringsSorted(b) && a != []
    requires multiset(a) == multiset(b)
    ensures b != [] && a[0] == b[0]
  {
    assert a[0] in multiset(b);
    assert b[0] in multiset(a);
    var k :| 0 <= k < |b| && b[k] == a[0];
    var j :| 0 <= j < |a| && a[j] == b[0];
    LexLessIrreflexive(a[0]);
    assert LexLe(b[0], a[0]) by { if k > 0 { assert LexLe(b[0], b[k]); } }
    assert LexLe(a[0], b[0]) by { if j > 0 { assert LexLe(a[0], a[j]); } }
    LexLeAntisymmetric(a[0], b[0]);
  }

  /** A sorted arrangement of a multiset of strings is unique, so the order in
      which the input arrives cannot change the result of sorting. */
  lemma {:induction false} SortedStringsUnique(a: seq<string>, b: seq<string>)
    requires StringsSorted(a) && StringsSorted(b)
    requires multiset(a) == multiset(b)
    ensures a == b
    decreases |a|
  {
    if a != [] {
      SortedHeadsEqual(a, b);
      MultisetTails(a, b);
      SortedTail(a);
      SortedTail(b);
      SortedStringsUnique(a[1..], b[1..]);
    } else {
      assert |b| == |multiset(b)|;
    }
  }

  /** Sorting is blind to the order of its input. */
  lemma SortStringsIgnoresOrder(a: seq<string>, b: seq<string>)
    requires multiset(a) == multiset(b)
    ensures SortStrings(a) == SortStrings(b)
  {
    SortedStringsUnique(SortStrings(a), SortStrings(b));
  }
}
