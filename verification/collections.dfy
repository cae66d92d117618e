/** Facts about sequences, multisets and maps shared by the sorting and
    rendering modules. */
module Collections {

  /** No element occurs twice. */
  predicate Distinct<T(==)>(s: seq<T>) {
    forall i, j :: 0 <= i < j < |s| ==> s[i] != s[j]
  }

  /** `m[keys[i]] = values[i]` for each i in order, starting from an empty
      map: with distinct keys, one entry per key holding its own value. */
  function InsertPairs<K(!new), V>(keys: seq<K>, values: seq<V>): (m: map<K, V>)
    requires |keys| == |values| && Distinct(keys)
    ensures forall k :: k in m <==> k in keys
    ensures forall i :: 0 <= i < |keys| ==> keys[i] in m && m[keys[i]] == values[i]
  {
    if keys == [] then map[]
    else
      var n := |keys| - 1;
      DistinctInit(keys);
      var m := InsertPairs(keys[..n], values[..n]);
      InsertPairsStep(keys, values, keys[..n], values[..n], m);
      m[keys[n] := values[n]]
  }

  /** One step of `InsertPairs`: a map holding the pairs of all but the last
      key, updated with the last pair, holds all pairs. */
  lemma InsertPairsStep<K, V>(keys: seq<K>, values: seq<V>, ks: seq<K>, vs: seq<V>, m: map<K, V>)
    requires |keys| == |values| > 0 && Distinct(keys)
    requires ks == keys[..|keys| - 1] && vs == values[..|keys| - 1]
    requires forall k :: k in m <==> k in ks
    requires forall i :: 0 <= i < |ks| ==> ks[i] in m && m[ks[i]] == vs[i]
    ensures var m' := m[keys[|keys| - 1] := values[|keys| - 1]];
            && (forall k :: k in m' <==> k in keys)
            && (forall i :: 0 <= i < |keys| ==> keys[i] in m' && m'[keys[i]] == values[i])
  {
    var n := |keys| - 1;
    var m' := m[keys[n] := values[n]];
    forall i | 0 <= i < n ensures keys[i] in m' && m'[keys[i]] == values[i] {
      assert ks[i] == keys[i] && vs[i] == values[i];
      assert keys[i] != keys[n];
    }
    assert forall k :: k in keys <==> k in ks || k == keys[n] by {
      assert keys == ks + [keys[n]];
    }
  }

  /** Dropping the last element of a sequence without repeats leaves one
      without repeats that lacks the dropped element. */
  lemma DistinctInit<T>(s: seq<T>)
    requires s != [] && Distinct(s)
    ensures Distinct(s[..|s| - 1]) && s[|s| - 1] !in s[..|s| - 1]
  {
    assert forall i :: 0 <= i < |s| - 1 ==> s[..|s| - 1][i] == s[i];
  }

  /** The tail of a sequence without repeats has none either, and lacks
      the head. */
  lemma DistinctTail<T>(s: seq<T>)
    requires s != [] && Distinct(s)
    ensures Distinct(s[1..]) && s[0] !in s[1..]
  {
    assert forall i :: 0 <= i < |s| - 1 ==> s[1..][i] == s[i + 1];
  }

  /** A map whose keys a sequence without repeats lists has as many
      entries as the sequence. */
  lemma {:induction false} MapSizeOfKeys<K(!new), V>(m: map<K, V>, keys: seq<K>)
    requires Distinct(keys) && forall k :: k in m <==> k in keys
    ensures |m| == |keys|
    decreases |keys|
  {
    if keys == [] {
      assert m.Keys == {};
    } else {
      var k := keys[0];
      DistinctTail(keys);
      var m' := m - {k};
      assert forall x :: x in m' <==> x in keys[1..] by {
        assert keys == [k] + keys[1..];
      }
      MapSizeOfKeys(m', keys[1..]);
      assert |m| == |m'| + 1 by {
        assert m'.Keys == m.Keys - {k} && k in m.Keys;
      }
    }
  }

  /** Every element of a sequence holding one `x` more than `t` is `x` or
      an element of `t`. */
  lemma InsertedMembers<T>(r: seq<T>, t: seq<T>, x: T)
    requires multiset(r) == multiset(t) + multiset{x}
    ensures forall j :: 0 <= j < |r| ==> r[j] == x || r[j] in t
  {
    forall j | 0 <= j < |r| ensures r[j] == x || r[j] in t {
      assert r[j] in multiset(r);
    }
  }

  /** Putting the head back in front of the tail with `x` added gives the
      whole sequence with `x` added. */
  lemma ConsInserted<T>(xs: seq<T>, rest: seq<T>, x: T)
    requires xs != [] && multiset(rest) == multiset(xs[1..]) + multiset{x}
    ensures multiset([xs[0]] + rest) == multiset(xs) + multiset{x}
  {
    assert xs == [xs[0]] + xs[1..];
  }

  /** Equal multisets with equal heads have equal tails. */
  lemma MultisetTails<T>(a: seq<T>, b: seq<T>)
    requires a != [] && b != [] && a[0] == b[0] && multiset(a) == multiset(b)
    ensures multiset(a[1..]) == multiset(b[1..])
  {
    assert a == [a[0]] + a[1..];
    assert b == [b[0]] + b[1..];
    assert multiset(a[1..]) == multiset(a) - multiset{a[0]};
    assert multiset(b[1..]) == multiset(b) - multiset{b[0]};
  }

  /** In a sequence without repeats every member occurs once. */
  lemma {:induction false} DistinctCount<T>(a: seq<T>, x: T)
    requires Distinct(a)
    ensures multiset(a)[x] == if x in a then 1 else 0
  {
    if a != [] {
      assert a == [a[0]] + a[1..];
      DistinctTail(a);
      DistinctCount(a[1..], x);
    }
  }

  /** Two sequences without repeats and with the same members hold the same
      multiset. */
  lemma SameMembersSameMultiset<T>(a: seq<T>, b: seq<T>)
    requires Distinct(a) && Distinct(b)
    requires forall x :: x in a <==> x in b
    ensures multiset(a) == multiset(b)
  {
    forall x ensures multiset(a)[x] == multiset(b)[x] {
      DistinctCount(a, x);
      DistinctCount(b, x);
    }
  }

  lemma SameMultisetSameMembers<T>(a: seq<T>, b: seq<T>)
    requires multiset(a) == multiset(b)
    ensures forall x :: x in a <==> x in b
  {
    forall x ensures x in a <==> x in b {
      assert x in a <==> x in multiset(a);
      assert x in b <==> x in multiset(b);
    }
  }

  /** Reordering a sequence without repeats leaves it without repeats. */
  lemma DistinctPermutation<T>(a: seq<T>, b: seq<T>)
    requires Distinct(a) && multiset(a) == multiset(b)
    ensures Distinct(b)
  {
    forall i, j | 0 <= i < j < |b| ensures b[i] != b[j] {
      if b[i] == b[j] {
        var x := b[i];
        assert b == b[..j] + b[j..];
        assert x in b[..j] && b[j..][0] == x;
        assert multiset(b[..j])[x] >= 1 && multiset(b[j..])[x] >= 1;
        assert multiset(b)[x] >= 2;
        DistinctCount(a, x);
        assert false;
      }
    }
  }

  lemma SameMembersSingleton<T>(a: seq<T>, b: seq<T>)
    requires forall x :: x in a <==> x in b
    requires |a| == |b| <= 1
    ensures a == b
  {
    if |a| == 1 {
      assert a[0] in b;
    }
  }
}
