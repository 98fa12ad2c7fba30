/** Sums of a measure over a sequence, as `reduce((acc, x) => acc + f(x), 0)`
    computes them, and the facts about them the totals rely on. */
module Sums {
  /** `reduce((acc, x) => acc + f(x), 0)`. */
  function Sum<T>(s: seq<T>, f: T -> real): real {
    if s == [] then 0.0 else Sum(s[..|s| - 1], f) + f(s[|s| - 1])
  }

  lemma SumSingle<T>(x: T, f: T -> real)
    ensures Sum([x], f) == f(x)
  {
    assert [x][..0] == [];
  }

  lemma {:induction false} SumAppend<T>(a: seq<T>, b: seq<T>, f: T -> real)
    ensures Sum(a + b, f) == Sum(a, f) + Sum(b, f)
  {
    if b == [] {
      assert a + b == a;
    } else {
      var n := |b| - 1;
      assert (a + b)[..|a + b| - 1] == a + b[..n];
      assert (a + b)[|a + b| - 1] == b[n];
      SumAppend(a, b[..n], f);
    }
  }

  /** The sum does not depend on the order of the elements. */
  lemma {:induction false} SumPermutation<T>(a: seq<T>, b: seq<T>, f: T -> real)
    requires multiset(a) == multiset(b)
    ensures Sum(a, f) == Sum(b, f)
  {
    if a == [] {
      assert |b| == |multiset(b)| == 0;
    } else {
      var n := |a| - 1;
      var x := a[n];
      assert a == a[..n] + [x];
      assert x in multiset(b);
      var i :| 0 <= i < |b| && b[i] == x;
      var rest := b[..i] + b[i + 1..];
      assert b == b[..i] + [x] + b[i + 1..];
      assert multiset(a[..n]) == multiset(a) - multiset{x};
      assert multiset(rest) == multiset(b) - multiset{x};
      SumPermutation(a[..n], rest, f);
      SumAppend(b[..i] + [x], b[i + 1..], f);
      SumAppend(b[..i], [x], f);
      SumAppend(b[..i], b[i + 1..], f);
      SumSingle(x, f);
    }
  }

  /** Replacing one element changes the sum by the difference. */
  lemma {:induction false} SumUpdate<T>(s: seq<T>, i: nat, v: T, f: T -> real)
    requires i < |s|
    ensures Sum(s[i := v], f) == Sum(s, f) - f(s[i]) + f(v)
  {
    var n := |s| - 1;
    if i < n {
      assert s[i := v][..n] == s[..n][i := v];
      SumUpdate(s[..n], i, v, f);
    } else {
      assert s[i := v][..n] == s[..n];
    }
  }

  /** When every value is a fixed share of another, so is the total. */
  lemma {:induction false} SumScaled<T>(s: seq<T>, f: T -> real, g: T -> real, m: real)
    requires forall x :: x in s ==> f(x) == g(x) * m
    ensures Sum(s, f) == Sum(s, g) * m
  {
    if s != [] {
      SumScaled(s[..|s| - 1], f, g, m);
    }
  }

  /** The elements of s whose key is k, in their order in s: the group
      `(acc[key] = acc[key] || []).push(x)` builds for k. */
  function Keyed<T, K(==)>(s: seq<T>, key: T -> K, k: K): seq<T> {
    if s == [] then []
    else Keyed(s[..|s| - 1], key, k) + (if key(s[|s| - 1]) == k then [s[|s| - 1]] else [])
  }

  /** How one more element changes a group's sum. */
  lemma KeyedStep<T, K>(p: seq<T>, x: T, key: T -> K, f: T -> real, k: K)
    ensures Sum(Keyed(p + [x], key, k), f) == Sum(Keyed(p, key, k), f) + (if key(x) == k then f(x) else 0.0)
  {
    assert (p + [x])[..|p|] == p;
    SumAppend(Keyed(p, key, k), if key(x) == k then [x] else [], f);
    SumSingle(x, f);
  }

  /** A key no element has selects nothing. */
  lemma {:induction false} NoneKeyed<T(!new), K>(s: seq<T>, key: T -> K, k: K)
    requires forall x :: x in s ==> key(x) != k
    ensures Keyed(s, key, k) == []
  {
    if s != [] {
      var n := |s| - 1;
      assert s[n] in s;
      assert forall x :: x in s[..n] ==> x in s;
      NoneKeyed(s[..n], key, k);
    }
  }

  /** The group of k holds exactly the elements whose key is k. */
  lemma {:induction false} KeyedMembers<T(!new), K>(s: seq<T>, key: T -> K, k: K)
    ensures forall x :: x in Keyed(s, key, k) <==> x in s && key(x) == k
  {
    if s != [] {
      var n := |s| - 1;
      KeyedMembers(s[..n], key, k);
      assert s == s[..n] + [s[n]];
    }
  }

  /** Grouping a concatenation groups each part and keeps their order. */
  lemma {:induction false} KeyedAppend<T, K>(a: seq<T>, b: seq<T>, key: T -> K, k: K)
    ensures Keyed(a + b, key, k) == Keyed(a, key, k) + Keyed(b, key, k)
  {
    if b == [] {
      assert a + b == a;
    } else {
      var n := |b| - 1;
      KeyedAppend(a, b[..n], key, k);
      assert (a + b)[..|a + b| - 1] == a + b[..n];
      assert (a + b)[|a + b| - 1] == b[n];
    }
  }

  /** The group of k holds each element with key k as often as s does,
      and no other element. */
  lemma {:induction false} KeyedCount<T, K>(s: seq<T>, key: T -> K, k: K, x: T)
    ensures multiset(Keyed(s, key, k))[x] == if key(x) == k then multiset(s)[x] else 0
  {
    if s != [] {
      var n := |s| - 1;
      KeyedCount(s[..n], key, k, x);
      assert s == s[..n] + [s[n]];
    }
  }

  /** f where the key is k, and 0 elsewhere. */
  function Masked<T, K(==)>(f: T -> real, key: T -> K, k: K): T -> real {
    x => if key(x) == k then f(x) else 0.0
  }

  /** A group's sum is the whole list's sum with every element of another
      key counted as 0. */
  lemma {:induction false} SumKeyed<T, K>(s: seq<T>, key: T -> K, k: K, f: T -> real)
    ensures Sum(Keyed(s, key, k), f) == Sum(s, Masked(f, key, k))
  {
    if s != [] {
      var n := |s| - 1;
      var g := Masked(f, key, k);
      SumKeyed(s[..n], key, k, f);
      KeyedStep(s[..n], s[n], key, f, k);
      assert s == s[..n] + [s[n]];
      SumAppend(s[..n], [s[n]], g);
      SumSingle(s[n], g);
    }
  }

  /** The sums of the groups of the keys ks, added up. */
  function GroupSums<T, K(==)>(s: seq<T>, key: T -> K, ks: seq<K>, f: T -> real): real {
    if ks == [] then 0.0 else GroupSums(s, key, ks[..|ks| - 1], f) + Sum(Keyed(s, key, ks[|ks| - 1]), f)
  }

  /** The group sums of keys split at the front. */
  lemma {:induction false} GroupSumsFront<T, K>(s: seq<T>, key: T -> K, ks: seq<K>, f: T -> real)
    requires ks != []
    ensures GroupSums(s, key, ks, f) == Sum(Keyed(s, key, ks[0]), f) + GroupSums(s, key, ks[1..], f)
  {
    var n := |ks| - 1;
    if n == 0 {
      assert ks[1..] == [] && ks[..n] == [];
    } else {
      GroupSumsFront(s, key, ks[..n], f);
      assert ks[..n][1..] == ks[1..][..|ks[1..]| - 1];
      assert ks[1..][|ks[1..]| - 1] == ks[n];
    }
  }

  predicate Distinct<K(==)>(ks: seq<K>) {
    forall i, j :: 0 <= i < j < |ks| ==> ks[i] != ks[j]
  }

  lemma DistinctCons<K>(k: K, ks: seq<K>)
    requires Distinct(ks) && k !in ks
    ensures Distinct([k] + ks)
  {
    var r := [k] + ks;
    forall i, j | 0 <= i < j < |r| ensures r[i] != r[j] {
      assert r[j] == ks[j - 1];
      if i > 0 {
        assert r[i] == ks[i - 1];
      }
    }
  }

  /** One more element adds its value to the sum of its own group only. */
  lemma {:induction false} GroupSumsStep<T, K>(p: seq<T>, x: T, key: T -> K, ks: seq<K>, f: T -> real)
    requires Distinct(ks)
    ensures GroupSums(p + [x], key, ks, f) == GroupSums(p, key, ks, f) + (if key(x) in ks then f(x) else 0.0)
  {
    if ks != [] {
      var n := |ks| - 1;
      assert ks == ks[..n] + [ks[n]];
      assert key(x) in ks[..n] ==> key(x) != ks[n];
      assert key(x) in ks <==> key(x) in ks[..n] || key(x) == ks[n];
      GroupSumsStep(p, x, key, ks[..n], f);
      KeyedStep(p, x, key, f, ks[n]);
    }
  }

  /** Groups over distinct keys that cover every element partition the
      sequence: their sums add up to the sum of the whole. */
  lemma {:induction false} PartitionSum<T(!new), K>(s: seq<T>, key: T -> K, ks: seq<K>, f: T -> real)
    requires Distinct(ks)
    requires forall x :: x in s ==> key(x) in ks
    ensures GroupSums(s, key, ks, f) == Sum(s, f)
  {
    if s == [] {
      EmptyGroupSums(key, ks, f);
    } else {
      var n := |s| - 1;
      assert s == s[..n] + [s[n]];
      assert forall x :: x in s[..n] ==> x in s;
      PartitionSum(s[..n], key, ks, f);
      GroupSumsStep(s[..n], s[n], key, ks, f);
    }
  }

  lemma {:induction false} EmptyGroupSums<T, K>(key: T -> K, ks: seq<K>, f: T -> real)
    ensures GroupSums([], key, ks, f) == 0.0
  {
    if ks != [] {
      EmptyGroupSums(key, ks[..|ks| - 1], f);
    }
  }
}
