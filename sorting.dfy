/** Stable sorting by an integer-pair key: insertion sort as a function,
    its properties (ordered, a permutation, stable), and the same algorithm
    in place on an array proved to produce that function's result. */
module Sorting {
  /** Strict lexicographic order on (date number, start rank). */
  predicate KeyLess(p: (int, int), q: (int, int)) {
    p.0 < q.0 || (p.0 == q.0 && p.1 < q.1)
  }

  /** Neighbours are in key order. */
  predicate OrderedBy<T>(s: seq<T>, key: T -> (int, int)) {
    forall i :: 0 < i < |s| ==> !KeyLess(key(s[i]), key(s[i - 1]))
  }

  /** Insert x after every element whose key is not greater than x's. */
  function InsertBy<T>(t: seq<T>, x: T, key: T -> (int, int)): (r: seq<T>)
    ensures |r| == |t| + 1
  {
    if t == [] then [x]
    else if KeyLess(key(x), key(t[|t| - 1])) then InsertBy(t[..|t| - 1], x, key) + [t[|t| - 1]]
    else t + [x]
  }

  /** The position where InsertBy puts x. */
  function InsertPos<T>(t: seq<T>, x: T, key: T -> (int, int)): (p: nat)
    ensures p <= |t|
  {
    if t == [] then 0
    else if KeyLess(key(x), key(t[|t| - 1])) then InsertPos(t[..|t| - 1], x, key)
    else |t|
  }

  /** Stable insertion sort by key, as a function. */
  function SortBy<T>(s: seq<T>, key: T -> (int, int)): (r: seq<T>)
    ensures |r| == |s|
  {
    if s == [] then [] else InsertBy(SortBy(s[..|s| - 1], key), s[|s| - 1], key)
  }

  lemma {:induction false} InsertShape<T>(t: seq<T>, x: T, key: T -> (int, int))
    ensures var p := InsertPos(t, x, key);
      InsertBy(t, x, key) == t[..p] + [x] + t[p..]
      && (forall k :: p <= k < |t| ==> KeyLess(key(x), key(t[k])))
      && (p > 0 ==> !KeyLess(key(x), key(t[p - 1])))
  {
    if t != [] && KeyLess(key(x), key(t[|t| - 1])) {
      var u := t[..|t| - 1];
      InsertShape(u, x, key);
      var p := InsertPos(u, x, key);
      assert u[..p] == t[..p];
      assert u[p..] + [t[|t| - 1]] == t[p..];
    } else if t != [] {
      assert t[..|t|] == t;
    }
  }

  /** Inserting into an ordered list keeps it ordered. */
  lemma InsertKeepsOrder<T>(t: seq<T>, x: T, key: T -> (int, int))
    requires OrderedBy(t, key)
    ensures OrderedBy(InsertBy(t, x, key), key)
  {
    InsertShape(t, x, key);
    var p := InsertPos(t, x, key);
    var r := InsertBy(t, x, key);
    forall i | 0 < i < |r| ensures !KeyLess(key(r[i]), key(r[i - 1])) {
      if i < p {
        assert r[i] == t[i] && r[i - 1] == t[i - 1];
      } else if i == p {
        assert r[i] == x && r[i - 1] == t[p - 1];
      } else if i == p + 1 {
        assert r[i] == t[p] && r[i - 1] == x;
      } else {
        assert r[i] == t[i - 1] && r[i - 1] == t[i - 2];
      }
    }
  }

  lemma InsertMultiset<T>(t: seq<T>, x: T, key: T -> (int, int))
    ensures multiset(InsertBy(t, x, key)) == multiset(t) + multiset{x}
  {
    InsertShape(t, x, key);
    var p := InsertPos(t, x, key);
    assert t == t[..p] + t[p..];
  }

  lemma {:induction false} SortByOrdered<T>(s: seq<T>, key: T -> (int, int))
    ensures OrderedBy(SortBy(s, key), key)
  {
    if s != [] {
      SortByOrdered(s[..|s| - 1], key);
      InsertKeepsOrder(SortBy(s[..|s| - 1], key), s[|s| - 1], key);
    }
  }

  lemma {:induction false} SortByPermutes<T>(s: seq<T>, key: T -> (int, int))
    ensures multiset(SortBy(s, key)) == multiset(s)
  {
    if s != [] {
      var u := s[..|s| - 1];
      SortByPermutes(u, key);
      InsertMultiset(SortBy(u, key), s[|s| - 1], key);
      assert s == u + [s[|s| - 1]];
    }
  }

  /** Every pair, not just neighbours, is in order in an ordered list. */
  lemma {:induction false} OrderedPairwise<T>(s: seq<T>, key: T -> (int, int), i: int, j: int)
    requires OrderedBy(s, key) && 0 <= i < j < |s|
    ensures !KeyLess(key(s[j]), key(s[i]))
    decreases j - i
  {
    if j > i + 1 {
      OrderedPairwise(s, key, i, j - 1);
    }
  }

  /** The first element of the sorted list has the least key and the last
      the greatest. */
  lemma SortByEnds<T>(s: seq<T>, key: T -> (int, int))
    requires s != []
    ensures var r := SortBy(s, key);
      forall x :: x in s ==> !KeyLess(key(x), key(r[0])) && !KeyLess(key(r[|r| - 1]), key(x))
  {
    var r := SortBy(s, key);
    SortByOrdered(s, key);
    SortByPermutes(s, key);
    forall x | x in s ensures !KeyLess(key(x), key(r[0])) && !KeyLess(key(r[|r| - 1]), key(x)) {
      assert x in multiset(r);
      var i :| 0 <= i < |r| && r[i] == x;
      if 0 < i {
        OrderedPairwise(r, key, 0, i);
      }
      if i < |r| - 1 {
        OrderedPairwise(r, key, i, |r| - 1);
      }
    }
  }

  /** The elements of s whose key is k, in their order in s. */
  function WithKey<T>(s: seq<T>, key: T -> (int, int), k: (int, int)): seq<T> {
    if s == [] then []
    else WithKey(s[..|s| - 1], key, k) + (if key(s[|s| - 1]) == k then [s[|s| - 1]] else [])
  }

  lemma {:induction false} WithKeyAppend<T>(a: seq<T>, b: seq<T>, key: T -> (int, int), k: (int, int))
    ensures WithKey(a + b, key, k) == WithKey(a, key, k) + WithKey(b, key, k)
    decreases |b|
  {
    if b == [] {
      assert a + b == a;
    } else {
      var b' := b[..|b| - 1];
      WithKeyAppend(a, b', key, k);
      assert (a + b)[..|a + b| - 1] == a + b';
    }
  }

  lemma {:induction false} WithKeyAbsent<T>(s: seq<T>, key: T -> (int, int), k: (int, int))
    requires forall j :: 0 <= j < |s| ==> key(s[j]) != k
    ensures WithKey(s, key, k) == []
  {
    if s != [] {
      WithKeyAbsent(s[..|s| - 1], key, k);
    }
  }

  lemma InsertWithKey<T>(t: seq<T>, x: T, key: T -> (int, int), k: (int, int))
    ensures WithKey(InsertBy(t, x, key), key, k) == WithKey(t, key, k) + (if key(x) == k then [x] else [])
  {
    InsertShape(t, x, key);
    InsertTail(t, x, key);
    var p := InsertPos(t, x, key);
    WithKeyBetween(t[..p], t[p..], x, key, k);
    assert t[..p] + t[p..] == t;
  }

  /** Everything after the insertion point has a strictly greater key. */
  lemma InsertTail<T>(t: seq<T>, x: T, key: T -> (int, int))
    ensures var b := t[InsertPos(t, x, key)..];
      forall j :: 0 <= j < |b| ==> KeyLess(key(x), key(b[j]))
  {
    InsertShape(t, x, key);
  }

  /** x placed before b, whose keys are all greater, is the last element
      with its key. */
  lemma WithKeyBetween<T>(a: seq<T>, b: seq<T>, x: T, key: T -> (int, int), k: (int, int))
    requires forall j :: 0 <= j < |b| ==> KeyLess(key(x), key(b[j]))
    ensures WithKey(a + [x] + b, key, k) == WithKey(a + b, key, k) + (if key(x) == k then [x] else [])
  {
    var wa, wx, wb := WithKey(a, key, k), WithKey([x], key, k), WithKey(b, key, k);
    assert WithKey(a + [x] + b, key, k) == wa + wx + wb by {
      WithKeyAppend(a + [x], b, key, k);
      WithKeyAppend(a, [x], key, k);
    }
    assert WithKey(a + b, key, k) == wa + wb by {
      WithKeyAppend(a, b, key, k);
    }
    WithKeySingle(x, key, k);
    if key(x) == k {
      WithKeyAbsent(b, key, k);
      assert wa + wx + wb == wa + wb + [x];
    } else {
      assert wa + wx + wb == wa + wb + [];
    }
  }

  lemma WithKeySingle<T>(x: T, key: T -> (int, int), k: (int, int))
    ensures WithKey([x], key, k) == if key(x) == k then [x] else []
  {
    assert [x][..0] == [];
  }

  lemma {:induction false} SortByStable<T>(s: seq<T>, key: T -> (int, int), k: (int, int))
    ensures WithKey(SortBy(s, key), key, k) == WithKey(s, key, k)
  {
    if s != [] {
      SortByStable(s[..|s| - 1], key, k);
      InsertWithKey(SortBy(s[..|s| - 1], key), s[|s| - 1], key, k);
    }
  }

  /** Insertion sort in place: each element moves left past the elements
      whose key is strictly greater. */
  method SortInPlace<T>(a: array<T>, key: T -> (int, int))
    modifies a
    ensures a[..] == SortBy(old(a[..]), key)
  {
    var i := 0;
    while i < a.Length
      invariant 0 <= i <= a.Length
      invariant a[..i] == SortBy(old(a[..])[..i], key)
      invariant forall k :: i <= k < a.Length ==> a[k] == old(a[k])
    {
      InsertInPlace(a, i, key);
      assert old(a[..])[..i + 1] == old(a[..])[..i] + [old(a[..])[i]];
      i := i + 1;
    }
    assert a[..] == a[..a.Length];
    assert old(a[..]) == old(a[..])[..a.Length];
  }

  /** One pass of the sort: `a[i]` moves left into the sorted prefix
      `a[..i]`; the elements after it stay where they are. */
  method InsertInPlace<T>(a: array<T>, i: int, key: T -> (int, int))
    requires 0 <= i < a.Length
    modifies a
    ensures a[..i + 1] == InsertBy(old(a[..i]), old(a[i]), key)
    ensures forall k :: i < k < a.Length ==> a[k] == old(a[k])
  {
    var prefix := a[..i];
    var x := a[i];
    ghost var p := InsertPos(prefix, x, key);
    InsertShape(prefix, x, key);
    var j := i;
    while j > 0 && KeyLess(key(x), key(a[j - 1]))
      invariant p <= j <= i
      invariant forall k :: 0 <= k < j ==> a[k] == prefix[k]
      invariant forall k :: j < k <= i ==> a[k] == prefix[k - 1]
      invariant forall k :: i < k < a.Length ==> a[k] == old(a[k])
    {
      label Step:
      var y := a[j - 1];
      a[j] := y;
      forall k | j - 1 < k <= i ensures a[k] == prefix[k - 1] {
        if k > j {
          assert a[k] == old@Step(a[k]);
        }
      }
      j := j - 1;
    }
    assert j == p;
    a[j] := x;
    Spliced(a[..i + 1], prefix, x, p);
  }

  /** A sequence that agrees with t before p, holds x at p and t shifted by
      one after it is t with x inserted at p. */
  lemma Spliced<T>(s: seq<T>, t: seq<T>, x: T, p: nat)
    requires p <= |t| && |s| == |t| + 1 && s[p] == x
    requires forall k :: 0 <= k < p ==> s[k] == t[k]
    requires forall k :: p < k < |s| ==> s[k] == t[k - 1]
    ensures s == t[..p] + [x] + t[p..]
  {
  }
}
