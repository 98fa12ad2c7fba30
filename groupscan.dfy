/** The algorithm of `detectOverlaps`, for any record type: group the
    records by a key in the order they appear, and within every group of two
    or more compare each record with the next one of its group; when the
    pair is a hit, mark both. A record is marked by `mark`, which must be
    idempotent and must change neither the key nor the outcome of any
    comparison (the scan never reads what it sets). */
module GroupScan {

  /** Every entry of g is an index below n. */
  predicate IndicesIn(g: seq<int>, n: int) {
    forall t :: 0 <= t < |g| ==> 0 <= g[t] < n
  }

  /** What the scan needs of `mark`. */
  ghost predicate Compatible<T(!new), K>(key: T -> K, hit: (T, T) -> bool, mark: T -> T) {
    && (forall x :: key(mark(x)) == key(x))
    && Harmless(hit, mark)
  }

  /** Marking twice is marking once, and a mark changes no comparison. */
  ghost predicate Harmless<T(!new)>(hit: (T, T) -> bool, mark: T -> T) {
    && (forall x :: mark(mark(x)) == mark(x))
    && (forall x, y :: hit(mark(x), y) == hit(x, y) && hit(x, mark(y)) == hit(x, y))
  }

  /** The indices of the records with key d, in order. */
  function Group<T, K(==)>(s: seq<T>, key: T -> K, d: K): (g: seq<int>)
    ensures IndicesIn(g, |s|)
    ensures forall t :: 0 <= t < |g| ==> key(s[g[t]]) == d
    ensures forall t, u :: 0 <= t < u < |g| ==> g[t] < g[u]
  {
    if s == [] then []
    else Group(s[..|s| - 1], key, d) + (if key(s[|s| - 1]) == d then [|s| - 1] else [])
  }

  /** One step of building the groups. */
  lemma GroupSnoc<T, K>(s: seq<T>, key: T -> K, i: int, d: K)
    requires 0 <= i < |s|
    ensures Group(s[..i + 1], key, d) == Group(s[..i], key, d) + (if key(s[i]) == d then [i] else [])
  {
    assert s[..i + 1][..i] == s[..i];
  }

  /** Record k is in the group of d exactly when its key is d. */
  lemma {:induction false} GroupMember<T, K>(s: seq<T>, key: T -> K, d: K, k: int)
    ensures k in Group(s, key, d) <==> 0 <= k < |s| && key(s[k]) == d
  {
    if s != [] {
      var u := s[..|s| - 1];
      GroupMember(u, key, d, k);
      if 0 <= k < |u| {
        assert u[k] == s[k];
      }
    }
  }

  /** One of the first n scan steps over g is a hit involving record k. */
  predicate FlaggedBefore<T>(s: seq<T>, g: seq<int>, hit: (T, T) -> bool, k: int, n: int)
    requires IndicesIn(g, |s|) && n <= |g| - 1
  {
    exists t :: 0 <= t < n && StepHits(s, g, hit, k, t)
  }

  /** Step t of the scan over g is a hit involving record k. */
  predicate StepHits<T>(s: seq<T>, g: seq<int>, hit: (T, T) -> bool, k: int, t: int)
    requires IndicesIn(g, |s|) && 0 <= t < |g| - 1
  {
    hit(s[g[t]], s[g[t + 1]]) && (g[t] == k || g[t + 1] == k)
  }

  /** Some step of the whole scan over g is a hit involving record k. */
  predicate PairFlagged<T>(s: seq<T>, g: seq<int>, hit: (T, T) -> bool, k: int)
    requires IndicesIn(g, |s|)
  {
    FlaggedBefore(s, g, hit, k, |g| - 1)
  }

  /** The records the scan marks: k and the next record with its key, or k
      and the previous one, are a hit. */
  predicate Flagged<T, K(==)>(s: seq<T>, key: T -> K, hit: (T, T) -> bool, k: int)
    requires 0 <= k < |s|
  {
    PairFlagged(s, Group(s, key, key(s[k])), hit, k)
  }

  function MarkIf<T>(x: T, flag: bool, mark: T -> T): T {
    if flag then mark(x) else x
  }

  /** The records after the scan: each one marked when it is flagged. */
  function Scanned<T, K(==)>(s: seq<T>, key: T -> K, hit: (T, T) -> bool, mark: T -> T): (r: seq<T>)
    ensures |r| == |s|
  {
    seq(|s|, k requires 0 <= k < |s| => MarkIf(s[k], Flagged(s, key, hit, k), mark))
  }

  /** The records once the groups of the keys outside `pending` are done. */
  function ScannedExcept<T, K(==)>(s: seq<T>, key: T -> K, hit: (T, T) -> bool, mark: T -> T, pending: set<K>): (r: seq<T>)
    ensures |r| == |s|
  {
    seq(|s|, k requires 0 <= k < |s| => MarkIf(s[k], key(s[k]) !in pending && Flagged(s, key, hit, k), mark))
  }

  /** The records once the first n steps over g are done. */
  function ScannedBefore<T>(s: seq<T>, g: seq<int>, hit: (T, T) -> bool, mark: T -> T, n: int): (r: seq<T>)
    requires IndicesIn(g, |s|) && n <= |g| - 1
    ensures |r| == |s|
  {
    seq(|s|, k requires 0 <= k < |s| => MarkIf(s[k], FlaggedBefore(s, g, hit, k, n), mark))
  }

  /** Mark record j. */
  function SetAt<T>(m: seq<T>, j: int, mark: T -> T): seq<T>
    requires 0 <= j < |m|
  {
    m[j := mark(m[j])]
  }

  /** Step n of the scan over g on the current records. */
  function ScanPair<T>(m: seq<T>, g: seq<int>, hit: (T, T) -> bool, mark: T -> T, n: int): seq<T>
    requires IndicesIn(g, |m|) && 0 <= n < |g| - 1
  {
    if hit(m[g[n]], m[g[n + 1]]) then SetAt(SetAt(m, g[n], mark), g[n + 1], mark) else m
  }

  /** The indices of the records, grouped by key in order of appearance. */
  method GroupByKey<T, K(==)>(a: array<T>, key: T -> K) returns (groups: map<K, seq<int>>)
    ensures forall d :: d in groups <==> Group(a[..], key, d) != []
    ensures forall d :: d in groups ==> groups[d] == Group(a[..], key, d)
  {
    ghost var s := a[..];
    groups := map[];
    var i := 0;
    while i < a.Length
      invariant 0 <= i <= a.Length
      invariant forall d :: d in groups <==> Group(s[..i], key, d) != []
      invariant forall d :: d in groups ==> groups[d] == Group(s[..i], key, d)
    {
      var d := key(a[i]);
      forall e { GroupSnoc(s, key, i, e); }
      var before := groups;
      groups := groups[d := (if d in groups then groups[d] else []) + [i]];
      assert groups[d] == Group(s[..i + 1], key, d);
      forall e | e != d ensures (e in groups <==> e in before) && (e in groups ==> groups[e] == before[e]) {
      }
      i := i + 1;
    }
    assert s[..a.Length] == s;
  }

  /** Group the records by key, then scan every group of two or more. */
  method ScanAll<T(!new), K(==)>(a: array<T>, key: T -> K, hit: (T, T) -> bool, mark: T -> T)
    requires Compatible(key, hit, mark)
    modifies a
    ensures a[..] == Scanned(old(a[..]), key, hit, mark)
  {
    ghost var s := a[..];
    var groups := GroupByKey(a, key);
    var pending := groups.Keys;
    NothingScanned(s, key, hit, mark, pending);
    while pending != {}
      invariant pending <= groups.Keys
      invariant a[..] == ScannedExcept(s, key, hit, mark, pending)
      decreases |pending|
    {
      var d :| d in pending;
      ScanKey(a, s, key, hit, mark, pending, d, groups[d]);
      pending := pending - {d};
    }
    assert ScannedExcept(s, key, hit, mark, {}) == Scanned(s, key, hit, mark);
  }

  /** The records of key d, whose indices are g: skipped when fewer than
      two, scanned otherwise. */
  method ScanKey<T(!new), K(==)>(a: array<T>, ghost s: seq<T>, key: T -> K, hit: (T, T) -> bool, mark: T -> T,
                                 ghost pending: set<K>, d: K, g: seq<int>)
    requires Compatible(key, hit, mark) && d in pending && g == Group(s, key, d)
    requires a[..] == ScannedExcept(s, key, hit, mark, pending)
    modifies a
    ensures a[..] == ScannedExcept(s, key, hit, mark, pending - {d})
  {
    if |g| < 2 {
      SkipGroup(s, key, hit, mark, pending, d);
    } else {
      ScanOneGroup(s, key, hit, mark, pending, d);
      ScanGroup(a, g, hit, mark);
    }
  }

  /** The inner loop over one group: each record against the next. */
  method ScanGroup<T(!new)>(a: array<T>, g: seq<int>, hit: (T, T) -> bool, mark: T -> T)
    requires |g| >= 2 && IndicesIn(g, a.Length)
    requires Harmless(hit, mark)
    modifies a
    ensures a[..] == ScannedBefore(old(a[..]), g, hit, mark, |g| - 1)
  {
    ghost var s := a[..];
    var i := 0;
    NothingScannedYet(s, g, hit, mark);
    while i < |g| - 1
      invariant 0 <= i <= |g| - 1
      invariant a[..] == ScannedBefore(s, g, hit, mark, i)
    {
      ScanStep(s, g, hit, mark, i);
      ScanPairAt(a, g, hit, mark, i);
      i := i + 1;
    }
  }

  /** One step of the inner loop: when record g[n] and record g[n + 1] are a
      hit, mark both. */
  method ScanPairAt<T>(a: array<T>, g: seq<int>, hit: (T, T) -> bool, mark: T -> T, n: int)
    requires IndicesIn(g, a.Length) && 0 <= n < |g| - 1
    modifies a
    ensures a[..] == ScanPair(old(a[..]), g, hit, mark, n)
  {
    ghost var m := a[..];
    var current, next := g[n], g[n + 1];
    if hit(a[current], a[next]) {
      a[current] := mark(a[current]);
      assert a[..] == SetAt(m, current, mark);
      ghost var m1 := a[..];
      a[next] := mark(a[next]);
      assert a[..] == SetAt(m1, next, mark);
    }
  }

  /** Before its first step the scan of g has changed nothing. */
  lemma NothingScannedYet<T>(s: seq<T>, g: seq<int>, hit: (T, T) -> bool, mark: T -> T)
    requires IndicesIn(g, |s|) && |g| >= 1
    ensures ScannedBefore(s, g, hit, mark, 0) == s
  {
  }

  /** Step n marks the two records of the pair exactly when it is a hit. */
  lemma ScanStep<T(!new)>(s: seq<T>, g: seq<int>, hit: (T, T) -> bool, mark: T -> T, n: int)
    requires IndicesIn(g, |s|) && 0 <= n < |g| - 1
    requires Harmless(hit, mark)
    ensures ScannedBefore(s, g, hit, mark, n + 1) == ScanPair(ScannedBefore(s, g, hit, mark, n), g, hit, mark, n)
  {
    var m := ScannedBefore(s, g, hit, mark, n);
    assert hit(m[g[n]], m[g[n + 1]]) == hit(s[g[n]], s[g[n + 1]]);
    forall k | 0 <= k < |s| {
      FlaggedBeforeStep(s, g, hit, k, n);
    }
  }

  lemma FlaggedBeforeStep<T>(s: seq<T>, g: seq<int>, hit: (T, T) -> bool, k: int, n: int)
    requires IndicesIn(g, |s|) && 0 <= n < |g| - 1
    ensures FlaggedBefore(s, g, hit, k, n + 1) == (FlaggedBefore(s, g, hit, k, n) || StepHits(s, g, hit, k, n))
  {
    if FlaggedBefore(s, g, hit, k, n + 1) && !FlaggedBefore(s, g, hit, k, n) {
      var t :| 0 <= t < n + 1 && StepHits(s, g, hit, k, t);
      assert t == n;
    }
  }

  /** Before the scan every key is pending and nothing has changed. */
  lemma NothingScanned<T, K>(s: seq<T>, key: T -> K, hit: (T, T) -> bool, mark: T -> T, pending: set<K>)
    requires forall d :: d in pending <==> Group(s, key, d) != []
    ensures ScannedExcept(s, key, hit, mark, pending) == s
  {
    forall k | 0 <= k < |s| ensures ScannedExcept(s, key, hit, mark, pending)[k] == s[k] {
      GroupMember(s, key, key(s[k]), k);
      assert k in Group(s, key, key(s[k]));
      assert Group(s, key, key(s[k])) != [];
      assert key(s[k]) in pending;
      assert ScannedExcept(s, key, hit, mark, pending)[k] == MarkIf(s[k], false, mark);
    }
  }

  /** Scanning the group of a pending key d finishes the records of d and
      leaves every other record as it was. */
  lemma ScanOneGroup<T(!new), K>(s: seq<T>, key: T -> K, hit: (T, T) -> bool, mark: T -> T, pending: set<K>, d: K)
    requires Compatible(key, hit, mark) && d in pending
    ensures var m := ScannedExcept(s, key, hit, mark, pending); var g := Group(s, key, d);
      ScannedBefore(m, g, hit, mark, |g| - 1) == ScannedExcept(s, key, hit, mark, pending - {d})
  {
    var m := ScannedExcept(s, key, hit, mark, pending);
    var g := Group(s, key, d);
    SameHits(m, s, g, hit, mark);
    forall k | 0 <= k < |s| && key(s[k]) != d ensures !PairFlagged(s, g, hit, k) {
      OutsideNotFlagged(s, key, g, hit, d, k);
    }
  }

  /** A key with fewer than two records is skipped: none of them is flagged. */
  lemma SkipGroup<T, K>(s: seq<T>, key: T -> K, hit: (T, T) -> bool, mark: T -> T, pending: set<K>, d: K)
    requires |Group(s, key, d)| < 2
    ensures ScannedExcept(s, key, hit, mark, pending) == ScannedExcept(s, key, hit, mark, pending - {d})
  {
  }

  /** Marking records does not change which pairs are hits. */
  lemma SameHits<T>(m: seq<T>, s: seq<T>, g: seq<int>, hit: (T, T) -> bool, mark: T -> T)
    requires |m| == |s| && IndicesIn(g, |s|)
    requires forall j :: 0 <= j < |s| ==> m[j] == s[j] || m[j] == mark(s[j])
    requires forall x, y :: hit(mark(x), y) == hit(x, y) && hit(x, mark(y)) == hit(x, y)
    ensures forall k :: PairFlagged(m, g, hit, k) == PairFlagged(s, g, hit, k)
  {
    forall k, t | 0 <= t < |g| - 1 ensures StepHits(m, g, hit, k, t) == StepHits(s, g, hit, k, t) {
    }
  }

  /** The scan of one group never flags a record with another key. */
  lemma OutsideNotFlagged<T, K>(s: seq<T>, key: T -> K, g: seq<int>, hit: (T, T) -> bool, d: K, k: int)
    requires IndicesIn(g, |s|) && forall t :: 0 <= t < |g| ==> key(s[g[t]]) == d
    requires 0 <= k < |s| && key(s[k]) != d
    ensures !PairFlagged(s, g, hit, k)
  {
  }

  /** Equal keys sit together: every record between two records with the
      same key has that key too. */
  predicate Runs<T, K(==)>(s: seq<T>, key: T -> K) {
    forall i, l, j :: 0 <= i < l < j < |s| ==> Between(s, key, i, l, j)
  }

  /** Record l, between records i and j, has their key when they share it. */
  predicate Between<T, K(==)>(s: seq<T>, key: T -> K, i: int, l: int, j: int)
    requires 0 <= i < l < j < |s|
  {
    key(s[i]) == key(s[j]) ==> key(s[l]) == key(s[i])
  }

  /** Records that all have one key sit together. */
  lemma OneKeyRuns<T, K>(s: seq<T>, key: T -> K)
    requires forall i :: 0 <= i < |s| ==> key(s[i]) == key(s[0])
    ensures Runs(s, key)
  {
    forall i, l, j | 0 <= i < l < j < |s| ensures Between(s, key, i, l, j) {
    }
  }

  /** In a strictly increasing sequence the order of the values is the
      order of the positions. */
  lemma IndexOrder(g: seq<int>, t: int, u: int)
    requires forall a, b :: 0 <= a < b < |g| ==> g[a] < g[b]
    requires 0 <= t < |g| && 0 <= u < |g|
    ensures g[t] < g[u] ==> t < u
    ensures g[t] <= g[u] ==> t <= u
  {
  }

  /** A strictly increasing sequence of integers spans at least its length. */
  lemma {:induction false} Spread(g: seq<int>)
    requires |g| >= 1 && forall a, b :: 0 <= a < b < |g| ==> g[a] < g[b]
    ensures g[|g| - 1] >= g[0] + |g| - 1
  {
    if |g| >= 2 {
      var h := g[..|g| - 1];
      Spread(h);
      assert g[|g| - 2] < g[|g| - 1];
    }
  }

  /** When equal keys sit together, a group is a run of consecutive indices. */
  lemma RunsConsecutive<T, K>(s: seq<T>, key: T -> K, d: K, t: int)
    requires Runs(s, key)
    requires 0 <= t < |Group(s, key, d)| - 1
    ensures Group(s, key, d)[t + 1] == Group(s, key, d)[t] + 1
  {
    var g := Group(s, key, d);
    var i := g[t];
    assert key(s[i + 1]) == d by {
      var j := g[t + 1];
      assert key(s[i]) == d && key(s[j]) == d;
      if i + 1 < j {
        assert Between(s, key, i, i + 1, j);
      }
    }
    GroupMember(s, key, d, i + 1);
    var u :| 0 <= u < |g| && g[u] == i + 1;
    IndexOrder(g, t, u);
    IndexOrder(g, u, t + 1);
  }

  /** Two neighbours with the same key that make a hit are both flagged. */
  lemma NeighboursFlagged<T, K>(s: seq<T>, key: T -> K, hit: (T, T) -> bool, k: int)
    requires Runs(s, key) && 0 <= k && k + 1 < |s|
    requires key(s[k + 1]) == key(s[k]) && hit(s[k], s[k + 1])
    ensures Flagged(s, key, hit, k) && Flagged(s, key, hit, k + 1)
  {
    var g := Group(s, key, key(s[k]));
    var t := NeighboursInGroup(s, key, k);
    assert StepHits(s, g, hit, k, t) && StepHits(s, g, hit, k + 1, t);
  }

  /** Two neighbours with the same key are consecutive in their group. */
  lemma NeighboursInGroup<T, K>(s: seq<T>, key: T -> K, k: int) returns (t: int)
    requires Runs(s, key) && 0 <= k && k + 1 < |s| && key(s[k + 1]) == key(s[k])
    ensures var g := Group(s, key, key(s[k])); 0 <= t && t + 1 < |g| && g[t] == k && g[t + 1] == k + 1
  {
    var d := key(s[k]);
    var g := Group(s, key, d);
    GroupMember(s, key, d, k);
    GroupMember(s, key, d, k + 1);
    t :| 0 <= t < |g| && g[t] == k;
    var u :| 0 <= u < |g| && g[u] == k + 1;
    assert t < u by { IndexOrder(g, t, u); }
    RunsConsecutive(s, key, d, t);
  }

  /** A flagged record makes a hit with a neighbour of the same key. */
  lemma FlaggedNeighbour<T, K>(s: seq<T>, key: T -> K, hit: (T, T) -> bool, k: int)
    requires Runs(s, key) && 0 <= k < |s| && Flagged(s, key, hit, k)
    ensures || (k + 1 < |s| && key(s[k + 1]) == key(s[k]) && hit(s[k], s[k + 1]))
            || (0 < k && key(s[k - 1]) == key(s[k]) && hit(s[k - 1], s[k]))
  {
    var i := FlaggedPair(s, key, hit, k);
    if i == k - 1 {
      assert 0 < k && key(s[k - 1]) == key(s[k]) && hit(s[k - 1], s[k]);
    }
  }

  /** The step of the scan that flags record k. */
  lemma PairWitness<T>(s: seq<T>, g: seq<int>, hit: (T, T) -> bool, k: int, n: int) returns (t: int)
    requires IndicesIn(g, |s|) && n <= |g| - 1 && FlaggedBefore(s, g, hit, k, n)
    ensures 0 <= t < n && hit(s[g[t]], s[g[t + 1]]) && (g[t] == k || g[t + 1] == k)
  {
    t :| 0 <= t < n && StepHits(s, g, hit, k, t);
  }

  /** The pair that flags record k: record i and record i + 1, one of them k. */
  lemma FlaggedPair<T, K>(s: seq<T>, key: T -> K, hit: (T, T) -> bool, k: int) returns (i: int)
    requires Runs(s, key) && 0 <= k < |s| && Flagged(s, key, hit, k)
    ensures 0 <= i && i + 1 < |s| && (i == k || i + 1 == k)
    ensures key(s[i]) == key(s[k]) && key(s[i + 1]) == key(s[k]) && hit(s[i], s[i + 1])
  {
    var d := key(s[k]);
    var g := Group(s, key, d);
    var t := PairWitness(s, g, hit, k, |g| - 1);
    RunsConsecutive(s, key, d, t);
    i := g[t];
    assert g[t + 1] == i + 1;
    assert key(s[g[t]]) == d && key(s[g[t + 1]]) == d;
  }

  /** When equal keys sit together, the scan flags exactly the records
      that make a hit with the record just before or just after them, when
      it has the same key. */
  lemma AdjacentFlagged<T, K>(s: seq<T>, key: T -> K, hit: (T, T) -> bool, k: int)
    requires Runs(s, key) && 0 <= k < |s|
    ensures Flagged(s, key, hit, k) <==>
      || (k + 1 < |s| && key(s[k + 1]) == key(s[k]) && hit(s[k], s[k + 1]))
      || (0 < k && key(s[k - 1]) == key(s[k]) && hit(s[k - 1], s[k]))
  {
    if Flagged(s, key, hit, k) {
      FlaggedNeighbour(s, key, hit, k);
    }
    if k + 1 < |s| && key(s[k + 1]) == key(s[k]) && hit(s[k], s[k + 1]) {
      NeighboursFlagged(s, key, hit, k);
    }
    if 0 < k && key(s[k - 1]) == key(s[k]) && hit(s[k - 1], s[k]) {
      NeighboursFlagged(s, key, hit, k - 1);
    }
  }

  /** A record whose key no other record has is never flagged. */
  lemma AloneNotFlagged<T, K>(s: seq<T>, key: T -> K, hit: (T, T) -> bool, k: int)
    requires 0 <= k < |s|
    requires forall j :: 0 <= j < |s| && j != k ==> key(s[j]) != key(s[k])
    ensures !Flagged(s, key, hit, k)
  {
    var g := Group(s, key, key(s[k]));
    if |g| >= 1 {
      assert g[0] == k && g[|g| - 1] == k;
      Spread(g);
    }
  }

  /** Records whose keys agree have the same groups. */
  lemma {:induction false} GroupSameKeys<T, K>(m: seq<T>, s: seq<T>, key: T -> K, d: K)
    requires |m| == |s| && forall j :: 0 <= j < |s| ==> key(m[j]) == key(s[j])
    ensures Group(m, key, d) == Group(s, key, d)
  {
    if s != [] {
      var n := |s| - 1;
      GroupSameKeys(m[..n], s[..n], key, d);
    }
  }

  /** Scanning a second time changes nothing. */
  lemma ScannedIdempotent<T(!new), K>(s: seq<T>, key: T -> K, hit: (T, T) -> bool, mark: T -> T)
    requires Compatible(key, hit, mark)
    ensures Scanned(Scanned(s, key, hit, mark), key, hit, mark) == Scanned(s, key, hit, mark)
  {
    var m := Scanned(s, key, hit, mark);
    forall j | 0 <= j < |s| ensures (m[j] == s[j] || m[j] == mark(s[j])) && key(m[j]) == key(s[j]) {
    }
    forall k | 0 <= k < |s| ensures Flagged(m, key, hit, k) == Flagged(s, key, hit, k) {
      GroupSameKeys(m, s, key, key(s[k]));
      SameHits(m, s, Group(s, key, key(s[k])), hit, mark);
    }
  }
}
