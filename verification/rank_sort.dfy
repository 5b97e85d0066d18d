/** Sorting the keys of a document by rank. The engine orders its key slice
    by ascending rank, comparing keys through the rank lookup; this model
    sorts stably, so keys of equal rank (the keys outside the table, which
    all share the sentinel rank) keep the order they arrived in. The sort is
    stated for any rank function, and the table's ranks are plugged in where
    the engine uses it. */
module RankSort {
  import opened FieldOrder

  /** Keys in non-decreasing rank order. */
  predicate RankSorted(s: seq<string>, rank: string -> nat) {
    forall i, j :: 0 <= i < j < |s| ==> rank(s[i]) <= rank(s[j])
  }

  /** Stable insertion of `x` into a rank-sorted sequence: `x` goes after
      every element whose rank is not above its own. */
  function Insert(sorted: seq<string>, x: string, rank: string -> nat): (r: seq<string>)
    ensures |r| == |sorted| + 1
  {
    if sorted == [] then [x]
    else
      var n := |sorted| - 1;
      assert sorted == sorted[..n] + [sorted[n]];
      if rank(sorted[n]) <= rank(x) then sorted + [x]
      else Insert(sorted[..n], x, rank) + [sorted[n]]
  }

  /** The specification of the key sort: insertion sort from the left. */
  function SortBy(s: seq<string>, rank: string -> nat): (r: seq<string>)
    ensures |r| == |s|
  {
    if s == [] then []
    else
      var n := |s| - 1;
      assert s == s[..n] + [s[n]];
      Insert(SortBy(s[..n], rank), s[n], rank)
  }

  /** Inserting adds exactly the one key. */
  lemma {:induction false} InsertPermutes(sorted: seq<string>, x: string, rank: string -> nat)
    ensures multiset(Insert(sorted, x, rank)) == multiset(sorted) + multiset{x}
    decreases |sorted|
  {
    if sorted != [] {
      var n := |sorted| - 1;
      assert sorted == sorted[..n] + [sorted[n]];
      if rank(sorted[n]) > rank(x) {
        InsertPermutes(sorted[..n], x, rank);
      }
    }
  }

  /** The sort is a permutation of its input. */
  lemma {:induction false} SortByPermutes(s: seq<string>, rank: string -> nat)
    ensures multiset(SortBy(s, rank)) == multiset(s)
    decreases |s|
  {
    if s != [] {
      var n := |s| - 1;
      assert s == s[..n] + [s[n]];
      SortByPermutes(s[..n], rank);
      InsertPermutes(SortBy(s[..n], rank), s[n], rank);
    }
  }

  /** The elements of rank `k`, in the order they occur. */
  function WithRank(s: seq<string>, k: nat, rank: string -> nat): seq<string>
  {
    if s == [] then []
    else WithRank(s[..|s| - 1], k, rank) + (if rank(s[|s| - 1]) == k then [s[|s| - 1]] else [])
  }

  /** Inserting keeps every rank under a common bound. */
  lemma {:induction false} InsertBounded(t: seq<string>, x: string, b: nat, rank: string -> nat)
    requires forall i :: 0 <= i < |t| ==> rank(t[i]) <= b
    requires rank(x) <= b
    ensures forall i :: 0 <= i < |Insert(t, x, rank)| ==> rank(Insert(t, x, rank)[i]) <= b
    decreases |t|
  {
    if t != [] {
      var n := |t| - 1;
      if rank(t[n]) > rank(x) {
        InsertBounded(t[..n], x, b, rank);
      }
    }
  }

  lemma {:induction false} InsertSorted(t: seq<string>, x: string, rank: string -> nat)
    requires RankSorted(t, rank)
    ensures RankSorted(Insert(t, x, rank), rank)
    decreases |t|
  {
    if t != [] {
      var n := |t| - 1;
      if rank(t[n]) > rank(x) {
        var u := Insert(t[..n], x, rank);
        InsertSorted(t[..n], x, rank);
        InsertBounded(t[..n], x, rank(t[n]), rank);
        var r := u + [t[n]];
        assert r == Insert(t, x, rank);
        forall i, j | 0 <= i < j < |r|
          ensures rank(r[i]) <= rank(r[j])
        {
          if j < |u| {
            assert r[i] == u[i] && r[j] == u[j];
          } else {
            assert r[i] == u[i];
          }
        }
      } else {
        var r := t + [x];
        assert r == Insert(t, x, rank);
        forall i, j | 0 <= i < j < |r|
          ensures rank(r[i]) <= rank(r[j])
        {
          if j < |t| {
            assert r[i] == t[i] && r[j] == t[j];
          } else {
            assert r[i] == t[i];
          }
        }
      }
    }
  }

  /** The sort's output is rank-sorted. */
  lemma {:induction false} SortBySorted(s: seq<string>, rank: string -> nat)
    ensures RankSorted(SortBy(s, rank), rank)
    decreases |s|
  {
    if s != [] {
      SortBySorted(s[..|s| - 1], rank);
      InsertSorted(SortBy(s[..|s| - 1], rank), s[|s| - 1], rank);
    }
  }

  /** Inserting `x` passes only keys ranked above it, so among the keys
      of any one rank it lands last. */
  lemma {:induction false} InsertWithRank(t: seq<string>, x: string, k: nat, rank: string -> nat)
    ensures WithRank(Insert(t, x, rank), k, rank)
            == WithRank(t, k, rank) + (if rank(x) == k then [x] else [])
    decreases |t|
  {
    if t == [] {
      assert WithRank([x], k, rank) == WithRank([], k, rank) + (if rank(x) == k then [x] else []);
    } else {
      var n := |t| - 1;
      assert t[..n] + [t[n]] == t;
      if rank(t[n]) <= rank(x) {
        assert (t + [x])[..|t|] == t;
      } else {
        var u := Insert(t[..n], x, rank);
        InsertWithRank(t[..n], x, k, rank);
        assert (u + [t[n]])[..|u|] == u;
        var w := WithRank(t[..n], k, rank);
        var xs: seq<string> := if rank(x) == k then [x] else [];
        var ts: seq<string> := if rank(t[n]) == k then [t[n]] else [];
        assert WithRank(u + [t[n]], k, rank) == w + xs + ts;
        assert WithRank(t, k, rank) == w + ts;
        assert xs == [] || ts == [];
        assert w + xs + ts == w + ts + xs;
      }
    }
  }

  /** Stability: for every rank, the keys of that rank leave the sort in the
      order they entered it. */
  lemma {:induction false} SortByStable(s: seq<string>, k: nat, rank: string -> nat)
    ensures WithRank(SortBy(s, rank), k, rank) == WithRank(s, k, rank)
    decreases |s|
  {
    if s != [] {
      var n := |s| - 1;
      var t := SortBy(s[..n], rank);
      assert SortBy(s, rank) == Insert(t, s[n], rank);
      assert WithRank(s, k, rank) == WithRank(s[..n], k, rank) + (if rank(s[n]) == k then [s[n]] else []);
      SortByStable(s[..n], k, rank);
      InsertWithRank(t, s[n], k, rank);
    }
  }

  lemma {:induction false} DistinctCount(s: seq<string>, x: string)
    requires Distinct(s)
    ensures multiset(s)[x] <= 1
    decreases |s|
  {
    if s != [] {
      assert s == [s[0]] + s[1..];
      DistinctCount(s[1..], x);
      if s[0] == x {
        assert x !in s[1..];
      }
    }
  }

  /** A permutation of distinct keys has distinct keys. */
  lemma PermutationDistinct(a: seq<string>, b: seq<string>)
    requires multiset(a) == multiset(b)
    requires Distinct(a)
    ensures Distinct(b)
  {
    forall i, j | 0 <= i < j < |b|
      ensures b[i] != b[j]
    {
      if b[i] == b[j] {
        assert b == b[..j] + b[j..];
        assert b[i] in b[..j];
        assert b[j] in b[j..];
        assert multiset(b)[b[i]] == multiset(b[..j])[b[i]] + multiset(b[j..])[b[i]];
        DistinctCount(a, b[i]);
      }
    }
  }

  /** A rank that tells apart the keys ranked below `sentinel`. */
  ghost predicate SeparatesBelow(rank: string -> nat, sentinel: nat) {
    forall x, y :: rank(x) == rank(y) < sentinel ==> x == y
  }

  /** In a rank-sorted sequence of distinct keys, keys below the sentinel
      come in strictly increasing rank. */
  lemma StrictBelowSentinel(r: seq<string>, rank: string -> nat, sentinel: nat)
    requires Distinct(r) && RankSorted(r, rank) && SeparatesBelow(rank, sentinel)
    ensures forall i, j :: 0 <= i < j < |r| && rank(r[j]) < sentinel ==> rank(r[i]) < rank(r[j])
  {
    forall i, j | 0 <= i < j < |r| && rank(r[j]) < sentinel
      ensures rank(r[i]) < rank(r[j])
    {
      assert r[i] != r[j];
    }
  }

  /** In a rank-sorted sequence, a key at the sentinel comes after every key
      below it. */
  lemma SentinelLast(r: seq<string>, rank: string -> nat, sentinel: nat)
    requires RankSorted(r, rank)
    ensures forall i, j :: 0 <= i < |r| && 0 <= j < |r| &&
              rank(r[i]) == sentinel && rank(r[j]) < sentinel
              ==> j < i
  {
  }

  /** The key order the engine produces from distinct keys: the same keys,
      each once; ranks non-decreasing; keys below the sentinel in strictly
      increasing rank; every key at the sentinel after every key below it;
      and the keys at the sentinel in their input order. */
  ghost predicate KeyOrder(s: seq<string>, r: seq<string>, rank: string -> nat, sentinel: nat) {
    && multiset(r) == multiset(s)
    && Distinct(r)
    && RankSorted(r, rank)
    && (forall i, j :: 0 <= i < j < |r| && rank(r[j]) < sentinel ==> rank(r[i]) < rank(r[j]))
    && (forall i, j :: 0 <= i < |r| && 0 <= j < |r| &&
          rank(r[i]) == sentinel && rank(r[j]) < sentinel
          ==> j < i)
    && WithRank(r, sentinel, rank) == WithRank(s, sentinel, rank)
  }

  /** A stable rank sort of distinct keys produces the key order, for any
      rank that tells apart the keys below the sentinel. */
  lemma SortedKeyOrderBy(s: seq<string>, rank: string -> nat, sentinel: nat)
    requires Distinct(s)
    requires SeparatesBelow(rank, sentinel)
    ensures KeyOrder(s, SortBy(s, rank), rank, sentinel)
  {
    var r := SortBy(s, rank);
    SortByPermutes(s, rank);
    SortBySorted(s, rank);
    PermutationDistinct(s, r);
    SortByStable(s, sentinel, rank);
    StrictBelowSentinel(r, rank, sentinel);
    SentinelLast(r, rank, sentinel);
  }

  /** Keys in strictly increasing rank. */
  predicate StrictlyRanked(r: seq<string>, rank: string -> nat) {
    forall i, j :: 0 <= i < j < |r| ==> rank(r[i]) < rank(r[j])
  }

  /** The first key of a strictly ranked sequence has the least rank. */
  lemma FirstIsLeast(r: seq<string>, rank: string -> nat, x: string)
    requires StrictlyRanked(r, rank)
    requires x in r
    ensures rank(r[0]) <= rank(x)
    ensures x != r[0] ==> rank(r[0]) < rank(x)
  {
  }

  lemma StrictlyRankedTail(r: seq<string>, rank: string -> nat)
    requires r != [] && StrictlyRanked(r, rank)
    ensures StrictlyRanked(r[1..], rank)
  {
    forall i, j | 0 <= i < j < |r| - 1
      ensures rank(r[1..][i]) < rank(r[1..][j])
    {
      assert r[1..][i] == r[i + 1] && r[1..][j] == r[j + 1];
    }
  }

  /** Two strictly ranked sequences with the same elements start alike. */
  lemma SameFirst(r1: seq<string>, r2: seq<string>, rank: string -> nat)
    requires r1 != [] && r2 != []
    requires multiset(r1) == multiset(r2)
    requires StrictlyRanked(r1, rank) && StrictlyRanked(r2, rank)
    ensures r1[0] == r2[0]
  {
    assert r1[0] in multiset(r2) && r2[0] in multiset(r1);
    FirstIsLeast(r1, rank, r2[0]);
    FirstIsLeast(r2, rank, r1[0]);
  }

  /** Removing equal first elements keeps two permutations permutations. */
  lemma TailsPermutation(r1: seq<string>, r2: seq<string>)
    requires r1 != [] && r2 != [] && r1[0] == r2[0]
    requires multiset(r1) == multiset(r2)
    ensures multiset(r1[1..]) == multiset(r2[1..])
  {
    assert r1 == [r1[0]] + r1[1..] && r2 == [r2[0]] + r2[1..];
    assert multiset(r1[1..]) == multiset(r1) - multiset{r1[0]};
    assert multiset(r2[1..]) == multiset(r2) - multiset{r2[0]};
  }

  /** Two strictly ranked sequences with the same elements are equal. */
  lemma {:induction false} StrictlyRankedUnique(r1: seq<string>, r2: seq<string>, rank: string -> nat)
    requires multiset(r1) == multiset(r2)
    requires StrictlyRanked(r1, rank) && StrictlyRanked(r2, rank)
    ensures r1 == r2
    decreases |r1|
  {
    assert |r1| == |multiset(r1)| == |r2|;
    if r1 != [] {
      SameFirst(r1, r2, rank);
      TailsPermutation(r1, r2);
      StrictlyRankedTail(r1, rank);
      StrictlyRankedTail(r2, rank);
      StrictlyRankedUnique(r1[1..], r2[1..], rank);
      assert r1 == [r1[0]] + r1[1..] && r2 == [r2[0]] + r2[1..];
    }
  }

  /** A strictly ranked sequence holds no key twice. */
  lemma StrictlyRankedDistinct(t: seq<string>, rank: string -> nat)
    requires StrictlyRanked(t, rank)
    ensures Distinct(t)
  {
    forall i, j | 0 <= i < j < |t|
      ensures t[i] != t[j]
    {
      assert rank(t[i]) < rank(t[j]);
    }
  }

  /** The sort has one possible result whenever the keys can be put in
      strictly increasing rank: that arrangement. */
  lemma SortedIsUniqueBy(s: seq<string>, t: seq<string>, rank: string -> nat)
    requires multiset(t) == multiset(s)
    requires StrictlyRanked(t, rank)
    ensures SortBy(s, rank) == t
  {
    var r := SortBy(s, rank);
    SortByPermutes(s, rank);
    SortBySorted(s, rank);
    StrictlyRankedDistinct(t, rank);
    PermutationDistinct(t, r);
    forall i, j | 0 <= i < j < |r|
      ensures rank(r[i]) < rank(r[j])
    {
      assert r[i] in multiset(t) && r[j] in multiset(t);
      var a :| 0 <= a < |t| && t[a] == r[i];
      var b :| 0 <= b < |t| && t[b] == r[j];
      assert a != b;
    }
    StrictlyRankedUnique(r, t, rank);
  }

  /** In the key order, keys that all rank below the sentinel come in
      strictly increasing rank. */
  lemma KeyOrderStrict(s: seq<string>, r: seq<string>, rank: string -> nat, sentinel: nat)
    requires KeyOrder(s, r, rank, sentinel)
    requires forall i :: 0 <= i < |s| ==> rank(s[i]) < sentinel
    ensures StrictlyRanked(r, rank)
  {
    forall i, j | 0 <= i < j < |r|
      ensures rank(r[i]) < rank(r[j])
    {
      assert r[j] in multiset(s);
    }
  }

  /** Two arrangements of the same keys sort alike when the sort of one is
      strictly ranked. */
  lemma SameSortBy(s1: seq<string>, s2: seq<string>, rank: string -> nat)
    requires multiset(s1) == multiset(s2)
    requires StrictlyRanked(SortBy(s1, rank), rank)
    ensures SortBy(s1, rank) == SortBy(s2, rank)
  {
    SortByPermutes(s1, rank);
    SortedIsUniqueBy(s2, SortBy(s1, rank), rank);
  }

  /** The names of `table` that are among `keys`, in table order. */
  function Present(table: seq<string>, keys: seq<string>): (r: seq<string>)
    ensures |r| <= |table|
  {
    if table == [] then []
    else (if table[0] in keys then [table[0]] else []) + Present(table[1..], keys)
  }

  /** A name is present exactly when it is in both the table and the keys. */
  lemma {:induction false} PresentMembers(table: seq<string>, keys: seq<string>, x: string)
    ensures x in Present(table, keys) <==> x in table && x in keys
  {
    if table != [] {
      PresentMembers(table[1..], keys, x);
      assert table == [table[0]] + table[1..];
    }
  }

  /** Leaving names out of a strictly ranked table keeps it strictly ranked. */
  lemma {:induction false} PresentStrictlyRanked(table: seq<string>, keys: seq<string>, rank: string -> nat)
    requires StrictlyRanked(table, rank)
    ensures StrictlyRanked(Present(table, keys), rank)
  {
    if table != [] {
      StrictlyRankedTail(table, rank);
      PresentStrictlyRanked(table[1..], keys, rank);
      var rest := Present(table[1..], keys);
      forall y | y in rest
        ensures rank(table[0]) < rank(y)
      {
        PresentMembers(table[1..], keys, y);
        var j :| 0 <= j < |table[1..]| && table[1..][j] == y;
        assert table[j + 1] == y;
      }
    }
  }

  /** Distinct sequences with the same elements are permutations. */
  lemma SameElementsPermutation(a: seq<string>, b: seq<string>)
    requires Distinct(a) && Distinct(b)
    requires forall x :: x in a <==> x in b
    ensures multiset(a) == multiset(b)
  {
    forall x
      ensures multiset(a)[x] == multiset(b)[x]
    {
      DistinctCount(a, x);
      DistinctCount(b, x);
      if x in a {
        assert x in multiset(a) && x in multiset(b);
      } else {
        assert x !in multiset(a) && x !in multiset(b);
      }
    }
  }

  /** Distinct keys that all rank below the sentinel, under a rank that
      tells them apart, sort into strictly increasing rank. */
  lemma SortStrictlyRanked(s: seq<string>, rank: string -> nat, sentinel: nat)
    requires Distinct(s)
    requires SeparatesBelow(rank, sentinel)
    requires forall i :: 0 <= i < |s| ==> rank(s[i]) < sentinel
    ensures StrictlyRanked(SortBy(s, rank), rank)
  {
    SortedKeyOrderBy(s, rank, sentinel);
    KeyOrderStrict(s, SortBy(s, rank), rank, sentinel);
  }

  /** Distinct keys, all names of a strictly ranked table, sort into the
      table with the absent names left out. */
  lemma PresentIsSorted(table: seq<string>, s: seq<string>, rank: string -> nat)
    requires StrictlyRanked(table, rank)
    requires Distinct(s)
    requires forall i :: 0 <= i < |s| ==> s[i] in table
    ensures SortBy(s, rank) == Present(table, s)
  {
    var t := Present(table, s);
    PresentStrictlyRanked(table, s, rank);
    StrictlyRankedDistinct(t, rank);
    forall x
      ensures x in t <==> x in s
    {
      PresentMembers(table, s, x);
    }
    SameElementsPermutation(t, s);
    SortedIsUniqueBy(s, t, rank);
  }

  /** Which names of a table are present depends only on which keys there
      are, not on their order or on how they are given. */
  lemma {:induction false} PresentSameElements(table: seq<string>, a: seq<string>, b: seq<string>)
    requires forall x :: x in a <==> x in b
    ensures Present(table, a) == Present(table, b)
  {
    if table != [] {
      PresentSameElements(table[1..], a, b);
    }
  }

  /** Two arrangements of the same distinct keys, all names of a strictly
      ranked table, sort alike. */
  lemma SameSortByTable(table: seq<string>, s1: seq<string>, s2: seq<string>, rank: string -> nat)
    requires StrictlyRanked(table, rank)
    requires Distinct(s1) && Distinct(s2)
    requires forall x :: x in s1 <==> x in s2
    requires forall i :: 0 <= i < |s1| ==> s1[i] in table
    ensures SortBy(s1, rank) == SortBy(s2, rank)
  {
    forall i | 0 <= i < |s2|
      ensures s2[i] in table
    {
      assert s2[i] in s1;
    }
    PresentIsSorted(table, s1, rank);
    PresentIsSorted(table, s2, rank);
    PresentSameElements(table, s1, s2);
  }

  /** The table's rank tells apart the names of the table. */
  lemma RankOfSeparates()
    ensures SeparatesBelow(RankOf, Unranked)
  {
    forall x, y | RankOf(x) == RankOf(y) < Unranked
      ensures x == y
    {
      RankedKeysDiffer(x, y);
    }
  }

  /** The key order of a document under the table's ranks: keys of the
      table first, in table order, then every other key in the order it
      arrived in. */
  lemma SortedKeyOrder(s: seq<string>)
    requires Distinct(s)
    ensures KeyOrder(s, SortBy(s, RankOf), RankOf, Unranked)
  {
    RankOfSeparates();
    SortedKeyOrderBy(s, RankOf, Unranked);
  }

  /** Where `x` goes: after the prefix up to `j`, when every key from `j`
      on ranks above it and the key before `j` does not. */
  lemma {:induction false} InsertSplit(sorted: seq<string>, j: nat, x: string, rank: string -> nat)
    requires j <= |sorted|
    requires forall k :: j <= k < |sorted| ==> rank(sorted[k]) > rank(x)
    requires j == 0 || rank(sorted[j - 1]) <= rank(x)
    ensures Insert(sorted, x, rank) == sorted[..j] + [x] + sorted[j..]
    decreases |sorted|
  {
    if j == |sorted| {
      if sorted != [] {
        var n := |sorted| - 1;
        assert sorted == sorted[..n] + [sorted[n]];
      }
      assert sorted[..j] == sorted && sorted[j..] == [];
    } else {
      var n := |sorted| - 1;
      var prefix := sorted[..n];
      assert sorted == prefix + [sorted[n]];
      assert j == 0 || prefix[j - 1] == sorted[j - 1];
      InsertSplit(prefix, j, x, rank);
      assert prefix[..j] == sorted[..j];
      assert prefix[j..] + [sorted[n]] == sorted[j..];
    }
  }

  /** One step of the outer loop: the next input key is inserted. */
  lemma SortByStep(s: seq<string>, i: nat, rank: string -> nat)
    requires i < |s|
    ensures SortBy(s[..i + 1], rank) == Insert(SortBy(s[..i], rank), s[i], rank)
  {
    assert s[..i + 1][..i] == s[..i];
  }

  /** The array after the inner loop: the prefix up to `j`, then `x`, then
      the rest of the prefix shifted one place right. */
  lemma Placed(t: seq<string>, sorted: seq<string>, j: nat, x: string)
    requires j <= |sorted| < |t|
    requires forall k :: 0 <= k < j ==> t[k] == sorted[k]
    requires t[j] == x
    requires forall k :: j < k <= |sorted| ==> t[k] == sorted[k - 1]
    ensures t[..|sorted| + 1] == sorted[..j] + [x] + sorted[j..]
  {
    var inserted := sorted[..j] + [x] + sorted[j..];
    forall k | 0 <= k <= |sorted|
      ensures t[k] == inserted[k]
    {
      if k > j {
        assert inserted[k] == sorted[k - 1];
      }
    }
  }

  /** The inner loop of the key sort: every key of the sorted prefix
      `a[..i]` whose looked-up rank is above `rx`, the rank of the key `x`
      taken out of slot `i`, moves one place right, from the end of the
      prefix down; the loop stops at the first key that does not move and
      returns the slot left free. `rank` is the rank the map stands for. */
  method ShiftLarger(ranks: map<string, nat>, a: array<string>, i: nat, rx: nat,
                     ghost x: string, ghost sorted: seq<string>, ghost rank: string -> nat) returns (j: nat)
    requires forall name :: Lookup(ranks, name) == rank(name)
    requires i < a.Length && rx == rank(x)
    requires |sorted| == i && forall k :: 0 <= k < i ==> a[k] == sorted[k]
    modifies a
    ensures j <= i
    ensures forall k :: 0 <= k < j ==> a[k] == sorted[k]
    ensures forall k :: j < k <= i ==> a[k] == sorted[k - 1]
    ensures forall k :: i < k < a.Length ==> a[k] == old(a[k])
    ensures forall k :: j <= k < i ==> rank(sorted[k]) > rank(x)
    ensures j == 0 || rank(sorted[j - 1]) <= rank(x)
  {
    j := i;
    while j > 0 && Lookup(ranks, a[j - 1]) > rx
      invariant 0 <= j <= i
      invariant forall k :: 0 <= k < j ==> a[k] == sorted[k]
      invariant forall k :: j < k <= i ==> a[k] == sorted[k - 1]
      invariant forall k :: i < k < a.Length ==> a[k] == old(a[k])
      invariant forall k :: j <= k < i ==> rank(sorted[k]) > rank(x)
    {
      assert a[j - 1] == sorted[j - 1];
      a[j] := a[j - 1];
      j := j - 1;
    }
    assert j == 0 || a[j - 1] == sorted[j - 1];
  }

  /** One step of the key sort: the key at position `i` is inserted into
      the sorted prefix before it. */
  method InsertAt(ranks: map<string, nat>, a: array<string>, i: nat, ghost rank: string -> nat)
    requires forall name :: Lookup(ranks, name) == rank(name)
    requires i < a.Length
    modifies a
    ensures a[..i + 1] == Insert(old(a[..i]), old(a[i]), rank)
    ensures forall k :: i < k < a.Length ==> a[k] == old(a[k])
  {
    var x := a[i];
    var rx := Lookup(ranks, x);
    ghost var sorted := a[..i];
    var j := ShiftLarger(ranks, a, i, rx, x, sorted, rank);
    InsertSplit(sorted, j, x, rank);
    a[j] := x;
    Placed(a[..], sorted, j, x);
  }

  /** The key sort, in place on the key array: stable insertion sort with
      ranks read from a rank map through the lookup. */
  method SortKeysByRank(ranks: map<string, nat>, a: array<string>, ghost rank: string -> nat)
    requires forall name :: Lookup(ranks, name) == rank(name)
    modifies a
    ensures a[..] == SortBy(old(a[..]), rank)
  {
    ghost var input := a[..];
    var i := 0;
    while i < a.Length
      invariant 0 <= i <= a.Length
      invariant a[..i] == SortBy(input[..i], rank)
      invariant forall k :: i <= k < a.Length ==> a[k] == input[k]
    {
      InsertAt(ranks, a, i, rank);
      SortByStep(input, i, rank);
      i := i + 1;
    }
    assert a[..] == a[..a.Length] && input[..a.Length] == input;
  }
}
