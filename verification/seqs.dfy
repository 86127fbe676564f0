/** Sequence building blocks: Python list comprehensions with an `if`,
    pandas boolean-mask filters, `sorted(...)` (a stable sort), slicing and
    order-of-first-appearance de-duplication. */
module Seqs {

  // ---------------------------------------------------------------------
  // Filtering: `[x for x in s if p(x)]`, `df[mask]`

  function Filter<T>(s: seq<T>, p: T -> bool): (r: seq<T>)
    ensures |r| <= |s|
    ensures forall i :: 0 <= i < |r| ==> p(r[i])
  {
    if s == [] then []
    else if p(s[0]) then [s[0]] + Filter(s[1..], p)
    else Filter(s[1..], p)
  }

  /** `a` is `b` with some elements removed and the others kept in order. */
  predicate IsSubsequence<T(==)>(a: seq<T>, b: seq<T>)
    decreases |b|
  {
    a == [] ||
    (b != [] && ((a[0] == b[0] && IsSubsequence(a[1..], b[1..])) || IsSubsequence(a, b[1..])))
  }

  /** What a subsequence holds, the sequence holds. */
  lemma {:induction false} IsSubsequenceMember<T>(a: seq<T>, b: seq<T>, x: T)
    requires IsSubsequence(a, b) && x in a
    ensures x in b
    decreases |b|
  {
    if a[0] == b[0] && IsSubsequence(a[1..], b[1..]) {
      if x != a[0] {
        IsSubsequenceMember(a[1..], b[1..], x);
      }
    } else {
      IsSubsequenceMember(a, b[1..], x);
    }
  }

  /** An element survives the filter exactly when it is in the input and
      passes the predicate; survivors keep their relative order. */
  lemma {:induction false} FilterSpec<T>(s: seq<T>, p: T -> bool)
    ensures forall x :: x in Filter(s, p) <==> x in s && p(x)
    ensures IsSubsequence(Filter(s, p), s)
  {
    if s != [] {
      FilterSpec(s[1..], p);
    }
  }

  /** Two filters in a row are one filter by the conjunction. */
  lemma {:induction false} FilterFilter<T>(s: seq<T>, p: T -> bool, q: T -> bool, pq: T -> bool)
    requires forall x :: pq(x) == (p(x) && q(x))
    ensures Filter(Filter(s, p), q) == Filter(s, pq)
  {
    if s != [] {
      FilterFilter(s[1..], p, q, pq);
    }
  }

  /** Filtering by a predicate that holds everywhere on `s` changes nothing. */
  lemma {:induction false} FilterAll<T>(s: seq<T>, p: T -> bool)
    requires forall x :: x in s ==> p(x)
    ensures Filter(s, p) == s
  {
    if s != [] {
      FilterAll(s[1..], p);
    }
  }

  /** Filtering distributes over concatenation. */
  lemma {:induction false} FilterAppend<T>(a: seq<T>, b: seq<T>, p: T -> bool)
    ensures Filter(a + b, p) == Filter(a, p) + Filter(b, p)
  {
    if a == [] {
      assert a + b == b;
    } else {
      assert (a + b)[0] == a[0] && (a + b)[1..] == a[1..] + b;
      FilterAppend(a[1..], b, p);
    }
  }

  /** Filtering one more element keeps it exactly when it passes. */
  lemma FilterSnoc<T>(s: seq<T>, x: T, p: T -> bool)
    ensures Filter(s + [x], p) == Filter(s, p) + (if p(x) then [x] else [])
  {
    FilterAppend(s, [x], p);
    assert [x][1..] == [];
  }

  /** Filtering by a predicate that holds nowhere on `s` leaves nothing. */
  lemma {:induction false} FilterNone<T>(s: seq<T>, p: T -> bool)
    requires forall x :: x in s ==> !p(x)
    ensures Filter(s, p) == []
  {
    if s != [] {
      FilterNone(s[1..], p);
    }
  }

  /** Filtering a prefix of `s` gives a prefix of the filtered `s`. */
  lemma {:induction false} FilterPrefix<T>(s: seq<T>, m: nat, p: T -> bool)
    requires m <= |s|
    ensures Filter(s[..m], p) <= Filter(s, p)
  {
    if m > 0 {
      FilterPrefix(s[1..], m - 1, p);
      assert s[..m][1..] == s[1..][..m - 1];
    } else {
      assert s[..m] == [];
    }
  }

  /** The position of the first element that satisfies `p`, or `|s|` when
      none does. */
  function FirstIndex<T>(s: seq<T>, p: T -> bool): (r: nat)
    ensures r <= |s|
    ensures r < |s| ==> p(s[r])
    ensures forall j :: 0 <= j < r ==> !p(s[j])
  {
    if s == [] then 0
    else if p(s[0]) then 0
    else 1 + FirstIndex(s[1..], p)
  }

  /** The first index where `p` holds is the one before which it never holds. */
  lemma FirstIndexAt<T>(s: seq<T>, p: T -> bool, j: int)
    requires 0 <= j < |s| && p(s[j])
    requires forall m :: 0 <= m < j ==> !p(s[m])
    ensures FirstIndex(s, p) == j
  {
  }

  /** Scanning past position `i`: the first index where `p` holds is `i`
      when `p(s[i])`, and lies further on otherwise. */
  lemma FirstIndexStep<T>(s: seq<T>, p: T -> bool, i: int)
    requires 0 <= i < |s| && FirstIndex(s, p) >= i
    ensures p(s[i]) ==> FirstIndex(s, p) == i
    ensures !p(s[i]) ==> FirstIndex(s, p) > i
  {
  }

  /** `len([x for x in s if p(x)])`. */
  function Count<T>(s: seq<T>, p: T -> bool): nat {
    |Filter(s, p)|
  }

  // ---------------------------------------------------------------------
  // Slicing and de-duplication

  /** Python `s[:n]`. */
  function Take<T>(s: seq<T>, n: nat): (r: seq<T>)
    ensures |r| == if n < |s| then n else |s|
    ensures r == s[..|r|]
  {
    if n < |s| then s[..n] else s
  }

  /** A prefix one longer is the prefix and the next element. */
  lemma PrefixSnoc<T>(s: seq<T>, i: nat)
    requires i < |s|
    ensures s[..i + 1] == s[..i] + [s[i]]
  {
  }

  /** A non-empty sequence is its initial part and then its last element. */
  lemma InitLast<T>(s: seq<T>)
    requires s != []
    ensures s == s[..|s| - 1] + [s[|s| - 1]]
  {
  }

  /** All but the last element of `s + [x]` is `s`. */
  lemma InitOfSnoc<T>(s: seq<T>, x: T)
    ensures (s + [x])[..|s|] == s
  {
  }

  /** Dropping one more element of a suffix. */
  lemma DropOne<T>(s: seq<T>, i: nat)
    requires i < |s|
    ensures s[i..][1..] == s[i + 1..]
  {
  }

  /** Every suffix of `s` but `s` itself is a suffix of its tail. */
  lemma TailSuffixes<T>(s: seq<T>)
    requires s != []
    ensures forall j :: 1 <= j <= |s| ==> s[j..] == s[1..][j - 1..]
  {
  }

  /** A slice of the tail is the slice one position further on. */
  lemma TailSlice<T>(s: seq<T>, i: nat, n: nat)
    requires 1 + i + n <= |s|
    ensures s[1..][i..i + n] == s[i + 1..i + 1 + n]
  {
  }

  /** Dropping the head of a prefix is a prefix of the tail. */
  lemma PrefixTail<T>(s: seq<T>, i: nat)
    requires 0 < i <= |s|
    ensures s[..i][1..] == s[1..][..i - 1]
  {
  }

  /** The tail of `s + [x]` is the tail of `s` and then `x`. */
  lemma TailSnoc<T>(s: seq<T>, x: T)
    requires s != []
    ensures (s + [x])[1..] == s[1..] + [x]
  {
  }

  predicate NoDuplicates<T(==)>(s: seq<T>) {
    forall i, j :: 0 <= i < j < |s| ==> s[i] != s[j]
  }

  /** The distinct elements of `s` in order of first appearance: the key
      order of a Python dict filled from `s`. */
  function Distinct<T(==,!new)>(s: seq<T>): (r: seq<T>)
    ensures NoDuplicates(r)
    ensures forall x :: x in r <==> x in s
  {
    if s == [] then []
    else
      var d := Distinct(s[..|s| - 1]);
      assert forall x :: x in s <==> x in s[..|s| - 1] || x == s[|s| - 1];
      if s[|s| - 1] in d then d else d + [s[|s| - 1]]
  }

  // ---------------------------------------------------------------------
  // Smallest and largest element: `min(s)`, `max(s)`

  /** `min(s)` of a non-empty list. */
  function MinOf(s: seq<int>): (m: int)
    requires s != []
    ensures m in s && forall x :: x in s ==> m <= x
  {
    if |s| == 1 then s[0]
    else
      var m := MinOf(s[1..]);
      assert forall x :: x in s ==> x == s[0] || x in s[1..];
      if s[0] <= m then s[0] else m
  }

  /** `max(s)` of a non-empty list. */
  function MaxOf(s: seq<int>): (m: int)
    requires s != []
    ensures m in s && forall x :: x in s ==> x <= m
  {
    if |s| == 1 then s[0]
    else
      var m := MaxOf(s[1..]);
      assert forall x :: x in s ==> x == s[0] || x in s[1..];
      if s[0] >= m then s[0] else m
  }

  /** A duplicate-free sequence holds each element at most once. */
  lemma {:induction false} NoDuplicatesMultiplicity<T>(s: seq<T>, x: T)
    requires NoDuplicates(s)
    ensures multiset(s)[x] <= 1
  {
    if s != [] {
      assert s == [s[0]] + s[1..];
      NoDuplicatesMultiplicity(s[1..], x);
      if x == s[0] {
        assert x !in s[1..];
      }
    }
  }

  /** Appending a new element keeps a sequence free of duplicates. */
  lemma NoDuplicatesSnoc<T>(s: seq<T>, x: T)
    requires NoDuplicates(s) && x !in s
    ensures NoDuplicates(s + [x])
  {
    var t := s + [x];
    forall i, j | 0 <= i < j < |t| ensures t[i] != t[j] {
      if j == |s| {
        assert t[i] == s[i];
      }
    }
  }

  /** A rearrangement of a duplicate-free sequence is duplicate-free. */
  lemma NoDuplicatesPermutation<T>(a: seq<T>, b: seq<T>)
    requires NoDuplicates(a) && multiset(a) == multiset(b)
    ensures NoDuplicates(b)
  {
    forall i, j | 0 <= i < j < |b| ensures b[i] != b[j] {
      if b[i] == b[j] {
        assert b == b[..j] + b[j..];
        assert b[i] in b[..j] && b[j] in b[j..];
        assert multiset(b)[b[j]] >= 2;
        NoDuplicatesMultiplicity(a, b[j]);
      }
    }
  }

  /** Filtering a duplicate-free sequence leaves it duplicate-free. */
  lemma {:induction false} FilterNoDuplicates<T>(s: seq<T>, p: T -> bool)
    requires NoDuplicates(s)
    ensures NoDuplicates(Filter(s, p))
  {
    if s != [] {
      FilterNoDuplicates(s[1..], p);
      FilterSpec(s[1..], p);
      assert s[0] !in s[1..];
    }
  }

  /** Each element passes the filter or its negation, never both. */
  lemma {:induction false} FilterComplement<T>(s: seq<T>, p: T -> bool, q: T -> bool)
    requires forall x :: q(x) == !p(x)
    ensures |Filter(s, p)| + |Filter(s, q)| == |s|
  {
    if s != [] {
      FilterComplement(s[1..], p, q);
    }
  }

  /** Filters by predicates that agree on every element give the same result. */
  lemma {:induction false} FilterSame<T>(s: seq<T>, p: T -> bool, q: T -> bool)
    requires forall x :: x in s ==> p(x) == q(x)
    ensures Filter(s, p) == Filter(s, q)
  {
    if s != [] {
      FilterSame(s[1..], p, q);
    }
  }

  // ---------------------------------------------------------------------
  // Stable insertion sort: Python's `sorted(s, key=...)`

  /** `le` orders everything (ties allowed) and is transitive. */
  ghost predicate TotalPreorder<T(!new)>(le: (T, T) -> bool) {
    && (forall a, b :: le(a, b) || le(b, a))
    && (forall a, b, c :: le(a, b) && le(b, c) ==> le(a, c))
  }

  ghost predicate SortedBy<T>(s: seq<T>, le: (T, T) -> bool) {
    forall i, j :: 0 <= i < j < |s| ==> le(s[i], s[j])
  }

  /** Put `x` in front of the first element it may precede. */
  function Insert<T>(x: T, s: seq<T>, le: (T, T) -> bool): (r: seq<T>)
    ensures |r| == |s| + 1
    ensures multiset(r) == multiset(s) + multiset{x}
  {
    if s == [] || le(x, s[0]) then [x] + s
    else
      assert s == [s[0]] + s[1..];
      [s[0]] + Insert(x, s[1..], le)
  }

  function SortBy<T>(s: seq<T>, le: (T, T) -> bool): (r: seq<T>)
    ensures |r| == |s|
    ensures multiset(r) == multiset(s)
  {
    if s == [] then []
    else
      assert s == [s[0]] + s[1..];
      Insert(s[0], SortBy(s[1..], le), le)
  }

  lemma {:induction false} InsertSorted<T(!new)>(x: T, s: seq<T>, le: (T, T) -> bool)
    requires TotalPreorder(le) && SortedBy(s, le)
    ensures SortedBy(Insert(x, s, le), le)
  {
    if s != [] && !le(x, s[0]) {
      InsertSorted(x, s[1..], le);
      var r := Insert(x, s, le);
      var t := Insert(x, s[1..], le);
      assert r == [s[0]] + t;
      forall j | 1 <= j < |r| ensures le(s[0], r[j]) {
        assert r[j] in multiset(t);
        assert r[j] in multiset(s[1..]) + multiset{x};
        if r[j] != x {
          assert r[j] in s[1..];
          var k :| 0 <= k < |s[1..]| && s[1..][k] == r[j];
          assert s[k + 1] == r[j];
        }
      }
    }
  }

  /** `sorted` yields an ordered permutation of its input. */
  lemma {:induction false} SortBySorted<T(!new)>(s: seq<T>, le: (T, T) -> bool)
    requires TotalPreorder(le)
    ensures SortedBy(SortBy(s, le), le)
    ensures multiset(SortBy(s, le)) == multiset(s)
  {
    if s != [] {
      SortBySorted(s[1..], le);
      InsertSorted(s[0], SortBy(s[1..], le), le);
    }
  }

  /** The elements of `s` that tie with `t` under `le`, in their order in `s`. */
  function TiesWith<T>(s: seq<T>, t: T, le: (T, T) -> bool): seq<T> {
    if s == [] then []
    else if le(s[0], t) && le(t, s[0]) then [s[0]] + TiesWith(s[1..], t, le)
    else TiesWith(s[1..], t, le)
  }

  lemma {:induction false} InsertTies<T(!new)>(x: T, s: seq<T>, t: T, le: (T, T) -> bool)
    requires TotalPreorder(le)
    ensures TiesWith(Insert(x, s, le), t, le) ==
      (if le(x, t) && le(t, x) then [x] else []) + TiesWith(s, t, le)
  {
    if s != [] && !le(x, s[0]) {
      InsertTies(x, s[1..], t, le);
      assert Insert(x, s, le)[1..] == Insert(x, s[1..], le);
      if le(x, t) && le(t, x) {
        // s[0] is strictly after x, so it cannot tie with t
        assert !(le(s[0], t) && le(t, s[0]));
      }
    }
  }

  /** Stability: elements that tie keep the order they had in the input. */
  lemma {:induction false} SortByStable<T(!new)>(s: seq<T>, t: T, le: (T, T) -> bool)
    requires TotalPreorder(le)
    ensures TiesWith(SortBy(s, le), t, le) == TiesWith(s, t, le)
  {
    if s != [] {
      SortByStable(s[1..], t, le);
      InsertTies(s[0], SortBy(s[1..], le), t, le);
    }
  }

  // ---------------------------------------------------------------------
  // Mapping: `[f(x) for x in s]`

  function Map<T, U>(s: seq<T>, f: T -> U): (r: seq<U>)
    ensures |r| == |s|
    ensures forall i :: 0 <= i < |s| ==> r[i] == f(s[i])
  {
    seq(|s|, i requires 0 <= i < |s| => f(s[i]))
  }

  lemma MapSnoc<T, U>(s: seq<T>, x: T, f: T -> U)
    ensures Map(s + [x], f) == Map(s, f) + [f(x)]
  {
  }

  // ---------------------------------------------------------------------
  // Flattening: `for x in s: out.extend(f(x))`

  /** The concatenation of `f(x)` over `s`, in order. */
  function FlatMap<T, U>(s: seq<T>, f: T -> seq<U>): seq<U> {
    if s == [] then [] else FlatMap(s[..|s| - 1], f) + f(s[|s| - 1])
  }

  lemma FlatMapSnoc<T, U>(s: seq<T>, x: T, f: T -> seq<U>)
    ensures FlatMap(s + [x], f) == FlatMap(s, f) + f(x)
  {
    assert (s + [x])[..|s|] == s;
  }

  lemma FlatMapPair<T, U>(a: T, b: T, f: T -> seq<U>)
    ensures FlatMap([a, b], f) == f(a) + f(b)
  {
    FlatMapSnoc([a], b, f);
    FlatMapSnoc([], a, f);
    assert [a] + [b] == [a, b];
    assert [] + [a] == [a];
  }

  /** Flattening one-or-none pieces yields one element per `x` for which
      the piece is not empty. */
  lemma {:induction false} FlatMapOptionalLength<T, U>(s: seq<T>, f: T -> seq<U>, p: T -> bool)
    requires forall x :: |f(x)| == if p(x) then 1 else 0
    ensures |FlatMap(s, f)| == Count(s, p)
  {
    if s != [] {
      var init, last := s[..|s| - 1], s[|s| - 1];
      FlatMapOptionalLength(init, f, p);
      assert s == init + [last];
      FilterAppend(init, [last], p);
    }
  }

  /** Every element of the flattening comes from the piece of some `x`. */
  lemma {:induction false} FlatMapMember<T, U>(s: seq<T>, f: T -> seq<U>, y: U)
    requires y in FlatMap(s, f)
    ensures exists i :: 0 <= i < |s| && y in f(s[i])
  {
    var init, last := s[..|s| - 1], s[|s| - 1];
    if y !in f(last) {
      FlatMapMember(init, f, y);
      var i :| 0 <= i < |init| && y in f(init[i]);
      assert s[i] == init[i];
    }
  }

  /** Every element of every piece is in the flattening. */
  lemma {:induction false} FlatMapIncludes<T, U>(s: seq<T>, f: T -> seq<U>, i: nat, y: U)
    requires i < |s| && y in f(s[i])
    ensures y in FlatMap(s, f)
  {
    var init := s[..|s| - 1];
    if i < |s| - 1 {
      assert init[i] == s[i];
      FlatMapIncludes(init, f, i, y);
    }
  }

  /** Sorting what is already in order changes nothing. */
  lemma {:induction false} SortByOfSorted<T(!new)>(s: seq<T>, le: (T, T) -> bool)
    requires SortedBy(s, le)
    ensures SortBy(s, le) == s
  {
    if s != [] {
      SortByOfSorted(s[1..], le);
      assert s == [s[0]] + s[1..];
    }
  }

  // ---------------------------------------------------------------------
  // Dictionaries kept as their items in order

  /** `d.get(k, default)` for the dict whose items are `table`. */
  function Lookup<K(==), V>(table: seq<(K, V)>, k: K, default: V): V {
    if table == [] then default
    else if table[0].0 == k then table[0].1
    else Lookup(table[1..], k, default)
  }

  /** A key that is not in the table gets the default. */
  lemma {:induction false} LookupAbsent<K, V>(table: seq<(K, V)>, k: K, default: V)
    requires forall i :: 0 <= i < |table| ==> table[i].0 != k
    ensures Lookup(table, k, default) == default
  {
    if table != [] {
      LookupAbsent(table[1..], k, default);
    }
  }

  /** A key gets the value stored under its first occurrence. */
  lemma {:induction false} LookupFirst<K, V>(table: seq<(K, V)>, k: K, default: V, i: nat)
    requires i < |table| && table[i].0 == k
    requires forall j :: 0 <= j < i ==> table[j].0 != k
    ensures Lookup(table, k, default) == table[i].1
  {
    if i > 0 {
      assert table[0].0 != k;
      LookupFirst(table[1..], k, default, i - 1);
    }
  }
}
