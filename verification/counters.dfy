/** Python counting dictionaries (`defaultdict(int)` and `Counter`) as
    association lists: keys in insertion order, one count per key. */
module Counters {
  import opened Seqs

  type Counter<K> = seq<(K, nat)>

  function Keys<K>(c: Counter<K>): (r: seq<K>)
    ensures |r| == |c|
    ensures forall i :: 0 <= i < |c| ==> r[i] == c[i].0
  {
    if c == [] then [] else [c[0].0] + Keys(c[1..])
  }

  /** `c[k]` of a defaultdict (0 when absent). */
  function CountOf<K(==)>(c: Counter<K>, k: K): nat {
    if c == [] then 0 else (if c[0].0 == k then c[0].1 else 0) + CountOf(c[1..], k)
  }

  /** `sum(c.values())`. */
  function Total<K>(c: Counter<K>): nat {
    if c == [] then 0 else c[0].1 + Total(c[1..])
  }

  /** `c[k] += n`: bump the entry for `k`, or append it when it is new. */
  function Add<K(==)>(c: Counter<K>, k: K, n: nat): Counter<K> {
    if c == [] then [(k, n)]
    else if c[0].0 == k then [(k, c[0].1 + n)] + c[1..]
    else [c[0]] + Add(c[1..], k, n)
  }

  /** `Counter(xs)`: every element counted, keys in order of first appearance. */
  function Tally<K(==)>(xs: seq<K>): Counter<K> {
    if xs == [] then [] else Add(Tally(xs[..|xs| - 1]), xs[|xs| - 1], 1)
  }

  /** Counting one more element is one `+= 1`. */
  lemma TallySnoc<K>(xs: seq<K>, x: K)
    ensures Tally(xs + [x]) == Add(Tally(xs), x, 1)
  {
    assert (xs + [x])[..|xs|] == xs;
  }

  /** `c.update(xs)`: one `+= 1` per element of `xs`, in order. */
  function AddAll<K(==)>(c: Counter<K>, xs: seq<K>): Counter<K> {
    if xs == [] then c else Add(AddAll(c, xs[..|xs| - 1]), xs[|xs| - 1], 1)
  }

  /** Counting `xs` and then `ys` is counting `xs + ys`. */
  lemma {:induction false} TallyAppend<K>(xs: seq<K>, ys: seq<K>)
    ensures AddAll(Tally(xs), ys) == Tally(xs + ys)
  {
    if ys == [] {
      assert xs + ys == xs;
    } else {
      var init, last := ys[..|ys| - 1], ys[|ys| - 1];
      TallyAppend(xs, init);
      TallySnoc(xs + init, last);
      assert xs + init + [last] == xs + ys;
    }
  }

  /** The total of a counter with one more entry. */
  lemma {:induction false} TotalSnoc<K>(c: Counter<K>, x: (K, nat))
    ensures Total(c + [x]) == Total(c) + x.1
  {
    if c != [] {
      TotalSnoc(c[1..], x);
      assert (c + [x])[1..] == c[1..] + [x];
    }
  }

  /** Adding `n` at `k` raises the count of `k` by `n` and no other count. */
  lemma {:induction false} AddCounts<K>(c: Counter<K>, k: K, n: nat)
    ensures forall j :: CountOf(Add(c, k, n), j) == CountOf(c, j) + (if j == k then n else 0)
  {
    if c != [] && c[0].0 != k {
      AddCounts(c[1..], k, n);
      assert Add(c, k, n)[1..] == Add(c[1..], k, n);
    } else if c != [] {
      assert Add(c, k, n)[1..] == c[1..];
    }
  }

  /** Adding `n` raises the total by `n`. */
  lemma {:induction false} AddTotal<K>(c: Counter<K>, k: K, n: nat)
    ensures Total(Add(c, k, n)) == Total(c) + n
  {
    if c != [] && c[0].0 != k {
      AddTotal(c[1..], k, n);
      assert Add(c, k, n)[1..] == Add(c[1..], k, n);
    } else if c != [] {
      assert Add(c, k, n)[1..] == c[1..];
    }
  }

  /** The keys of a counter with one more entry in front. */
  lemma KeysCons<K>(x: (K, nat), c: Counter<K>)
    ensures Keys([x] + c) == [x.0] + Keys(c)
  {
    assert ([x] + c)[1..] == c;
  }

  /** The keys are unchanged unless `k` is new, which then comes last. */
  lemma {:induction false} AddKeys<K>(c: Counter<K>, k: K, n: nat)
    ensures Keys(Add(c, k, n)) == if k in Keys(c) then Keys(c) else Keys(c) + [k]
  {
    if c != [] {
      var rest := Keys(c[1..]);
      KeysCons(c[0], c[1..]);
      assert c == [c[0]] + c[1..];
      assert Keys(c) == [c[0].0] + rest;
      if c[0].0 == k {
        KeysCons((k, c[0].1 + n), c[1..]);
      } else {
        AddKeys(c[1..], k, n);
        KeysCons(c[0], Add(c[1..], k, n));
        assert k in Keys(c) <==> k in rest;
        if k !in rest {
          assert [c[0].0] + (rest + [k]) == Keys(c) + [k];
        }
      }
    }
  }

  /** A positive addition keeps every count positive. */
  lemma {:induction false} AddPositive<K>(c: Counter<K>, k: K, n: nat)
    requires forall i :: 0 <= i < |c| ==> c[i].1 > 0
    requires n > 0
    ensures forall i :: 0 <= i < |Add(c, k, n)| ==> Add(c, k, n)[i].1 > 0
  {
    if c != [] && c[0].0 != k {
      AddPositive(c[1..], k, n);
      assert Add(c, k, n)[1..] == Add(c[1..], k, n);
    }
  }

  /** Adding `n` at `k` raises the count of `k` by `n` and no other count,
      and the keys are unchanged unless `k` is new, which then comes last. */
  lemma AddSpec<K>(c: Counter<K>, k: K, n: nat)
    ensures forall j :: CountOf(Add(c, k, n), j) == CountOf(c, j) + (if j == k then n else 0)
    ensures Total(Add(c, k, n)) == Total(c) + n
    ensures Keys(Add(c, k, n)) == if k in Keys(c) then Keys(c) else Keys(c) + [k]
    ensures (forall i :: 0 <= i < |c| ==> c[i].1 > 0) && n > 0 ==>
      forall i :: 0 <= i < |Add(c, k, n)| ==> Add(c, k, n)[i].1 > 0
  {
    AddCounts(c, k, n);
    AddTotal(c, k, n);
    AddKeys(c, k, n);
    if (forall i :: 0 <= i < |c| ==> c[i].1 > 0) && n > 0 {
      AddPositive(c, k, n);
    }
  }

  /** The counter of `xs` holds each element's multiplicity. */
  lemma {:induction false} TallyCounts<K(!new)>(xs: seq<K>)
    ensures forall k :: CountOf(Tally(xs), k) == multiset(xs)[k]
  {
    if xs != [] {
      var init, last := xs[..|xs| - 1], xs[|xs| - 1];
      TallyCounts(init);
      AddCounts(Tally(init), last, 1);
      assert xs == init + [last];
      assert multiset(xs) == multiset(init) + multiset{last};
    }
  }

  /** The counts of the counter of `xs` add up to `|xs|`. */
  lemma {:induction false} TallyTotal<K>(xs: seq<K>)
    ensures Total(Tally(xs)) == |xs|
  {
    if xs != [] {
      TallyTotal(xs[..|xs| - 1]);
      AddTotal(Tally(xs[..|xs| - 1]), xs[|xs| - 1], 1);
    }
  }

  /** The keys of the counter of `xs` are its distinct elements in order of
      first appearance. */
  lemma {:induction false} TallyKeys<K(!new)>(xs: seq<K>)
    ensures Keys(Tally(xs)) == Distinct(xs)
  {
    if xs != [] {
      var init, last := xs[..|xs| - 1], xs[|xs| - 1];
      TallyKeys(init);
      AddKeys(Tally(init), last, 1);
      assert Tally(xs) == Add(Tally(init), last, 1);
    }
  }

  /** No count of the counter of `xs` is zero. */
  lemma {:induction false} TallyPositive<K>(xs: seq<K>)
    ensures forall i :: 0 <= i < |Tally(xs)| ==> Tally(xs)[i].1 > 0
  {
    if xs != [] {
      var init, last := xs[..|xs| - 1], xs[|xs| - 1];
      TallyPositive(init);
      AddPositive(Tally(init), last, 1);
    }
  }

  /** The counter of `xs` holds each element's multiplicity, its counts add
      up to `|xs|`, none is zero, and its keys are the distinct elements in
      order of first appearance. */
  lemma TallySpec<K(!new)>(xs: seq<K>)
    ensures forall k :: CountOf(Tally(xs), k) == multiset(xs)[k]
    ensures Total(Tally(xs)) == |xs|
    ensures Keys(Tally(xs)) == Distinct(xs)
    ensures forall i :: 0 <= i < |Tally(xs)| ==> Tally(xs)[i].1 > 0
  {
    TallyCounts(xs);
    TallyTotal(xs);
    TallyKeys(xs);
    TallyPositive(xs);
  }

  /** In a counter without repeated keys, `CountOf` is the stored count. */
  lemma {:induction false} CountOfDistinct<K>(c: Counter<K>, i: nat)
    requires NoDuplicates(Keys(c)) && i < |c|
    ensures CountOf(c, c[i].0) == c[i].1
  {
    if i == 0 {
      CountOfAbsent(c[1..], c[0].0);
    } else {
      assert Keys(c[1..]) == Keys(c)[1..];
      CountOfDistinct(c[1..], i - 1);
    }
  }

  /** A key with a positive count has an entry. */
  lemma CountOfPositive<K>(c: Counter<K>, k: K)
    ensures CountOf(c, k) > 0 ==> k in Keys(c)
  {
    if k !in Keys(c) {
      CountOfAbsent(c, k);
    }
  }

  lemma {:induction false} CountOfAbsent<K>(c: Counter<K>, k: K)
    requires k !in Keys(c)
    ensures CountOf(c, k) == 0
  {
    if c != [] {
      assert Keys(c[1..]) == Keys(c)[1..];
      CountOfAbsent(c[1..], k);
    }
  }

  // ---------------------------------------------------------------------
  // `Counter.most_common(n)` and `sorted(items, key=lambda x: -x[1])`

  /** "May come before" for the descending-count order. */
  function ByCountDesc<K>(): ((K, nat), (K, nat)) -> bool {
    (a: (K, nat), b: (K, nat)) => a.1 >= b.1
  }

  lemma ByCountDescIsPreorder<K(!new)>()
    ensures TotalPreorder(ByCountDesc<K>())
  {
  }

  /** `sorted(c.items(), key=lambda x: -x[1])`: a stable sort, largest first. */
  function SortByCountDesc<K>(c: Counter<K>): Counter<K> {
    SortBy(c, ByCountDesc())
  }

  /** `Counter(...).most_common(n)`. */
  function MostCommon<K>(c: Counter<K>, n: nat): Counter<K> {
    Take(SortByCountDesc(c), n)
  }

  /** The sorted items are the same items, largest count first, and items
      with equal counts keep their insertion order. */
  lemma SortByCountDescSpec<K(!new)>(c: Counter<K>)
    ensures multiset(SortByCountDesc(c)) == multiset(c)
    ensures forall i, j :: 0 <= i < j < |c| ==> SortByCountDesc(c)[i].1 >= SortByCountDesc(c)[j].1
    ensures forall t :: TiesWith(SortByCountDesc(c), t, ByCountDesc()) == TiesWith(c, t, ByCountDesc())
  {
    ByCountDescIsPreorder<K>();
    SortBySorted(c, ByCountDesc());
    forall t ensures TiesWith(SortByCountDesc(c), t, ByCountDesc()) == TiesWith(c, t, ByCountDesc()) {
      SortByStable(c, t, ByCountDesc());
    }
  }

  /** Every entry of the counter of `xs` holds its key's multiplicity. */
  lemma TallyEntries<K(!new)>(xs: seq<K>)
    ensures forall i :: 0 <= i < |Tally(xs)| ==> Tally(xs)[i].1 == multiset(xs)[Tally(xs)[i].0]
  {
    TallySpec(xs);
    forall i | 0 <= i < |Tally(xs)| ensures Tally(xs)[i].1 == multiset(xs)[Tally(xs)[i].0] {
      CountOfDistinct(Tally(xs), i);
    }
  }

  /** A reordering of a counter without repeated keys has the same keys,
      none repeated, and the same counts. */
  lemma KeysPermutation<K>(a: Counter<K>, b: Counter<K>)
    requires multiset(a) == multiset(b) && NoDuplicates(Keys(a))
    ensures NoDuplicates(Keys(b))
    ensures forall x :: x in Keys(b) <==> x in Keys(a)
    ensures forall k :: CountOf(b, k) == CountOf(a, k)
  {
    assert NoDuplicates(a) by {
      forall i, j | 0 <= i < j < |a| ensures a[i] != a[j] {
        assert Keys(a)[i] != Keys(a)[j];
      }
    }
    NoDuplicatesPermutation(a, b);
    forall i, j | 0 <= i < j < |b| ensures Keys(b)[i] != Keys(b)[j] {
      assert b[i] in multiset(a) && b[j] in multiset(a);
      var p :| 0 <= p < |a| && a[p] == b[i];
      var q :| 0 <= q < |a| && a[q] == b[j];
      assert p != q;
      assert Keys(a)[p] != Keys(a)[q];
    }
    forall x ensures x in Keys(b) <==> x in Keys(a) {
      if x in Keys(b) {
        var i :| 0 <= i < |b| && Keys(b)[i] == x;
        assert b[i] in multiset(a);
        var p :| 0 <= p < |a| && a[p] == b[i];
        assert Keys(a)[p] == x;
      }
      if x in Keys(a) {
        var p :| 0 <= p < |a| && Keys(a)[p] == x;
        assert a[p] in multiset(b);
        var i :| 0 <= i < |b| && b[i] == a[p];
        assert Keys(b)[i] == x;
      }
    }
    forall k ensures CountOf(b, k) == CountOf(a, k) {
      if k in Keys(b) {
        var i :| 0 <= i < |b| && Keys(b)[i] == k;
        assert b[i] in multiset(a);
        var p :| 0 <= p < |a| && a[p] == b[i];
        CountOfDistinct(b, i);
        CountOfDistinct(a, p);
      } else {
        CountOfAbsent(b, k);
        CountOfAbsent(a, k);
      }
    }
  }

  lemma {:induction false} TotalAppend<K>(a: Counter<K>, b: Counter<K>)
    ensures Total(a + b) == Total(a) + Total(b)
  {
    if a == [] {
      assert a + b == b;
    } else {
      TotalAppend(a[1..], b);
      assert (a + b)[1..] == a[1..] + b;
    }
  }

  /** Taking out the entry at `j` takes its count off the total. */
  lemma TotalRemove<K>(b: Counter<K>, j: nat)
    requires j < |b|
    ensures Total(b) == b[j].1 + Total(b[..j] + b[j + 1..])
  {
    assert b == b[..j] + b[j..];
    assert b[j..][1..] == b[j + 1..];
    TotalAppend(b[..j], b[j..]);
    TotalAppend(b[..j], b[j + 1..]);
  }

  /** Taking out the entry at `j` takes it out of the multiset. */
  lemma MultisetRemove<T>(b: seq<T>, j: nat)
    requires j < |b|
    ensures multiset(b[..j] + b[j + 1..]) == multiset(b) - multiset{b[j]}
  {
    assert b == b[..j] + [b[j]] + b[j + 1..];
  }

  /** A reordering of a counter has the same total. */
  lemma {:induction false} TotalPermutation<K>(a: Counter<K>, b: Counter<K>)
    requires multiset(a) == multiset(b)
    ensures Total(a) == Total(b)
    decreases |a|
  {
    if a != [] {
      var x := a[0];
      assert x in multiset(a);
      assert x in b;
      var j :| 0 <= j < |b| && b[j] == x;
      var a', b' := a[1..], b[..j] + b[j + 1..];
      MultisetRemove(a, 0);
      MultisetRemove(b, j);
      assert a[..0] + a[1..] == a';
      assert multiset(a') == multiset(b');
      TotalPermutation(a', b');
      TotalRemove(b, j);
    }
  }

  /** The sorted counter of `xs` has an entry for every element of `xs`
      and for nothing else, each key once, with its multiplicity. */
  lemma SortedTallyEntries<K(!new)>(xs: seq<K>)
    ensures NoDuplicates(Keys(SortByCountDesc(Tally(xs))))
    ensures forall x :: x in Keys(SortByCountDesc(Tally(xs))) <==> x in xs
    ensures forall i :: 0 <= i < |SortByCountDesc(Tally(xs))| ==>
      SortByCountDesc(Tally(xs))[i].1 == multiset(xs)[SortByCountDesc(Tally(xs))[i].0]
  {
    var c := Tally(xs);
    var sorted := SortByCountDesc(c);
    TallySpec(xs);
    SortByCountDescSpec(c);
    KeysPermutation(c, sorted);
    forall i | 0 <= i < |sorted| ensures sorted[i].1 == multiset(xs)[sorted[i].0] {
      CountOfDistinct(sorted, i);
    }
  }

  // ---------------------------------------------------------------------
  // Ties: the entries that share a count

  /** Does an entry have count `k`? */
  function HasCount<K>(k: nat): ((K, nat)) -> bool {
    (e: (K, nat)) => e.1 == k
  }

  /** Does `x` occur exactly `k` times in `xs`? */
  function OccursTimes<K(==)>(xs: seq<K>, k: nat): K -> bool {
    x => multiset(xs)[x] == k
  }

  /** The keys of `c` whose count is `k`, in the order of `c`. */
  function KeysWithCount<K>(c: Counter<K>, k: nat): seq<K> {
    Keys(Filter(c, HasCount(k)))
  }

  /** The distinct elements of `xs` that occur exactly `k` times, in order
      of first appearance. */
  function ElementsOccurring<K(==,!new)>(xs: seq<K>, k: nat): seq<K> {
    Filter(Distinct(xs), OccursTimes(xs, k))
  }

  /** The entries that tie with `t` in the descending-count order are the
      entries with `t`'s count. */
  lemma {:induction false} TiesWithCount<K>(c: Counter<K>, t: (K, nat))
    ensures TiesWith(c, t, ByCountDesc()) == Filter(c, HasCount(t.1))
  {
    if c != [] {
      TiesWithCount(c[1..], t);
    }
  }

  /** When every count is its key's multiplicity in `xs`, the keys with
      count `k` are the keys that occur `k` times in `xs`. */
  lemma {:induction false} KeysWithCountOf<K>(c: Counter<K>, xs: seq<K>, k: nat)
    requires forall i :: 0 <= i < |c| ==> c[i].1 == multiset(xs)[c[i].0]
    ensures KeysWithCount(c, k) == Filter(Keys(c), OccursTimes(xs, k))
  {
    if c != [] {
      KeysWithCountOf(c[1..], xs, k);
      KeysCons(c[0], c[1..]);
      assert c == [c[0]] + c[1..];
      if c[0].1 == k {
        KeysCons(c[0], Filter(c[1..], HasCount(k)));
      }
    }
  }

  /** The keys of the counter of `xs` with count `k` are the elements that
      occur `k` times, in order of first appearance. */
  lemma TallyKeysWithCount<K(!new)>(xs: seq<K>, k: nat)
    ensures KeysWithCount(Tally(xs), k) == ElementsOccurring(xs, k)
  {
    TallyEntries(xs);
    TallyKeys(xs);
    KeysWithCountOf(Tally(xs), xs, k);
  }

  /** Sorting by count keeps the order of the keys that share a count. */
  lemma SortKeysWithCount<K(!new)>(c: Counter<K>, k: nat)
    ensures KeysWithCount(SortByCountDesc(c), k) == KeysWithCount(c, k)
  {
    if c != [] {
      var t := (c[0].0, k);
      SortByCountDescSpec(c);
      TiesWithCount(SortByCountDesc(c), t);
      TiesWithCount(c, t);
    }
  }

  /** A prefix of a counter has a prefix of its keys. */
  lemma KeysPrefix<K>(a: Counter<K>, b: Counter<K>)
    requires a <= b
    ensures Keys(a) <= Keys(b)
  {
    assert Keys(a) == Keys(b)[..|a|];
  }

  // ---------------------------------------------------------------------
  // What `most_common(n)` promises

  /** `top` is what `Counter(xs).most_common(n)` returns: `n` entries, or
      one per distinct element when there are fewer; each key once, an
      element of `xs` with its multiplicity; largest count first; no
      element left out occurs more often than one kept; and entries with
      equal counts in the order their keys first appear in `xs` (a prefix
      of them, where the cut falls among equal counts). These determine
      `top` completely. */
  ghost predicate IsMostCommon<K(!new)>(top: Counter<K>, xs: seq<K>, n: nat) {
    && |top| == (if n < |Distinct(xs)| then n else |Distinct(xs)|)
    && NoDuplicates(Keys(top))
    && (forall i :: 0 <= i < |top| ==> top[i].0 in xs && top[i].1 == multiset(xs)[top[i].0])
    && (forall i, j :: 0 <= i < j < |top| ==> top[i].1 >= top[j].1)
    && (forall x, i :: x in xs && x !in Keys(top) && 0 <= i < |top| ==> multiset(xs)[x] <= top[i].1)
    && (forall k :: KeysWithCount(top, k) <= ElementsOccurring(xs, k))
  }

  /** Sorting by count puts the largest count first. */
  lemma SortByCountDescOrdered<K(!new)>(c: Counter<K>)
    ensures forall i, j :: 0 <= i < j < |SortByCountDesc(c)| ==> SortByCountDesc(c)[i].1 >= SortByCountDesc(c)[j].1
  {
    ByCountDescIsPreorder<K>();
    SortBySorted(c, ByCountDesc());
  }

  /** In a counter sorted largest first, a key missing from a prefix has a
      count no larger than any count in that prefix. */
  lemma DescendingCut<K>(s: Counter<K>, t: nat, m: nat)
    requires t <= |s| && m < |s|
    requires forall i, j :: 0 <= i < j < |s| ==> s[i].1 >= s[j].1
    requires s[m].0 !in Keys(s[..t])
    ensures forall i :: 0 <= i < t ==> s[m].1 <= s[i].1
  {
    assert forall q :: 0 <= q < t ==> Keys(s[..t])[q] == s[q].0;
    assert m >= t;
  }

  /** An element left out of `most_common(n)` occurs no more often than
      any element kept. */
  lemma MostCommonLeftOutOne<K(!new)>(xs: seq<K>, n: nat, x: K)
    requires x in xs && x !in Keys(MostCommon(Tally(xs), n))
    ensures forall i :: 0 <= i < |MostCommon(Tally(xs), n)| ==> multiset(xs)[x] <= MostCommon(Tally(xs), n)[i].1
  {
    var sorted := SortByCountDesc(Tally(xs));
    var top := MostCommon(Tally(xs), n);
    SortedTallyEntries(xs);
    SortByCountDescOrdered(Tally(xs));
    assert x in Keys(sorted);
    var m :| 0 <= m < |sorted| && Keys(sorted)[m] == x;
    assert top == sorted[..|top|];
    assert sorted[m].1 == multiset(xs)[x];
    assert x !in Keys(sorted[..|top|]);
    DescendingCut(sorted, |top|, m);
    forall i | 0 <= i < |top| ensures multiset(xs)[x] <= top[i].1 {
      assert top[i] == sorted[i];
    }
  }

  /** No element left out of `most_common(n)` occurs more often than one kept. */
  lemma MostCommonLeftOut<K(!new)>(xs: seq<K>, n: nat)
    ensures var top := MostCommon(Tally(xs), n);
      forall x, i :: x in xs && x !in Keys(top) && 0 <= i < |top| ==> multiset(xs)[x] <= top[i].1
  {
    var top := MostCommon(Tally(xs), n);
    forall x, i | x in xs && x !in Keys(top) && 0 <= i < |top|
      ensures multiset(xs)[x] <= top[i].1
    {
      MostCommonLeftOutOne(xs, n, x);
    }
  }

  /** The entries of `most_common(n)` that share a count are the first of
      the elements with that count, in order of first appearance. */
  lemma MostCommonTies<K(!new)>(xs: seq<K>, n: nat, k: nat)
    ensures KeysWithCount(MostCommon(Tally(xs), n), k) <= ElementsOccurring(xs, k)
  {
    var sorted := SortByCountDesc(Tally(xs));
    var top := MostCommon(Tally(xs), n);
    SortKeysWithCount(Tally(xs), k);
    TallyKeysWithCount(xs, k);
    FilterPrefix(sorted, |top|, HasCount(k));
    KeysPrefix(Filter(top, HasCount(k)), Filter(sorted, HasCount(k)));
  }

  /** The entries `most_common(n)` keeps: as many as asked for or as
      there are distinct elements, each once, with its multiplicity, most
      common first. */
  lemma MostCommonEntries<K(!new)>(xs: seq<K>, n: nat)
    ensures var top := MostCommon(Tally(xs), n);
      && |top| == (if n < |Distinct(xs)| then n else |Distinct(xs)|)
      && NoDuplicates(Keys(top))
      && (forall i :: 0 <= i < |top| ==> top[i].0 in xs && top[i].1 == multiset(xs)[top[i].0])
      && (forall i, j :: 0 <= i < j < |top| ==> top[i].1 >= top[j].1)
  {
    var sorted := SortByCountDesc(Tally(xs));
    var top := MostCommon(Tally(xs), n);
    TallyKeys(xs);
    SortByCountDescSpec(Tally(xs));
    SortedTallyEntries(xs);
    assert |sorted| == |Tally(xs)| == |Distinct(xs)| by {
      assert |multiset(sorted)| == |multiset(Tally(xs))|;
    }
    assert top == sorted[..|top|];
    assert forall i :: 0 <= i < |top| ==> top[i] == sorted[i] && Keys(top)[i] == Keys(sorted)[i];
  }

  /** `Counter(xs).most_common(n)` keeps the `n` most common elements of
      `xs`, most common first, ties in order of first appearance. */
  lemma MostCommonSpec<K(!new)>(xs: seq<K>, n: nat)
    ensures IsMostCommon(MostCommon(Tally(xs), n), xs, n)
  {
    var top := MostCommon(Tally(xs), n);
    MostCommonEntries(xs, n);
    MostCommonLeftOut(xs, n);
    forall k ensures KeysWithCount(top, k) <= ElementsOccurring(xs, k) {
      MostCommonTies(xs, n, k);
    }
  }

  /** `sorted(Counter(xs).items(), key=lambda x: -x[1])` is `most_common()`
      of every element, and every element of `xs` has its entry. */
  lemma SortedTallySpec<K(!new)>(xs: seq<K>)
    ensures IsMostCommon(SortByCountDesc(Tally(xs)), xs, |Distinct(xs)|)
    ensures forall x :: x in xs ==> x in Keys(SortByCountDesc(Tally(xs)))
  {
    MostCommonSpec(xs, |Distinct(xs)|);
    TallyKeys(xs);
    SortedTallyEntries(xs);
    assert MostCommon(Tally(xs), |Distinct(xs)|) == SortByCountDesc(Tally(xs));
  }
}
