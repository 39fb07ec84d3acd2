/** Order-preserving selection and counting over sequences: what the services
    do with `stream().filter(...)` and `groupingBy(..., counting())`. */
module Seqs {

  /** `r` can be obtained from `s` by deleting elements, keeping the order. */
  predicate IsSubsequence<T(==)>(r: seq<T>, s: seq<T>)
    decreases |s|
  {
    || |r| == 0
    || (|s| > 0 && ((r[0] == s[0] && IsSubsequence(r[1..], s[1..])) || IsSubsequence(r, s[1..])))
  }

  /** `stream().filter(keep).collect(toList())` */
  function Filter<T(==,!new)>(s: seq<T>, keep: T -> bool): (r: seq<T>)
    ensures |r| <= |s|
    ensures forall x :: x in r <==> x in s && keep(x)
    ensures IsSubsequence(r, s)
    decreases |s|
  {
    if |s| == 0 then []
    else
      var rest := Filter(s[1..], keep);
      assert forall x :: x in s <==> x == s[0] || x in s[1..];
      if keep(s[0]) then
        var r := [s[0]] + rest;
        assert r[1..] == rest;
        r
      else
        rest
  }

  /** How many elements `f` maps to `k`. */
  function CountOf<T, K(==)>(s: seq<T>, f: T -> K, k: K): (c: nat)
    ensures c <= |s|
    ensures c > 0 <==> exists i :: 0 <= i < |s| && f(s[i]) == k
    decreases |s|
  {
    if |s| == 0 then 0
    else
      var rest := CountOf(s[1..], f, k);
      assert forall i :: 1 <= i < |s| ==> s[i] == s[1..][i - 1];
      assert rest > 0 ==> exists i :: 1 <= i < |s| && f(s[i]) == k;
      (if f(s[0]) == k then 1 else 0) + rest
  }

  /** The keys `f` produces on `s`. */
  function Image<T, K>(s: seq<T>, f: T -> K): set<K> {
    set i | 0 <= i < |s| :: f(s[i])
  }

  /** The elements `f` maps to `k`, in order. */
  function Members<T(==,!new), K(==)>(s: seq<T>, f: T -> K, k: K): (r: seq<T>)
    ensures forall x :: x in r <==> x in s && f(x) == k
    ensures IsSubsequence(r, s)
  {
    Filter(s, x => f(x) == k)
  }

  /** A group has as many elements as its key has occurrences. */
  lemma {:induction false} MembersCount<T(!new), K>(s: seq<T>, f: T -> K, k: K)
    ensures |Members(s, f, k)| == CountOf(s, f, k)
    decreases |s|
  {
    if |s| > 0 {
      MembersCount(s[1..], f, k);
    }
  }

  /** `groupingBy(f)` into lists: only keys that occur, each with its elements in order. */
  function GroupBy<T(==,!new), K(==,!new)>(s: seq<T>, f: T -> K): (m: map<K, seq<T>>)
    ensures forall k :: k in m <==> exists i :: 0 <= i < |s| && f(s[i]) == k
    ensures forall k :: k in m ==> m[k] == Members(s, f, k) && |m[k]| > 0
  {
    map k | k in Image(s, f) :: Members(s, f, k)
  }

  /** `groupingBy(f, counting())`: only keys that occur, each with its count. */
  function CountBy<T, K(==,!new)>(s: seq<T>, f: T -> K): (m: map<K, nat>)
    ensures forall k :: k in m <==> CountOf(s, f, k) > 0
    ensures forall k :: k in m ==> m[k] == CountOf(s, f, k)
  {
    map k | k in Image(s, f) :: CountOf(s, f, k)
  }

  /** Sum of `m`'s values over the keys `ks`, absent keys adding nothing. */
  function SumOver<K>(m: map<K, nat>, ks: seq<K>): nat
    decreases |ks|
  {
    if |ks| == 0 then 0 else (if ks[0] in m then m[ks[0]] else 0) + SumOver(m, ks[1..])
  }

  predicate Distinct<K(==)>(ks: seq<K>) {
    forall i, j :: 0 <= i < j < |ks| ==> ks[i] != ks[j]
  }

  /** Sum over `ks` of the counts of each key. */
  function SumOfCounts<T, K(==)>(s: seq<T>, f: T -> K, ks: seq<K>): nat
    decreases |ks|
  {
    if |ks| == 0 then 0 else CountOf(s, f, ks[0]) + SumOfCounts(s, f, ks[1..])
  }

  /** How many entries of `ks` equal `k`. */
  function Occurrences<K(==)>(ks: seq<K>, k: K): nat
    decreases |ks|
  {
    if |ks| == 0 then 0 else (if ks[0] == k then 1 else 0) + Occurrences(ks[1..], k)
  }

  lemma {:induction false} OccurrencesOfDistinct<K>(ks: seq<K>, k: K)
    requires Distinct(ks)
    requires k in ks
    ensures Occurrences(ks, k) == 1
    decreases |ks|
  {
    if ks[0] == k {
      OccurrencesOfAbsent(ks[1..], k);
    } else {
      OccurrencesOfDistinct(ks[1..], k);
    }
  }

  lemma {:induction false} OccurrencesOfAbsent<K>(ks: seq<K>, k: K)
    requires k !in ks
    ensures Occurrences(ks, k) == 0
    decreases |ks|
  {
    if |ks| > 0 {
      OccurrencesOfAbsent(ks[1..], k);
    }
  }

  /** Peeling the first element off `s` peels one occurrence of its key. */
  lemma {:induction false} SumOfCountsStep<T, K>(s: seq<T>, f: T -> K, ks: seq<K>)
    requires |s| > 0
    ensures SumOfCounts(s, f, ks) == Occurrences(ks, f(s[0])) + SumOfCounts(s[1..], f, ks)
    decreases |ks|
  {
    if |ks| > 0 {
      SumOfCountsStep(s, f, ks[1..]);
    }
  }

  lemma {:induction false} SumOfCountsIsLength<T, K>(s: seq<T>, f: T -> K, ks: seq<K>)
    requires Distinct(ks)
    requires forall i :: 0 <= i < |s| ==> f(s[i]) in ks
    ensures SumOfCounts(s, f, ks) == |s|
    decreases |s|
  {
    if |s| == 0 {
      SumOfCountsOfEmpty(s, f, ks);
    } else {
      SumOfCountsStep(s, f, ks);
      OccurrencesOfDistinct(ks, f(s[0]));
      SumOfCountsIsLength(s[1..], f, ks);
    }
  }

  lemma {:induction false} SumOfCountsOfEmpty<T, K>(s: seq<T>, f: T -> K, ks: seq<K>)
    requires |s| == 0
    ensures SumOfCounts(s, f, ks) == 0
    decreases |ks|
  {
    if |ks| > 0 {
      SumOfCountsOfEmpty(s, f, ks[1..]);
    }
  }

  lemma {:induction false} SumOverCountBy<T, K(!new)>(s: seq<T>, f: T -> K, ks: seq<K>)
    ensures SumOver(CountBy(s, f), ks) == SumOfCounts(s, f, ks)
    decreases |ks|
  {
    if |ks| > 0 {
      SumOverCountBy(s, f, ks[1..]);
    }
  }

  /** Summed over a list naming every possible key once, the counts of
      `CountBy` add up to the length: no element is lost or counted twice. */
  lemma CountsSumToLength<T, K(!new)>(s: seq<T>, f: T -> K, ks: seq<K>)
    requires Distinct(ks)
    requires forall i :: 0 <= i < |s| ==> f(s[i]) in ks
    ensures SumOver(CountBy(s, f), ks) == |s|
  {
    SumOverCountBy(s, f, ks);
    SumOfCountsIsLength(s, f, ks);
  }

  // ---------------------------------------------------------------------------
  // Removing one position
  // ---------------------------------------------------------------------------

  /** Where each element of `s` minus position `i` came from. */
  lemma RemoveAtIndexing<T>(s: seq<T>, i: nat, rest: seq<T>)
    requires i < |s| && rest == s[..i] + s[i + 1..]
    ensures |rest| == |s| - 1
    ensures forall j :: 0 <= j < |rest| ==> rest[j] == s[if j < i then j else j + 1]
  {
  }

  /** Removing one position keeps the rest in order and drops exactly that element. */
  lemma RemoveAtFacts<T>(s: seq<T>, k: nat)
    requires k < |s|
    ensures multiset(s[..k] + s[k + 1..]) == multiset(s) - multiset{s[k]}
    ensures IsSubsequence(s[..k] + s[k + 1..], s)
  {
    RemoveAtMultiset(s, k);
    SkipOneIsSubsequence(s, k);
  }

  lemma RemoveAtMultiset<T>(s: seq<T>, k: nat)
    requires k < |s|
    ensures multiset(s[..k] + s[k + 1..]) == multiset(s) - multiset{s[k]}
  {
    assert s == s[..k] + ([s[k]] + s[k + 1..]);
    assert multiset(s) == multiset(s[..k]) + multiset{s[k]} + multiset(s[k + 1..]);
  }

  lemma {:induction false} SkipOneIsSubsequence<T>(s: seq<T>, k: nat)
    requires k < |s|
    ensures IsSubsequence(s[..k] + s[k + 1..], s)
    decreases k
  {
    var r := s[..k] + s[k + 1..];
    if k == 0 {
      assert r == s[1..];
      SubsequenceOfItself(s[1..]);
    } else {
      SkipOneIsSubsequence(s[1..], k - 1);
      assert r[0] == s[0];
      assert r[1..] == s[1..][..k - 1] + s[1..][k..];
    }
  }

  lemma {:induction false} SubsequenceOfItself<T>(s: seq<T>)
    ensures IsSubsequence(s, s)
    decreases |s|
  {
    if |s| > 0 {
      SubsequenceOfItself(s[1..]);
    }
  }

  // ---------------------------------------------------------------------------
  // Stable sorting by a total preorder
  // ---------------------------------------------------------------------------

  ghost predicate Total<T(!new)>(leq: (T, T) -> bool) {
    forall a, b :: leq(a, b) || leq(b, a)
  }

  predicate SortedBy<T>(s: seq<T>, leq: (T, T) -> bool) {
    forall i :: 0 < i < |s| ==> leq(s[i - 1], s[i])
  }

  /** Insert `x` in front of the first element it sorts no later than. */
  function InsertBy<T(!new)>(x: T, s: seq<T>, leq: (T, T) -> bool): (r: seq<T>)
    requires Total(leq)
    requires SortedBy(s, leq)
    ensures multiset(r) == multiset(s) + multiset{x}
    ensures SortedBy(r, leq)
    ensures |r| == |s| + 1 && (r[0] == x || (|s| > 0 && r[0] == s[0]))
    decreases |s|
  {
    if |s| == 0 || leq(x, s[0]) then [x] + s
    else
      var rest := InsertBy(x, s[1..], leq);
      assert s == [s[0]] + s[1..];
      assert leq(s[0], x);
      var r := [s[0]] + rest;
      assert r[1..] == rest;
      r
  }

  /** Insertion sort: a permutation of `s` ordered by `leq`; equal elements
      keep their relative order (`SortByKeepsTiedOrder`). */
  function SortBy<T(!new)>(s: seq<T>, leq: (T, T) -> bool): (r: seq<T>)
    requires Total(leq)
    ensures multiset(r) == multiset(s)
    ensures SortedBy(r, leq)
    decreases |s|
  {
    if |s| == 0 then []
    else
      assert s == [s[0]] + s[1..];
      InsertBy(s[0], SortBy(s[1..], leq), leq)
  }

  ghost predicate Transitive<T(!new)>(leq: (T, T) -> bool) {
    forall a, b, c :: leq(a, b) && leq(b, c) ==> leq(a, c)
  }

  /** Under a transitive order, a sequence whose neighbours are in order has
      every earlier element sorting no later than every later one. */
  lemma {:induction false} SortedByPairwise<T(!new)>(s: seq<T>, leq: (T, T) -> bool)
    requires Transitive(leq) && SortedBy(s, leq)
    ensures forall i, j :: 0 <= i < j < |s| ==> leq(s[i], s[j])
    decreases |s|
  {
    if |s| > 1 {
      var n := |s| - 1;
      var p := s[..n];
      assert SortedBy(p, leq) by {
        assert forall i :: 0 <= i < n ==> p[i] == s[i];
      }
      SortedByPairwise(p, leq);
      forall i, j | 0 <= i < j < |s|
        ensures leq(s[i], s[j])
      {
        if j < n {
          assert p[i] == s[i] && p[j] == s[j];
        } else if i < n - 1 {
          assert p[i] == s[i] && p[n - 1] == s[n - 1];
          assert leq(s[i], s[n - 1]) && leq(s[n - 1], s[n]);
        }
      }
    }
  }

  /** Every two elements `keep` selects sort equal: `keep` picks out (part of)
      one class of tied elements. */
  ghost predicate TiedUnder<T(!new)>(keep: T -> bool, leq: (T, T) -> bool) {
    forall a, b :: keep(a) && keep(b) ==> leq(a, b)
  }

  /** Inserting `x` keeps the elements of a tie class in the order of `[x] + s`. */
  lemma {:induction false} InsertByKeepsTiedOrder<T(!new)>(x: T, s: seq<T>, leq: (T, T) -> bool, keep: T -> bool)
    requires Total(leq) && SortedBy(s, leq) && TiedUnder(keep, leq)
    ensures Filter(InsertBy(x, s, leq), keep) == Filter([x] + s, keep)
    decreases |s|
  {
    if |s| > 0 && !leq(x, s[0]) {
      var tail := s[1..];
      var rest := InsertBy(x, tail, leq);
      InsertByKeepsTiedOrder(x, tail, leq, keep);
      var r := [s[0]] + rest;
      assert InsertBy(x, s, leq) == r;
      assert r[1..] == rest;
      assert ([x] + s)[1..] == s;
      assert ([x] + tail)[1..] == tail;
      assert !(keep(x) && keep(s[0]));
    }
  }

  /** Sorting is stable: within every tie class the elements keep their order in `s`. */
  lemma {:induction false} SortByKeepsTiedOrder<T(!new)>(s: seq<T>, leq: (T, T) -> bool, keep: T -> bool)
    requires Total(leq) && TiedUnder(keep, leq)
    ensures Filter(SortBy(s, leq), keep) == Filter(s, keep)
    decreases |s|
  {
    if |s| > 0 {
      var sorted := SortBy(s[1..], leq);
      SortByKeepsTiedOrder(s[1..], leq, keep);
      InsertByKeepsTiedOrder(s[0], sorted, leq, keep);
      assert ([s[0]] + sorted)[1..] == sorted;
    }
  }
}
