/** Sequence building blocks shared by the cleaning step and the counting
    aggregates: occurrence counts, first-occurrence deduplication
    (`drop_duplicates(keep='first')`, `unique()`), tallies and the
    descending-count order of `value_counts()`. */
module Seqs {

  /** Number of positions of `xs` that hold `v`. */
  function Count<T(==)>(xs: seq<T>, v: T): (n: nat)
    ensures n <= |xs|
    ensures n > 0 <==> v in xs
  {
    if xs == [] then 0 else (if xs[0] == v then 1 else 0) + Count(xs[1..], v)
  }

  lemma {:induction false} CountConcat<T>(a: seq<T>, b: seq<T>, v: T)
    ensures Count(a + b, v) == Count(a, v) + Count(b, v)
  {
    if a == [] {
      assert a + b == b;
    } else {
      assert (a + b)[1..] == a[1..] + b;
      CountConcat(a[1..], b, v);
    }
  }

  predicate Distinct<T(==)>(s: seq<T>)
  {
    forall i, j :: 0 <= i < j < |s| ==> s[i] != s[j]
  }

  /** `s` without its repeats: each element is kept at its first occurrence,
      in the original order. */
  function Dedup<T(==)>(s: seq<T>): (d: seq<T>)
    ensures Distinct(d)
    ensures forall i :: 0 <= i < |d| ==> d[i] in s
    ensures |d| <= |s|
  {
    if s == [] then []
    else
      var n := |s| - 1;
      var p := Dedup(s[..n]);
      assert forall i :: 0 <= i < |p| ==> p[i] in s by {
        assert s == s[..n] + [s[n]];
      }
      if s[n] in s[..n] then p else p + [s[n]]
  }

  /** Dedup drops no value and adds none. */
  lemma {:induction false} DedupMembers<T>(s: seq<T>)
    ensures forall x :: x in Dedup(s) <==> x in s
  {
    if s != [] {
      var n := |s| - 1;
      DedupMembers(s[..n]);
      assert s == s[..n] + [s[n]];
      forall x | x in Dedup(s) ensures x in s {
        var i :| 0 <= i < |Dedup(s)| && Dedup(s)[i] == x;
      }
    }
  }

  /** Position of the first occurrence of `x` in `s`. */
  function IndexOf<T(==)>(s: seq<T>, x: T): (i: nat)
    requires x in s
    ensures i < |s| && s[i] == x
    ensures forall m :: 0 <= m < i ==> s[m] != x
  {
    if s[0] == x then 0 else 1 + IndexOf(s[1..], x)
  }

  lemma IndexOfPrefix<T>(s: seq<T>, n: nat, x: T)
    requires n <= |s| && x in s[..n]
    ensures IndexOf(s, x) == IndexOf(s[..n], x)
  {
    var i, j := IndexOf(s, x), IndexOf(s[..n], x);
    assert s[..n][j] == s[j];
    assert i <= j;
    assert s[..n][i] == s[i];
  }

  /** Dedup lists the distinct values of `s` in the order of their first
      occurrences, so each value is kept where it first appears (pandas'
      `keep='first'`). */
  lemma {:induction false} DedupKeepsFirstOccurrences<T>(s: seq<T>)
    ensures forall i, j :: 0 <= i < j < |Dedup(s)| ==> IndexOf(s, Dedup(s)[i]) < IndexOf(s, Dedup(s)[j])
  {
    if s != [] {
      var n := |s| - 1;
      var p := s[..n];
      var d := Dedup(s);
      DedupKeepsFirstOccurrences(p);
      forall y | y in Dedup(p) ensures IndexOf(s, y) == IndexOf(p, y) {
        IndexOfPrefix(s, n, y);
      }
      if s[n] !in p {
        assert d == Dedup(p) + [s[n]];
        assert IndexOf(s, s[n]) == n;
      }
    }
  }

  /** Each key paired with its number of occurrences in `xs`. */
  function Tally<T(==)>(keys: seq<T>, xs: seq<T>): seq<(T, nat)>
  {
    if keys == [] then [] else [(keys[0], Count(xs, keys[0]))] + Tally(keys[1..], xs)
  }

  /** The keys of a tally, in order. */
  function Keys<T>(t: seq<(T, nat)>): seq<T>
  {
    seq(|t|, i requires 0 <= i < |t| => t[i].0)
  }

  /** Sum of the counts of a tally. */
  function Total<T>(t: seq<(T, nat)>): nat
  {
    if t == [] then 0 else t[0].1 + Total(t[1..])
  }

  lemma {:induction false} TallyAt<T>(keys: seq<T>, xs: seq<T>)
    ensures |Tally(keys, xs)| == |keys|
    ensures forall i :: 0 <= i < |keys| ==> Tally(keys, xs)[i] == (keys[i], Count(xs, keys[i]))
  {
    if keys != [] {
      TallyAt(keys[1..], xs);
    }
  }

  /** The entries of a tally are exactly its keys with their counts. */
  lemma TallyMembership<T>(keys: seq<T>, xs: seq<T>)
    ensures forall e: (T, nat) :: e in Tally(keys, xs) <==> e.0 in keys && e.1 == Count(xs, e.0)
  {
    TallyAt(keys, xs);
    var t := Tally(keys, xs);
    forall e: (T, nat) | e.0 in keys && e.1 == Count(xs, e.0) ensures e in t {
      var i :| 0 <= i < |keys| && keys[i] == e.0;
      assert t[i] == e;
    }
  }

  lemma {:induction false} TallyEmpty<T>(keys: seq<T>)
    ensures Total(Tally(keys, [])) == 0
  {
    if keys != [] {
      TallyEmpty(keys[1..]);
    }
  }

  /** Adding one element to the counted sequence adds, to the total, the number
      of keys equal to it. */
  lemma {:induction false} TallyCons<T>(keys: seq<T>, xs: seq<T>)
    requires xs != []
    ensures Total(Tally(keys, xs)) == Count(keys, xs[0]) + Total(Tally(keys, xs[1..]))
  {
    if keys != [] {
      TallyCons(keys[1..], xs);
    }
  }

  lemma {:induction false} CountDistinct<T>(keys: seq<T>, x: T)
    requires Distinct(keys) && x in keys
    ensures Count(keys, x) == 1
  {
    if keys[0] != x {
      CountDistinct(keys[1..], x);
    }
  }

  /** Counting every element of `xs` against distinct keys that cover all of
      them accounts for each element exactly once. */
  lemma {:induction false} TotalOfTally<T>(keys: seq<T>, xs: seq<T>)
    requires Distinct(keys)
    requires forall x :: x in xs ==> x in keys
    ensures Total(Tally(keys, xs)) == |xs|
  {
    if xs == [] {
      TallyEmpty(keys);
    } else {
      TallyCons(keys, xs);
      CountDistinct(keys, xs[0]);
      TotalOfTally(keys, xs[1..]);
    }
  }

  /** Counts never increase from left to right. */
  predicate NonIncreasing<T>(t: seq<(T, nat)>)
  {
    forall i, j :: 0 <= i < j < |t| ==> t[i].1 >= t[j].1
  }

  /** Inserts `e` before the first entry whose count is not larger than its
      own, so `e` goes ahead of entries with the same count. */
  function InsertByCount<T(==)>(e: (T, nat), t: seq<(T, nat)>): (r: seq<(T, nat)>)
    ensures multiset(r) == multiset(t) + multiset{e}
    ensures Total(r) == e.1 + Total(t)
  {
    if t == [] || e.1 >= t[0].1 then
      [e] + t
    else
      assert t == [t[0]] + t[1..];
      [t[0]] + InsertByCount(e, t[1..])
  }

  lemma {:induction false} InsertKeepsOrder<T>(e: (T, nat), t: seq<(T, nat)>)
    requires NonIncreasing(t)
    ensures NonIncreasing(InsertByCount(e, t))
  {
    if t != [] && e.1 < t[0].1 {
      var rest := InsertByCount(e, t[1..]);
      InsertKeepsOrder(e, t[1..]);
      forall k | 0 <= k < |rest| ensures rest[k].1 <= t[0].1 {
        assert rest[k] in multiset(rest);
        if rest[k] != e {
          assert rest[k] in multiset(t[1..]);
          var m :| 0 <= m < |t[1..]| && t[1..][m] == rest[k];
          assert t[m + 1] == rest[k];
        }
      }
      var r := [t[0]] + rest;
      assert InsertByCount(e, t) == r;
      forall i, j | 0 <= i < j < |r| ensures r[i].1 >= r[j].1 {
        assert r[j] == rest[j - 1];
        if i > 0 {
          assert r[i] == rest[i - 1];
        }
      }
    }
  }

  /** Orders a tally by non-increasing count (ties keep their order). */
  function SortByCount<T(==)>(t: seq<(T, nat)>): (r: seq<(T, nat)>)
    ensures multiset(r) == multiset(t)
    ensures NonIncreasing(r)
    ensures Total(r) == Total(t)
  {
    if t == [] then []
    else
      assert t == [t[0]] + t[1..];
      InsertKeepsOrder(t[0], SortByCount(t[1..]));
      InsertByCount(t[0], SortByCount(t[1..]))
  }

  lemma {:induction false} DistinctMultiplicity<T>(s: seq<T>, x: T)
    requires Distinct(s)
    ensures multiset(s)[x] <= 1
  {
    if s != [] {
      assert s == [s[0]] + s[1..];
      DistinctMultiplicity(s[1..], x);
      if s[0] == x {
        assert x !in s[1..];
      }
    }
  }

  lemma RepeatMultiplicity<T>(s: seq<T>, i: nat, j: nat)
    requires i < j < |s| && s[i] == s[j]
    ensures multiset(s)[s[i]] >= 2
  {
    assert s == s[..j] + s[j..];
    assert s[i] in s[..j];
    assert s[j] in s[j..];
  }

  /** A permutation of a sequence without repeats has no repeats. */
  lemma PermutationKeepsDistinct<T>(a: seq<T>, b: seq<T>)
    requires multiset(a) == multiset(b) && Distinct(a)
    ensures Distinct(b)
  {
    forall i, j | 0 <= i < j < |b| ensures b[i] != b[j] {
      if b[i] == b[j] {
        RepeatMultiplicity(b, i, j);
        DistinctMultiplicity(a, b[i]);
        assert false;
      }
    }
  }

  /** A sequence without repeats has as many elements as its set. */
  lemma {:induction false} DistinctCardinality<T>(s: seq<T>)
    requires Distinct(s)
    ensures |set x | x in s| == |s|
  {
    if s != [] {
      DistinctCardinality(s[1..]);
      assert (set x | x in s) == {s[0]} + (set x | x in s[1..]);
      assert s[0] !in (set x | x in s[1..]);
    }
  }

  /** In a list ordered by non-increasing count, an entry whose key is not
      among the first `k` keys counts no more than any of those `k` entries. */
  lemma PrefixCutoff<T>(t: seq<(T, nat)>, k: nat, e: (T, nat), i: nat)
    requires NonIncreasing(t) && k <= |t| && i < k
    requires e in t && e.0 !in Keys(t[..k])
    ensures e.1 <= t[i].1
  {
    var m :| 0 <= m < |t| && t[m] == e;
    assert m >= k by {
      assert forall j :: 0 <= j < k ==> Keys(t[..k])[j] == t[j].0;
    }
  }

  /** The first `n` entries, or all of them when there are fewer (`head(n)`). */
  function Head<T>(s: seq<T>, n: nat): seq<T>
  {
    if |s| <= n then s else s[..n]
  }
}
