/** Sequence operations standing for Kotlin's and Swift's collection library calls. */
module Seqs {
  import opened Wrappers

  /** `list.filter { p(it) }`: the elements satisfying `p`, in their original order. */
  function Filter<T(==,!new)>(s: seq<T>, p: T -> bool): (r: seq<T>)
    ensures |r| <= |s|
    ensures forall x :: x in r <==> x in s && p(x)
    decreases |s|
  {
    if s == [] then [] else (if p(s[0]) then [s[0]] else []) + Filter(s[1..], p)
  }

  /** `a` can be obtained from `b` by deleting elements: an order-preserving subsequence. */
  predicate IsSubsequence<T(==)>(a: seq<T>, b: seq<T>)
    decreases |b|
  {
    a == [] || (b != [] && ((a[0] == b[0] && IsSubsequence(a[1..], b[1..])) || IsSubsequence(a, b[1..])))
  }

  lemma {:induction false} FilterIsSubsequence<T(!new)>(s: seq<T>, p: T -> bool)
    ensures IsSubsequence(Filter(s, p), s)
    decreases |s|
  {
    if s != [] {
      FilterIsSubsequence(s[1..], p);
      assert Filter(s, p) == (if p(s[0]) then [s[0]] else []) + Filter(s[1..], p);
      if p(s[0]) {
        assert Filter(s, p)[1..] == Filter(s[1..], p);
      } else {
        assert Filter(s, p) == Filter(s[1..], p);
      }
    }
  }

  /** Filtering with a predicate that holds of every element changes nothing. */
  lemma {:induction false} FilterKeepsAll<T(!new)>(s: seq<T>, p: T -> bool)
    requires forall i :: 0 <= i < |s| ==> p(s[i])
    ensures Filter(s, p) == s
    decreases |s|
  {
    if s != [] {
      FilterKeepsAll(s[1..], p);
      assert [s[0]] + s[1..] == s;
    }
  }

  /** Two filters in a row are one filter by the conjunction `pq`. */
  lemma {:induction false} FilterThen<T(!new)>(s: seq<T>, p: T -> bool, q: T -> bool, pq: T -> bool)
    requires forall i :: 0 <= i < |s| ==> pq(s[i]) == (p(s[i]) && q(s[i]))
    ensures Filter(Filter(s, p), q) == Filter(s, pq)
    decreases |s|
  {
    if s != [] {
      assert forall i :: 0 <= i < |s[1..]| ==> s[1..][i] == s[i + 1];
      FilterThen(s[1..], p, q, pq);
      var head := if p(s[0]) then [s[0]] else [];
      FilterAppend(head, Filter(s[1..], p), q);
      if p(s[0]) {
        assert Filter(head, q) == (if q(s[0]) then [s[0]] else []) + Filter([], q);
      }
    }
  }

  /** Filtering only depends on the values the predicate takes on the elements. */
  lemma {:induction false} FilterExt<T(!new)>(s: seq<T>, p: T -> bool, q: T -> bool)
    requires forall i :: 0 <= i < |s| ==> p(s[i]) == q(s[i])
    ensures Filter(s, p) == Filter(s, q)
    decreases |s|
  {
    if s != [] {
      assert forall i :: 0 <= i < |s[1..]| ==> s[1..][i] == s[i + 1];
      FilterExt(s[1..], p, q);
    }
  }

  /** An element of `s` before the first occurrence of `Filter(s, p)[k]` that passes `p` sits in
      the filtered list before position `k`: so when `k` is a first minimum there, it is one in `s`. */
  lemma FirstMinOfFilter<T(!new)>(s: seq<T>, p: T -> bool, key: T -> int, k: nat)
    requires k < |Filter(s, p)|
    requires forall j :: 0 <= j < k ==> key(Filter(s, p)[k]) < key(Filter(s, p)[j])
    ensures Filter(s, p)[k] in s
    ensures forall j :: 0 <= j < IndexOf(s, Filter(s, p)[k]) && p(s[j]) ==>
                          key(Filter(s, p)[k]) < key(s[j])
  {
    var f := Filter(s, p);
    assert f[k] in f;
    var n := IndexOf(s, f[k]);
    var head := Filter(s[..n], p);
    FilterBeforeFirst(s, p, f[k], n);
    PrefixBeforeMin(f, head, key, k);
    forall j | 0 <= j < n && p(s[j]) ensures key(f[k]) < key(s[j]) {
      assert s[..n][j] == s[j];
      assert s[j] in head;
    }
  }

  /** Filtering the part of `s` before the first `m` gives a prefix of the filtered list without `m`. */
  lemma FilterBeforeFirst<T(!new)>(s: seq<T>, p: T -> bool, m: T, n: nat)
    requires m in s && n == IndexOf(s, m)
    ensures Filter(s[..n], p) <= Filter(s, p)
    ensures m !in Filter(s[..n], p)
  {
    assert s == s[..n] + s[n..];
    FilterAppend(s[..n], s[n..], p);
    assert forall j :: 0 <= j < n ==> s[..n][j] == s[j];
  }

  /** A prefix that does not hold `f[k]` ends at or before `k`, so a first minimum at `k` is
      strictly smaller than every element of it. */
  lemma PrefixBeforeMin<T>(f: seq<T>, head: seq<T>, key: T -> int, k: nat)
    requires head <= f && k < |f| && f[k] !in head
    requires forall j :: 0 <= j < k ==> key(f[k]) < key(f[j])
    ensures forall x :: x in head ==> key(f[k]) < key(x)
  {
    assert forall i :: 0 <= i < |head| ==> f[i] == head[i] && head[i] in head;
    forall x | x in head ensures key(f[k]) < key(x) {
      var i :| 0 <= i < |head| && head[i] == x;
    }
  }

  lemma {:induction false} FilterAppend<T(!new)>(a: seq<T>, b: seq<T>, p: T -> bool)
    ensures Filter(a + b, p) == Filter(a, p) + Filter(b, p)
    decreases |a|
  {
    if a == [] {
      assert a + b == b;
    } else {
      FilterAppend(a[1..], b, p);
      assert a + b != [] && (a + b)[0] == a[0] && (a + b)[1..] == a[1..] + b;
      var head := if p(a[0]) then [a[0]] else [];
      assert Filter(a + b, p) == head + Filter(a[1..] + b, p);
      assert Filter(a, p) == head + Filter(a[1..], p);
      assert head + (Filter(a[1..], p) + Filter(b, p)) == (head + Filter(a[1..], p)) + Filter(b, p);
    }
  }

  /** One conditional `result = result.filter { step(it) }` of a chain of filters: applied when
      `guard` holds, skipped otherwise. Seen from the list `all` the chain started from, the
      running result goes from the elements passing `prev` to those passing `next`. */
  method FilterStep<T(==,!new)>(result: seq<T>, ghost all: seq<T>, guard: bool, step: T -> bool,
                                ghost prev: T -> bool, ghost next: T -> bool) returns (r: seq<T>)
    requires result == Filter(all, prev)
    requires forall i :: 0 <= i < |all| ==> next(all[i]) == (prev(all[i]) && (guard ==> step(all[i])))
    ensures r == (if guard then Filter(result, step) else result)
    ensures r == Filter(all, next)
  {
    if guard {
      r := Filter(result, step);
      FilterThen(all, prev, step, next);
    } else {
      r := result;
      FilterExt(all, prev, next);
    }
  }

  /** `list.count { p(it) }`. */
  function Count<T(==,!new)>(s: seq<T>, p: T -> bool): nat {
    |Filter(s, p)|
  }

  /** `list.find { p(it) }` and Swift's `first(where:)`: the first element satisfying `p`. */
  function Find<T>(s: seq<T>, p: T -> bool): (r: Option<T>)
    ensures r.None? <==> forall i :: 0 <= i < |s| ==> !p(s[i])
    ensures r.Some? ==> exists k :: 0 <= k < |s| && s[k] == r.value && p(s[k]) &&
                                    forall j :: 0 <= j < k ==> !p(s[j])
    decreases |s|
  {
    if s == [] then None
    else if p(s[0]) then Some(s[0])
    else
      var r := Find(s[1..], p);
      assert r.Some? ==> exists k :: 0 <= k < |s| - 1 && s[1..][k] == r.value && p(s[1..][k]) &&
                                     forall j :: 0 <= j < k ==> !p(s[1..][j]);
      assert r.Some? ==> exists k :: 1 <= k < |s| && s[k] == r.value && p(s[k]) &&
                                     forall j :: 0 <= j < k ==> !p(s[j]) by {
        if r.Some? {
          var k :| 0 <= k < |s| - 1 && s[1..][k] == r.value && p(s[1..][k]) &&
                   forall j :: 0 <= j < k ==> !p(s[1..][j]);
          assert s[k + 1] == r.value && p(s[k + 1]);
          forall j | 0 <= j < k + 1 ensures !p(s[j]) {
            if j > 0 { assert s[j] == s[1..][j - 1]; }
          }
        }
      }
      r
  }

  /** The position of the first occurrence of `x`. */
  function IndexOf<T(==)>(s: seq<T>, x: T): (k: nat)
    requires x in s
    ensures k < |s| && s[k] == x
    ensures forall j :: 0 <= j < k ==> s[j] != x
    decreases |s|
  {
    if s[0] == x then 0
    else
      assert x in s[1..];
      var k := IndexOf(s[1..], x);
      assert forall j :: 0 < j < k + 1 ==> s[j] == s[1..][j - 1];
      k + 1
  }

  /** Sum of `f` over the elements of `s`. */
  function SumOf<T>(s: seq<T>, f: T -> int): int
    decreases |s|
  {
    if s == [] then 0 else SumOf(s[..|s| - 1], f) + f(s[|s| - 1])
  }

  lemma {:induction false} SumOfCons<T>(x: T, s: seq<T>, f: T -> int)
    ensures SumOf([x] + s, f) == f(x) + SumOf(s, f)
    decreases |s|
  {
    if s != [] {
      assert ([x] + s)[..|s|] == [x] + s[..|s| - 1];
      SumOfCons(x, s[..|s| - 1], f);
    }
  }

  /** Dropping elements on which `f` is zero does not change the sum. */
  lemma {:induction false} SumOfFilterZero<T(!new)>(s: seq<T>, f: T -> int, p: T -> bool)
    requires forall i :: 0 <= i < |s| && !p(s[i]) ==> f(s[i]) == 0
    ensures SumOf(Filter(s, p), f) == SumOf(s, f)
    decreases |s|
  {
    if s != [] {
      var t := s[1..];
      assert forall i :: 0 <= i < |t| && !p(t[i]) ==> f(t[i]) == 0 by {
        assert forall i :: 0 <= i < |t| ==> t[i] == s[i + 1];
      }
      SumOfFilterZero(t, f, p);
      var rest := Filter(t, p);
      assert SumOf(s, f) == f(s[0]) + SumOf(t, f) by {
        assert s == [s[0]] + t;
        SumOfCons(s[0], t, f);
      }
      if p(s[0]) {
        assert Filter(s, p) == [s[0]] + rest;
        SumOfCons(s[0], rest, f);
      } else {
        assert Filter(s, p) == rest;
      }
    }
  }

  /** Bounds on every term bound the sum. */
  lemma {:induction false} SumOfBounds<T>(s: seq<T>, f: T -> int, lo: int, hi: int)
    requires forall i :: 0 <= i < |s| ==> lo <= f(s[i]) <= hi
    ensures |s| * lo <= SumOf(s, f) <= |s| * hi
    decreases |s|
  {
    if s != [] {
      assert forall i :: 0 <= i < |s| - 1 ==> s[..|s| - 1][i] == s[i];
      SumOfBounds(s[..|s| - 1], f, lo, hi);
      assert |s| * lo == (|s| - 1) * lo + lo;
      assert |s| * hi == (|s| - 1) * hi + hi;
    }
  }

  /** The first index where `key` is largest: Kotlin's `maxByOrNull` and Swift's `max(by:)`,
      which both replace the running best only on a strictly greater key. */
  function ArgMaxFirst<T>(s: seq<T>, key: T -> int): (k: nat)
    requires |s| > 0
    ensures k < |s|
    ensures forall j :: 0 <= j < |s| ==> key(s[j]) <= key(s[k])
    ensures forall j :: 0 <= j < k ==> key(s[j]) < key(s[k])
    decreases |s|
  {
    if |s| == 1 then 0
    else
      var k := ArgMaxFirst(s[..|s| - 1], key);
      assert forall j :: 0 <= j < |s| - 1 ==> s[..|s| - 1][j] == s[j];
      if key(s[|s| - 1]) > key(s[k]) then |s| - 1 else k
  }

  /** The first index where `key` is smallest: Kotlin's `minByOrNull`. */
  function ArgMinFirst<T>(s: seq<T>, key: T -> int): (k: nat)
    requires |s| > 0
    ensures k < |s|
    ensures forall j :: 0 <= j < |s| ==> key(s[k]) <= key(s[j])
    ensures forall j :: 0 <= j < k ==> key(s[k]) < key(s[j])
    decreases |s|
  {
    if |s| == 1 then 0
    else
      var k := ArgMinFirst(s[..|s| - 1], key);
      assert forall j :: 0 <= j < |s| - 1 ==> s[..|s| - 1][j] == s[j];
      if key(s[|s| - 1]) < key(s[k]) then |s| - 1 else k
  }

  function MaxByOrNull<T>(s: seq<T>, key: T -> int): (r: Option<T>)
    ensures r.None? <==> s == []
  {
    if s == [] then None else Some(s[ArgMaxFirst(s, key)])
  }

  function MinByOrNull<T>(s: seq<T>, key: T -> int): (r: Option<T>)
    ensures r.None? <==> s == []
  {
    if s == [] then None else Some(s[ArgMinFirst(s, key)])
  }
}
