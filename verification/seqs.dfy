/** Order-preserving selection over sequences.

    Every reducer in the visibility engine is a stable filter: the radius
    test of `nearby_data`, the store-building mask, the per-sample
    visibility test and the Overpass element decoding all keep some of their
    input, in input order. They are defined once here. */
module Seqs {
  import opened Common

  /** `r` can be obtained from `s` by deleting elements. */
  ghost predicate IsSubseq<T>(r: seq<T>, s: seq<T>)
    decreases |s|
  {
    && |r| <= |s|
    && (|r| == 0 || (r[0] == s[0] && IsSubseq(r[1..], s[1..])) || IsSubseq(r, s[1..]))
  }

  /** The elements of `s` that satisfy `p`, in the order of `s`. */
  function Filter<T(!new)>(s: seq<T>, p: T -> bool): (r: seq<T>)
    ensures |r| <= |s|
    ensures forall k :: 0 <= k < |r| ==> p(r[k]) && r[k] in s
    ensures forall k :: 0 <= k < |s| && p(s[k]) ==> s[k] in r
  {
    if |s| == 0 then []
    else
      var rest := Filter(s[1..], p);
      assert forall k :: 1 <= k < |s| ==> s[k] == s[1..][k - 1];
      if p(s[0]) then [s[0]] + rest else rest
  }

  /** A filter keeps every occurrence of each element satisfying its
      predicate and none of the others. */
  lemma {:induction false} FilterMultiset<T(!new)>(s: seq<T>, p: T -> bool)
    ensures forall x :: p(x) ==> multiset(Filter(s, p))[x] == multiset(s)[x]
    ensures forall x :: !p(x) ==> multiset(Filter(s, p))[x] == 0
  {
    if |s| > 0 {
      FilterMultiset(s[1..], p);
      assert s == [s[0]] + s[1..];
      assert multiset(s) == multiset{s[0]} + multiset(s[1..]);
      if p(s[0]) {
        assert multiset(Filter(s, p)) == multiset{s[0]} + multiset(Filter(s[1..], p));
      }
    }
  }

  /** A filter's result is a subsequence of its input. */
  lemma {:induction false} FilterSubseq<T(!new)>(s: seq<T>, p: T -> bool)
    ensures IsSubseq(Filter(s, p), s)
  {
    if |s| > 0 {
      FilterSubseq(s[1..], p);
      if p(s[0]) {
        assert Filter(s, p)[1..] == Filter(s[1..], p);
      }
    }
  }

  // The identities below need no proof: Dafny knows each of them. Callers
  // invoke them to state one such fact at the point where it is needed,
  // which keeps the solver from searching for it among many sequence terms
  // in a longer proof.

  /** A non-empty sequence is its head followed by its tail. */
  lemma HeadAndTail<T>(s: seq<T>)
    requires |s| > 0
    ensures [s[0]] + s[1..] == s
  {
  }

  lemma AppendAssoc<T>(a: seq<T>, b: seq<T>, c: seq<T>)
    ensures a + b + c == a + (b + c)
  {
  }

  lemma HeadOfAppend<T>(a: seq<T>, b: seq<T>)
    requires |a| > 0
    ensures (a + b)[0] == a[0]
  {
  }

  lemma InAppendRight<T>(a: seq<T>, b: seq<T>, x: T)
    requires x in b
    ensures x in a + b
  {
  }

  lemma TakeDrop<T>(s: seq<T>, i: int)
    requires 0 <= i <= |s|
    ensures s[..i] + s[i..] == s
  {
  }

  lemma DropOfAppend<T>(a: seq<T>, b: seq<T>, i: int)
    requires 0 <= i <= |a|
    ensures (a + b)[i..] == a[i..] + b
  {
  }

  lemma DropPrefix<T>(a: seq<T>, b: seq<T>)
    ensures (a + b)[|a|..] == b
  {
  }

  /** The values `f` yields on the elements of `s`, skipping `None`, in the
      order of `s`: a list comprehension `[g(x) for x in s if c(x)]`. */
  function FilterMap<T, U>(s: seq<T>, f: T -> Option<U>): (r: seq<U>)
    ensures |r| <= |s|
    ensures (forall k :: 0 <= k < |s| ==> f(s[k]).Some?) ==> |r| == |s|
    ensures (forall k :: 0 <= k < |s| ==> f(s[k]).None?) ==> r == []
  {
    if |s| == 0 then []
    else
      match f(s[0])
      case Some(v) => [v] + FilterMap(s[1..], f)
      case None => FilterMap(s[1..], f)
  }

  /** The integers `lo, lo + 1, ..., hi - 1`: Python's `range(lo, hi)`. */
  function Range(lo: int, hi: int): (r: seq<int>)
    ensures |r| == if lo <= hi then hi - lo else 0
    ensures forall k :: 0 <= k < |r| ==> r[k] == lo + k
    decreases hi - lo
  {
    if hi <= lo then [] else [lo] + Range(lo + 1, hi)
  }

  /** Number of elements of `s` satisfying `p`. */
  function Count<T>(s: seq<T>, p: T -> bool): nat
  {
    if |s| == 0 then 0 else (if p(s[0]) then 1 else 0) + Count(s[1..], p)
  }

  function Negate<T>(p: T -> bool): T -> bool
  {
    x => !p(x)
  }

  function Defined<T, U>(f: T -> Option<U>): T -> bool
  {
    x => f(x).Some?
  }

  /** A filter keeps exactly as many elements as satisfy its predicate, and
      the kept and dropped parts together account for the whole input. */
  lemma {:induction false} FilterPartition<T(!new)>(s: seq<T>, p: T -> bool)
    ensures |Filter(s, p)| == Count(s, p)
    ensures |Filter(s, p)| + |Filter(s, Negate(p))| == |s|
  {
    if |s| > 0 {
      FilterPartition(s[1..], p);
    }
  }

  /** Filtering a selection again with a narrower predicate gives the
      narrower selection of the original: `Filter(s, p)` for `p == q` makes
      filtering idempotent. */
  lemma {:induction false} FilterNarrow<T(!new)>(s: seq<T>, p: T -> bool, q: T -> bool)
    requires forall x :: p(x) ==> q(x)
    ensures Filter(Filter(s, q), p) == Filter(s, p)
  {
    if |s| > 0 {
      FilterNarrow(s[1..], p, q);
      if q(s[0]) {
        var rest := Filter(s[1..], q);
        assert ([s[0]] + rest)[1..] == rest;
      }
    }
  }

  /** Filters by pointwise-equal predicates agree. */
  lemma {:induction false} FilterCongruent<T(!new)>(s: seq<T>, p: T -> bool, q: T -> bool)
    requires forall k :: 0 <= k < |s| ==> p(s[k]) == q(s[k])
    ensures Filter(s, p) == Filter(s, q)
  {
    if |s| > 0 {
      FilterCongruent(s[1..], p, q);
    }
  }

  /** Counts by pointwise-equal predicates agree. */
  lemma {:induction false} CountCongruent<T>(s: seq<T>, p: T -> bool, q: T -> bool)
    requires forall k :: 0 <= k < |s| ==> p(s[k]) == q(s[k])
    ensures Count(s, p) == Count(s, q)
  {
    if |s| > 0 {
      CountCongruent(s[1..], p, q);
    }
  }

  /** A filter whose predicate holds everywhere returns its input unchanged. */
  lemma {:induction false} FilterAll<T(!new)>(s: seq<T>, p: T -> bool)
    requires forall k :: 0 <= k < |s| ==> p(s[k])
    ensures Filter(s, p) == s
  {
    if |s| > 0 {
      FilterAll(s[1..], p);
      assert s == [s[0]] + s[1..];
    }
  }

  /** A filter on `Range(lo, hi)` holds exactly the integers of the range
      that satisfy `p`. */
  lemma FilterRangeMembers(lo: int, hi: int, p: int -> bool)
    ensures forall i :: i in Filter(Range(lo, hi), p) <==> lo <= i < hi && p(i)
  {
    var s := Range(lo, hi);
    var r := Filter(s, p);
    FilterMultiset(s, p);
    forall i
      ensures i in r <==> lo <= i < hi && p(i)
    {
      if lo <= i < hi && p(i) {
        assert s[i - lo] == i;
      }
      if i in r {
        assert multiset(r)[i] > 0;
        assert i in multiset(s);
      }
    }
  }

  predicate Increasing(s: seq<int>)
  {
    forall a, b :: 0 <= a < b < |s| ==> s[a] < s[b]
  }

  /** A strictly increasing sequence of values in `[lo, hi]` has at most
      `hi - lo + 1` elements. */
  lemma {:induction false} IncreasingWithin(s: seq<int>, lo: int, hi: int)
    requires Increasing(s)
    requires forall k :: 0 <= k < |s| ==> lo <= s[k] <= hi
    ensures |s| > 0 ==> |s| <= hi - lo + 1
  {
    if |s| > 0 {
      assert lo <= s[0] <= hi;
    }
    if |s| > 1 {
      var rest := s[1..];
      assert forall k :: 0 <= k < |rest| ==> rest[k] == s[k + 1] && s[0] < s[k + 1];
      assert Increasing(rest);
      IncreasingWithin(rest, s[0] + 1, hi);
    }
  }

  /** A filter on `Range(lo, hi)` is strictly increasing. */
  lemma {:induction false} FilterRangeIncreasing(lo: int, hi: int, p: int -> bool)
    ensures Increasing(Filter(Range(lo, hi), p))
    decreases hi - lo
  {
    if lo < hi {
      var rest := Filter(Range(lo + 1, hi), p);
      FilterRangeIncreasing(lo + 1, hi, p);
      FilterRangeUnfold(lo, hi, p);
      if p(lo) {
        FilterRangeLowerBound(lo + 1, hi, p);
        ConsIncreasing(lo, rest);
      }
    }
  }

  lemma ConsIncreasing(x: int, rest: seq<int>)
    requires Increasing(rest)
    requires forall k :: 0 <= k < |rest| ==> rest[k] > x
    ensures Increasing([x] + rest)
  {
    var r := [x] + rest;
    forall a, b | 0 <= a < b < |r|
      ensures r[a] < r[b]
    {
      assert r[b] == rest[b - 1];
      if a > 0 {
        assert r[a] == rest[a - 1];
      }
    }
  }

  /** Every element kept from `Range(lo, hi)` is at least `lo`. */
  lemma FilterRangeLowerBound(lo: int, hi: int, p: int -> bool)
    ensures forall k :: 0 <= k < |Filter(Range(lo, hi), p)| ==> Filter(Range(lo, hi), p)[k] >= lo
  {
    var s := Range(lo, hi);
    var r := Filter(s, p);
    forall k | 0 <= k < |r|
      ensures r[k] >= lo
    {
      assert r[k] in s;
      var j :| 0 <= j < |s| && s[j] == r[k];
    }
  }

  /** One step of the filter on `Range(lo, hi)`. */
  lemma FilterRangeUnfold(lo: int, hi: int, p: int -> bool)
    requires lo < hi
    ensures Filter(Range(lo, hi), p)
            == if p(lo) then [lo] + Filter(Range(lo + 1, hi), p) else Filter(Range(lo + 1, hi), p)
  {
    assert Range(lo, hi)[1..] == Range(lo + 1, hi);
  }

  /** `r` holds, position by position, the values `f` yields on `q`. */
  ghost predicate Aligned<T, U>(q: seq<T>, r: seq<U>, f: T -> Option<U>)
  {
    |q| == |r| && forall k :: 0 <= k < |r| ==> f(q[k]) == Some(r[k])
  }

  /** A filter-map lines up with the filter on "is defined": the k-th
      output is the value at the k-th input that has one. */
  lemma {:induction false} FilterMapAligned<T(!new), U>(s: seq<T>, f: T -> Option<U>)
    ensures Aligned(Filter(s, Defined(f)), FilterMap(s, f), f)
  {
    if |s| > 0 {
      FilterMapAligned(s[1..], f);
      if f(s[0]).Some? {
        ConsAligned(s[0], Filter(s[1..], Defined(f)), f(s[0]).value, FilterMap(s[1..], f), f);
      }
    }
  }

  lemma ConsAligned<T, U>(x: T, q: seq<T>, v: U, r: seq<U>, f: T -> Option<U>)
    requires Aligned(q, r, f) && f(x) == Some(v)
    ensures Aligned([x] + q, [v] + r, f)
  {
    forall k | 1 <= k < |r| + 1
      ensures f(([x] + q)[k]) == Some(([v] + r)[k])
    {
      assert ([x] + q)[k] == q[k - 1];
    }
  }

  /** A filter-map never yields more values than there are inputs satisfying
      any `p` that every defined input satisfies. */
  lemma {:induction false} FilterMapBound<T, U>(s: seq<T>, f: T -> Option<U>, p: T -> bool)
    requires forall k :: 0 <= k < |s| && f(s[k]).Some? ==> p(s[k])
    ensures |FilterMap(s, f)| <= Count(s, p)
  {
    if |s| > 0 {
      FilterMapBound(s[1..], f, p);
    }
  }

}
