/** Order-preserving filtering of lists (LINQ Where(...).ToList() and RemoveWhere). */
module Seqs {

  /** The elements of `s` that satisfy `p`, in their original order. */
  function Filter<T>(s: seq<T>, p: T -> bool): (r: seq<T>)
    ensures |r| <= |s|
    ensures forall x :: x in r ==> x in s && p(x)
  {
    if s == [] then [] else (if p(s[0]) then [s[0]] else []) + Filter(s[1..], p)
  }

  /** `a` is obtained from `b` by deleting elements, without reordering. */
  predicate IsSubsequence<T(==)>(a: seq<T>, b: seq<T>)
    decreases |b|
  {
    if b == [] then a == []
    else (a != [] && a[0] == b[0] && IsSubsequence(a[1..], b[1..])) || IsSubsequence(a, b[1..])
  }

  predicate NoDuplicates<T(==)>(s: seq<T>) {
    forall i, j :: 0 <= i < j < |s| ==> s[i] != s[j]
  }

  lemma {:induction false} FilterIsSubsequence<T>(s: seq<T>, p: T -> bool)
    ensures IsSubsequence(Filter(s, p), s)
  {
    if s != [] {
      FilterIsSubsequence(s[1..], p);
      var rest := Filter(s[1..], p);
      if p(s[0]) {
        assert Filter(s, p) == [s[0]] + rest;
        assert ([s[0]] + rest)[1..] == rest;
      } else {
        assert Filter(s, p) == rest;
      }
    }
  }

  /** An element survives the filter exactly when it was in the list and satisfies the predicate. */
  lemma {:induction false} FilterMembership<T>(s: seq<T>, p: T -> bool, x: T)
    ensures x in Filter(s, p) <==> x in s && p(x)
  {
    if s != [] {
      FilterMembership(s[1..], p, x);
      assert s == [s[0]] + s[1..];
    }
  }

  /** Filtering by `p` and then by `q` is filtering once by both. */
  lemma {:induction false} FilterCompose<T>(s: seq<T>, p: T -> bool, q: T -> bool)
    ensures Filter(Filter(s, p), q) == Filter(s, x => p(x) && q(x))
  {
    if s != [] {
      FilterCompose(s[1..], p, q);
      var rest := Filter(s[1..], p);
      var pq := x => p(x) && q(x);
      assert Filter(s, pq) == (if pq(s[0]) then [s[0]] else []) + Filter(s[1..], pq);
      if p(s[0]) {
        assert Filter(s, p) == [s[0]] + rest;
        assert ([s[0]] + rest)[1..] == rest;
        assert Filter([s[0]] + rest, q) == (if q(s[0]) then [s[0]] else []) + Filter(rest, q);
      } else {
        assert Filter(s, p) == rest;
        assert Filter(s, pq) == Filter(s[1..], pq);
      }
    }
  }

  /** Filtering twice by the same predicate changes nothing the second time. */
  lemma {:induction false} FilterIdempotent<T>(s: seq<T>, p: T -> bool)
    ensures Filter(Filter(s, p), p) == Filter(s, p)
  {
    if s != [] {
      FilterIdempotent(s[1..], p);
      var rest := Filter(s[1..], p);
      if p(s[0]) {
        assert Filter(s, p) == [s[0]] + rest;
        assert ([s[0]] + rest)[1..] == rest;
        assert Filter([s[0]] + rest, p) == [s[0]] + Filter(rest, p);
      } else {
        assert Filter(s, p) == rest;
      }
    }
  }

  /** A predicate every element satisfies keeps the whole list. */
  lemma {:induction false} FilterKeepsAll<T>(s: seq<T>, p: T -> bool)
    requires forall i :: 0 <= i < |s| ==> p(s[i])
    ensures Filter(s, p) == s
  {
    if s != [] {
      FilterKeepsAll(s[1..], p);
      assert s == [s[0]] + s[1..];
    }
  }

  /** Filtering distributes over concatenation. */
  lemma {:induction false} FilterAppend<T>(a: seq<T>, b: seq<T>, p: T -> bool)
    ensures Filter(a + b, p) == Filter(a, p) + Filter(b, p)
  {
    if a != [] {
      FilterAppend(a[1..], b, p);
      assert (a + b)[1..] == a[1..] + b;
    } else {
      assert a + b == b;
    }
  }

  /** A predicate no element satisfies leaves nothing. */
  lemma {:induction false} FilterNoneOf<T>(a: seq<T>, p: T -> bool)
    requires forall i :: 0 <= i < |a| ==> !p(a[i])
    ensures Filter(a, p) == []
  {
    if a != [] {
      FilterNoneOf(a[1..], p);
    }
  }

  /** Every list is a subsequence of itself. */
  lemma {:induction false} SubsequenceOfSelf<T>(s: seq<T>)
    ensures IsSubsequence(s, s)
  {
    if s != [] {
      SubsequenceOfSelf(s[1..]);
    }
  }
}
