/** Ranking helpers for `sort_by { |q| -q[sort] }.first(100)` followed by
    `reject!`. Ruby's `sort_by` is not stable, so the model only promises what any
    correct sort gives: a permutation, non-increasing by the key. */
module Ranking {

  predicate SortedDesc<T>(xs: seq<T>, key: T -> real) {
    forall i, j :: 0 <= i < j < |xs| ==> key(xs[i]) >= key(xs[j])
  }

  /** Inserts `x` into a list sorted by non-increasing key. */
  function Insert<T>(x: T, xs: seq<T>, key: T -> real): (r: seq<T>)
    requires SortedDesc(xs, key)
    ensures SortedDesc(r, key)
    ensures multiset(r) == multiset(xs) + multiset{x}
    decreases |xs|
  {
    if xs == [] || key(x) >= key(xs[0]) then
      HeadBounds(xs, key, key(x));
      ConsSorted(x, xs, key);
      [x] + xs
    else
      var rest := Insert(x, xs[1..], key);
      assert xs == [xs[0]] + xs[1..];
      HeadBounds(xs[1..], key, key(xs[0]));
      AtMostByMultiset(rest, xs[1..], x, key, key(xs[0]));
      ConsSorted(xs[0], rest, key);
      [xs[0]] + rest
  }

  /** Every key in `xs` is at most `b`. */
  predicate AtMost<T>(xs: seq<T>, key: T -> real, b: real) {
    forall i :: 0 <= i < |xs| ==> key(xs[i]) <= b
  }

  /** A sorted list is bounded by anything its head does not exceed. */
  lemma HeadBounds<T>(xs: seq<T>, key: T -> real, b: real)
    requires SortedDesc(xs, key) && (xs == [] || key(xs[0]) <= b)
    ensures AtMost(xs, key, b)
  {
    forall i | 0 <= i < |xs| ensures key(xs[i]) <= b {
      if i > 0 {
        assert key(xs[0]) >= key(xs[i]);
      }
    }
  }

  lemma AtMostByMultiset<T>(r: seq<T>, ys: seq<T>, x: T, key: T -> real, b: real)
    requires multiset(r) == multiset(ys) + multiset{x}
    requires AtMost(ys, key, b) && key(x) <= b
    ensures AtMost(r, key, b)
  {
    forall i | 0 <= i < |r| ensures key(r[i]) <= b {
      assert r[i] in multiset(r);
      if r[i] != x {
        assert r[i] in multiset(ys);
        var k :| 0 <= k < |ys| && ys[k] == r[i];
      }
    }
  }

  lemma ConsSorted<T>(y: T, rest: seq<T>, key: T -> real)
    requires SortedDesc(rest, key) && AtMost(rest, key, key(y))
    ensures SortedDesc([y] + rest, key)
  {
    var r := [y] + rest;
    forall i, j | 0 <= i < j < |r| ensures key(r[i]) >= key(r[j]) {
      assert r[j] == rest[j - 1];
      if i > 0 {
        assert r[i] == rest[i - 1];
      }
    }
  }

  /** A sort by non-increasing key (one admissible outcome of Ruby's `sort_by` on
      the negated key). */
  function SortDesc<T>(xs: seq<T>, key: T -> real): (r: seq<T>)
    ensures SortedDesc(r, key)
    ensures multiset(r) == multiset(xs)
    decreases |xs|
  {
    if xs == [] then []
    else
      assert xs == [xs[0]] + xs[1..];
      Insert(xs[0], SortDesc(xs[1..], key), key)
  }

  /** Ruby's `first(n)`. */
  function Take<T>(xs: seq<T>, n: nat): (r: seq<T>)
    ensures |r| == if |xs| < n then |xs| else n
    ensures r == xs[..|r|]
  {
    if |xs| <= n then xs else xs[..n]
  }

  /** `a` is `b` with some elements left out, order kept. */
  predicate IsSubseq<T(==)>(a: seq<T>, b: seq<T>)
    decreases |b|
  {
    if a == [] then true
    else if b == [] then false
    else if a[0] == b[0] then IsSubseq(a[1..], b[1..])
    else IsSubseq(a, b[1..])
  }

  /** Ruby's `select` (and `reject!` of the complement): the elements satisfying `p`,
      in order. */
  function Keep<T(==)>(xs: seq<T>, p: T -> bool): (r: seq<T>)
    ensures forall i :: 0 <= i < |r| ==> p(r[i])
    ensures forall i :: 0 <= i < |xs| && p(xs[i]) ==> xs[i] in r
    ensures IsSubseq(r, xs)
    ensures multiset(r) <= multiset(xs)
    ensures |r| <= |xs|
    decreases |xs|
  {
    if xs == [] then []
    else
      var rest := Keep(xs[1..], p);
      assert xs == [xs[0]] + xs[1..];
      assert forall i :: 1 <= i < |xs| ==> xs[i] == xs[1..][i - 1];
      if p(xs[0]) then
        assert ([xs[0]] + rest)[1..] == rest;
        [xs[0]] + rest
      else
        assert IsSubseq(rest, xs) by { SubseqTail(rest, xs); }
        rest
  }

  /** Every element that passes is kept as many times as it occurs. */
  lemma {:induction false} KeepCounts<T>(xs: seq<T>, p: T -> bool, x: T)
    requires p(x)
    ensures multiset(Keep(xs, p))[x] == multiset(xs)[x]
    decreases |xs|
  {
    if xs != [] {
      KeepCounts(xs[1..], p, x);
      assert xs == [xs[0]] + xs[1..];
      var rest := Keep(xs[1..], p);
      if p(xs[0]) {
        assert Keep(xs, p) == [xs[0]] + rest;
        assert multiset(Keep(xs, p)) == multiset{xs[0]} + multiset(rest);
      }
    }
  }

  /** When every element passes, nothing is dropped. */
  lemma {:induction false} KeepAll<T>(xs: seq<T>, p: T -> bool)
    requires forall i :: 0 <= i < |xs| ==> p(xs[i])
    ensures Keep(xs, p) == xs
    decreases |xs|
  {
    if xs != [] {
      assert forall i :: 0 <= i < |xs[1..]| ==> p(xs[1..][i]) by {
        forall i | 0 <= i < |xs[1..]| ensures p(xs[1..][i]) { assert xs[1..][i] == xs[i + 1]; }
      }
      KeepAll(xs[1..], p);
      assert p(xs[0]);
    }
  }

  /** A subsequence stays one when its first element is dropped. */
  lemma {:induction false} SubseqDropFirst<T>(a: seq<T>, b: seq<T>)
    requires a != [] && IsSubseq(a, b)
    ensures IsSubseq(a[1..], b)
    decreases |a| + |b|
  {
    if a[0] == b[0] {
      SubseqTail(a[1..], b);
    } else {
      SubseqDropFirst(a, b[1..]);
      SubseqTail(a[1..], b);
    }
  }

  /** A subsequence of the tail of `b` is a subsequence of `b`. */
  lemma {:induction false} SubseqTail<T>(a: seq<T>, b: seq<T>)
    requires b != [] && IsSubseq(a, b[1..])
    ensures IsSubseq(a, b)
    decreases |a| + |b|
  {
    if a != [] && a[0] == b[0] {
      SubseqDropFirst(a, b[1..]);
    }
  }

  /** A subsequence of a suffix of `b` is a subsequence of `b`. */
  lemma {:induction false} SubseqSuffix<T>(a: seq<T>, b: seq<T>, k: nat)
    requires k <= |b| && IsSubseq(a, b[k..])
    ensures IsSubseq(a, b)
    decreases k
  {
    if k > 0 {
      assert b[k..] == b[1..][k - 1..];
      SubseqSuffix(a, b[1..], k - 1);
      SubseqTail(a, b);
    }
  }

  /** Being a subsequence is transitive. */
  lemma {:induction false} SubseqTrans<T>(a: seq<T>, b: seq<T>, c: seq<T>)
    requires IsSubseq(a, b) && IsSubseq(b, c)
    ensures IsSubseq(a, c)
    decreases |c|
  {
    if a != [] {
      if b[0] == c[0] {
        if a[0] == b[0] {
          SubseqTrans(a[1..], b[1..], c[1..]);
        } else {
          SubseqTrans(a, b[1..], c[1..]);
          SubseqTail(a, c);
        }
      } else {
        SubseqTrans(a, b, c[1..]);
        SubseqTail(a, c);
      }
    }
  }

  lemma {:induction false} SubseqMembers<T>(a: seq<T>, b: seq<T>)
    requires IsSubseq(a, b)
    ensures forall i :: 0 <= i < |a| ==> a[i] in b
    decreases |b|
  {
    if a != [] && b != [] {
      if a[0] == b[0] {
        SubseqMembers(a[1..], b[1..]);
        assert forall i :: 1 <= i < |a| ==> a[i] == a[1..][i - 1];
      } else {
        SubseqMembers(a, b[1..]);
      }
    }
  }

  /** An order-preserving subsequence of a sorted list is sorted. */
  lemma {:induction false} SubseqKeepsOrder<T>(a: seq<T>, b: seq<T>, key: T -> real)
    requires IsSubseq(a, b) && SortedDesc(b, key)
    ensures SortedDesc(a, key)
    decreases |b|
  {
    if a != [] && b != [] {
      if a[0] == b[0] {
        SubseqKeepsOrder(a[1..], b[1..], key);
        SubseqMembers(a[1..], b[1..]);
        forall i, j | 0 <= i < j < |a| ensures key(a[i]) >= key(a[j]) {
          assert a[j] == a[1..][j - 1];
          var k :| 0 <= k < |b[1..]| && b[1..][k] == a[j];
          if i > 0 { assert a[i] == a[1..][i - 1]; }
        }
      } else {
        SubseqKeepsOrder(a, b[1..], key);
      }
    }
  }
}
