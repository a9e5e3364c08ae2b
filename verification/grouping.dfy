/** The Ruby collection operations the merge passes rely on: `find`, `sum`,
    `group_by` (buckets in first-appearance order), `index_by` (last element wins)
    and `uniq`. `GroupBy` is written as Ruby builds it, one element at a time;
    `Keys` and `Select` give the declarative reading it is proved equal to. */
module Grouping {
  import opened Wrappers

  /** Ruby's `find`: the first element satisfying `p`. */
  function Find<T>(xs: seq<T>, p: T -> bool): (r: Option<T>)
    ensures r.None? <==> forall i :: 0 <= i < |xs| ==> !p(xs[i])
    ensures r.Some? ==> exists i :: 0 <= i < |xs| && xs[i] == r.value && p(xs[i])
                                    && forall j :: 0 <= j < i ==> !p(xs[j])
    decreases |xs|
  {
    if xs == [] then None
    else if p(xs[0]) then Some(xs[0])
    else
      var r := Find(xs[1..], p);
      assert r.Some? ==> exists i :: 0 <= i < |xs| && xs[i] == r.value && p(xs[i])
                                     && forall j :: 0 <= j < i ==> !p(xs[j]) by {
        if r.Some? {
          var i :| 0 <= i < |xs[1..]| && xs[1..][i] == r.value && p(xs[1..][i])
                   && forall j :: 0 <= j < i ==> !p(xs[1..][j]);
          assert xs[i + 1] == r.value;
          assert forall j :: 0 <= j < i + 1 ==> !p(xs[j]) by {
            forall j | 0 <= j < i + 1 ensures !p(xs[j]) {
              if j > 0 { assert xs[j] == xs[1..][j - 1]; }
            }
          }
        }
      }
      r
  }

  // ---------------------------------------------------------------------------
  // Sums

  /** Ruby's `sum { |x| f(x) }` over reals. */
  function SumOf<T>(xs: seq<T>, f: T -> real): real
    decreases |xs|
  {
    if xs == [] then 0.0 else f(xs[0]) + SumOf(xs[1..], f)
  }

  /** Ruby's `sum { |x| f(x) }` over integers. */
  function SumInt<T>(xs: seq<T>, f: T -> int): int
    decreases |xs|
  {
    if xs == [] then 0 else f(xs[0]) + SumInt(xs[1..], f)
  }

  lemma {:induction false} SumOfAppend<T>(xs: seq<T>, x: T, f: T -> real)
    ensures SumOf(xs + [x], f) == SumOf(xs, f) + f(x)
    decreases |xs|
  {
    if xs == [] {
      assert xs + [x] == [x];
    } else {
      assert (xs + [x])[1..] == xs[1..] + [x];
      SumOfAppend(xs[1..], x, f);
    }
  }

  lemma {:induction false} SumIntAppend<T>(xs: seq<T>, x: T, f: T -> int)
    ensures SumInt(xs + [x], f) == SumInt(xs, f) + f(x)
    decreases |xs|
  {
    if xs == [] {
      assert xs + [x] == [x];
    } else {
      assert (xs + [x])[1..] == xs[1..] + [x];
      SumIntAppend(xs[1..], x, f);
    }
  }

  /** A sum of positive integers over a non-empty sequence is positive. */
  lemma {:induction false} SumIntPositive<T>(xs: seq<T>, f: T -> int)
    requires |xs| > 0
    requires forall i :: 0 <= i < |xs| ==> f(xs[i]) > 0
    ensures SumInt(xs, f) > 0
    decreases |xs|
  {
    if |xs| > 1 {
      SumIntPositive(xs[1..], f);
    }
  }

  /** The sum over every group of the sum within the group. */
  function SumGroups<T>(gs: seq<seq<T>>, f: T -> real): real
    decreases |gs|
  {
    if gs == [] then 0.0 else SumOf(gs[0], f) + SumGroups(gs[1..], f)
  }

  function SumGroupsInt<T>(gs: seq<seq<T>>, f: T -> int): int
    decreases |gs|
  {
    if gs == [] then 0 else SumInt(gs[0], f) + SumGroupsInt(gs[1..], f)
  }

  // ---------------------------------------------------------------------------
  // group_by

  predicate Distinct<K(==)>(ks: seq<K>) {
    forall i, j :: 0 <= i < j < |ks| ==> ks[i] != ks[j]
  }

  /** The distinct keys of `xs`, in the order of their first appearance. */
  function Keys<T, K(==)>(xs: seq<T>, key: T -> K): (ks: seq<K>)
    ensures Distinct(ks)
    ensures forall i :: 0 <= i < |xs| ==> key(xs[i]) in ks
    ensures forall j :: 0 <= j < |ks| ==> exists i :: 0 <= i < |xs| && key(xs[i]) == ks[j]
    decreases |xs|
  {
    if xs == [] then []
    else
      var p := xs[..|xs| - 1];
      var ks := Keys(p, key);
      assert forall i :: 0 <= i < |p| ==> xs[i] == p[i];
      if key(xs[|xs| - 1]) in ks then ks else ks + [key(xs[|xs| - 1])]
  }

  /** The elements of `xs` whose key is `k`, in their original order. */
  function Select<T, K(==)>(xs: seq<T>, key: T -> K, k: K): (r: seq<T>)
    ensures forall i :: 0 <= i < |r| ==> key(r[i]) == k
    ensures r == [] <==> forall i :: 0 <= i < |xs| ==> key(xs[i]) != k
    ensures |r| <= |xs|
    decreases |xs|
  {
    if xs == [] then []
    else
      var p := xs[..|xs| - 1];
      assert forall i :: 0 <= i < |p| ==> xs[i] == p[i];
      Select(p, key, k) + (if key(xs[|xs| - 1]) == k then [xs[|xs| - 1]] else [])
  }

  /** Ruby's `group_by` (values only): each element is appended to the bucket of
      its key; a key seen for the first time opens a new bucket at the end. */
  function GroupBy<T, K(==)>(xs: seq<T>, key: T -> K): seq<seq<T>>
    decreases |xs|
  {
    if xs == [] then [] else AddToGroup(GroupBy(xs[..|xs| - 1], key), xs[|xs| - 1], key)
  }

  function AddToGroup<T, K(==)>(gs: seq<seq<T>>, x: T, key: T -> K): (r: seq<seq<T>>)
    decreases |gs|
  {
    if gs == [] then [[x]]
    else if gs[0] != [] && key(gs[0][0]) == key(x) then [gs[0] + [x]] + gs[1..]
    else [gs[0]] + AddToGroup(gs[1..], x, key)
  }

  /** Groups headed, in order, by the distinct keys `ks`. */
  predicate KeyedBy<T, K(==)>(gs: seq<seq<T>>, key: T -> K, ks: seq<K>) {
    |gs| == |ks| && forall i :: 0 <= i < |gs| ==> gs[i] != [] && key(gs[i][0]) == ks[i]
  }

  lemma {:induction false} AddToGroupSpec<T, K>(gs: seq<seq<T>>, x: T, key: T -> K, ks: seq<K>)
    requires KeyedBy(gs, key, ks) && Distinct(ks)
    ensures key(x) in ks ==> |AddToGroup(gs, x, key)| == |gs|
    ensures key(x) in ks ==> forall i :: 0 <= i < |gs| ==>
      AddToGroup(gs, x, key)[i] == gs[i] + (if key(x) == ks[i] then [x] else [])
    ensures key(x) !in ks ==> AddToGroup(gs, x, key) == gs + [[x]]
    decreases |gs|
  {
    if gs == [] {
    } else if key(gs[0][0]) == key(x) {
      forall i | 1 <= i < |gs| ensures key(x) != ks[i] {
        assert ks[0] != ks[i];
      }
    } else {
      AddToGroupSpec(gs[1..], x, key, ks[1..]);
      var r := AddToGroup(gs, x, key);
      assert r == [gs[0]] + AddToGroup(gs[1..], x, key);
      if key(x) in ks {
        assert key(x) in ks[1..];
      } else {
        assert key(x) !in ks[1..];
      }
    }
  }

  /** `group_by` yields, for each distinct key in first-appearance order, exactly
      the elements with that key in their original order. */
  lemma {:induction false} GroupBySpec<T, K>(xs: seq<T>, key: T -> K)
    ensures |GroupBy(xs, key)| == |Keys(xs, key)|
    ensures forall i :: 0 <= i < |Keys(xs, key)| ==>
      GroupBy(xs, key)[i] == Select(xs, key, Keys(xs, key)[i])
    decreases |xs|
  {
    if xs != [] {
      var p := xs[..|xs| - 1];
      var x := xs[|xs| - 1];
      var ks := Keys(p, key);
      var gs := GroupBy(p, key);
      GroupBySpec(p, key);
      forall i | 0 <= i < |gs| ensures gs[i] != [] && key(gs[i][0]) == ks[i] {
        assert ks[i] in ks;
      }
      AddToGroupSpec(gs, x, key, ks);
      if key(x) !in ks {
        assert Select(p, key, key(x)) == [];
      }
    }
  }

  /** Every group is non-empty, its elements share one key, and no two groups share a key. */
  lemma GroupByShape<T, K>(xs: seq<T>, key: T -> K)
    ensures forall i :: 0 <= i < |GroupBy(xs, key)| ==> GroupBy(xs, key)[i] != []
    ensures forall i, j :: 0 <= i < |GroupBy(xs, key)| && 0 <= j < |GroupBy(xs, key)[i]| ==>
      key(GroupBy(xs, key)[i][j]) == key(GroupBy(xs, key)[i][0])
    ensures forall i, j :: 0 <= i < j < |GroupBy(xs, key)| ==>
      key(GroupBy(xs, key)[i][0]) != key(GroupBy(xs, key)[j][0])
  {
    GroupBySpec(xs, key);
    var ks := Keys(xs, key);
    forall i | 0 <= i < |ks| ensures Select(xs, key, ks[i]) != [] {
      assert ks[i] in ks;
    }
  }

  lemma {:induction false} AddToGroupSum<T, K>(gs: seq<seq<T>>, x: T, key: T -> K, f: T -> real)
    ensures SumGroups(AddToGroup(gs, x, key), f) == SumGroups(gs, f) + f(x)
    decreases |gs|
  {
    if gs == [] {
      assert SumOf([x], f) == f(x) + SumOf([], f);
    } else if gs[0] != [] && key(gs[0][0]) == key(x) {
      SumOfAppend(gs[0], x, f);
      assert ([gs[0] + [x]] + gs[1..])[1..] == gs[1..];
    } else {
      AddToGroupSum(gs[1..], x, key, f);
      assert ([gs[0]] + AddToGroup(gs[1..], x, key))[1..] == AddToGroup(gs[1..], x, key);
    }
  }

  lemma {:induction false} AddToGroupSumInt<T, K>(gs: seq<seq<T>>, x: T, key: T -> K, f: T -> int)
    ensures SumGroupsInt(AddToGroup(gs, x, key), f) == SumGroupsInt(gs, f) + f(x)
    decreases |gs|
  {
    if gs == [] {
      assert SumInt([x], f) == f(x) + SumInt([], f);
    } else if gs[0] != [] && key(gs[0][0]) == key(x) {
      SumIntAppend(gs[0], x, f);
      assert ([gs[0] + [x]] + gs[1..])[1..] == gs[1..];
    } else {
      AddToGroupSumInt(gs[1..], x, key, f);
      assert ([gs[0]] + AddToGroup(gs[1..], x, key))[1..] == AddToGroup(gs[1..], x, key);
    }
  }

  /** Grouping loses and duplicates nothing: the group sums add up to the total. */
  lemma {:induction false} GroupByConservesSum<T, K>(xs: seq<T>, key: T -> K, f: T -> real)
    ensures SumGroups(GroupBy(xs, key), f) == SumOf(xs, f)
    decreases |xs|
  {
    if xs != [] {
      var p := xs[..|xs| - 1];
      GroupByConservesSum(p, key, f);
      AddToGroupSum(GroupBy(p, key), xs[|xs| - 1], key, f);
      assert xs == p + [xs[|xs| - 1]];
      SumOfAppend(p, xs[|xs| - 1], f);
    }
  }

  lemma {:induction false} GroupByConservesSumInt<T, K>(xs: seq<T>, key: T -> K, f: T -> int)
    ensures SumGroupsInt(GroupBy(xs, key), f) == SumInt(xs, f)
    decreases |xs|
  {
    if xs != [] {
      var p := xs[..|xs| - 1];
      GroupByConservesSumInt(p, key, f);
      AddToGroupSumInt(GroupBy(p, key), xs[|xs| - 1], key, f);
      assert xs == p + [xs[|xs| - 1]];
      SumIntAppend(p, xs[|xs| - 1], f);
    }
  }

  /** Grouping yields no group exactly when there is nothing to group. */
  lemma GroupByEmpty<T, K>(xs: seq<T>, key: T -> K)
    ensures GroupBy(xs, key) == [] <==> xs == []
  {
    GroupBySpec(xs, key);
    if xs != [] {
      assert key(xs[0]) in Keys(xs, key);
    }
  }

  /** When every key is distinct, each element forms a group of its own. */
  lemma {:induction false} GroupByDistinctKeys<T, K>(xs: seq<T>, key: T -> K)
    requires forall i, j :: 0 <= i < j < |xs| ==> key(xs[i]) != key(xs[j])
    ensures |GroupBy(xs, key)| == |xs|
    ensures forall i :: 0 <= i < |xs| ==> GroupBy(xs, key)[i] == [xs[i]]
    decreases |xs|
  {
    if xs != [] {
      var p := xs[..|xs| - 1];
      var x := xs[|xs| - 1];
      GroupByDistinctKeys(p, key);
      var gs := GroupBy(p, key);
      var ks := seq(|p|, i requires 0 <= i < |p| => key(p[i]));
      assert KeyedBy(gs, key, ks);
      AddToGroupSpec(gs, x, key, ks);
      assert key(x) !in ks;
    }
  }

  // ---------------------------------------------------------------------------
  // index_by and uniq

  /** Ruby's `index_by`: each key mapped to the LAST element carrying it. */
  function IndexBy<T, K(==)>(xs: seq<T>, key: T -> K): (m: map<K, T>)
    ensures forall i :: 0 <= i < |xs| ==> key(xs[i]) in m
    ensures forall k | k in m :: exists i :: 0 <= i < |xs| && key(xs[i]) == k
    decreases |xs|
  {
    if xs == [] then map[]
    else
      var p := xs[..|xs| - 1];
      var m := IndexBy(p, key);
      assert forall i :: 0 <= i < |p| ==> xs[i] == p[i];
      m[key(xs[|xs| - 1]) := xs[|xs| - 1]]
  }

  /** The element `index_by` keeps for a key is its last occurrence. */
  lemma {:induction false} IndexByKeepsLast<T, K>(xs: seq<T>, key: T -> K, k: K)
    requires k in IndexBy(xs, key)
    ensures exists i :: 0 <= i < |xs| && xs[i] == IndexBy(xs, key)[k] && key(xs[i]) == k
                        && forall j :: i < j < |xs| ==> key(xs[j]) != k
    decreases |xs|
  {
    var n := |xs| - 1;
    if key(xs[n]) == k {
      assert xs[n] == IndexBy(xs, key)[k];
    } else {
      var p := xs[..n];
      IndexByKeepsLast(p, key, k);
      var i :| 0 <= i < |p| && p[i] == IndexBy(p, key)[k] && key(p[i]) == k
               && forall j :: i < j < |p| ==> key(p[j]) != k;
      assert xs[i] == p[i];
      forall j | i < j < |xs| ensures key(xs[j]) != k {
        if j < n { assert xs[j] == p[j]; }
      }
    }
  }

  /** Ruby's `uniq`: the first occurrence of each element, in order. */
  function Uniq<K(==)>(xs: seq<K>): (r: seq<K>)
    ensures Distinct(r)
    ensures forall i :: 0 <= i < |xs| ==> xs[i] in r
    ensures forall j :: 0 <= j < |r| ==> r[j] in xs
    decreases |xs|
  {
    if xs == [] then []
    else
      var p := xs[..|xs| - 1];
      var r := Uniq(p);
      assert forall i :: 0 <= i < |p| ==> xs[i] == p[i];
      if xs[|xs| - 1] in r then r else r + [xs[|xs| - 1]]
  }

  /** The position of the first occurrence of `x`. */
  function FirstIndex<K(==)>(xs: seq<K>, x: K): (n: nat)
    requires x in xs
    ensures n < |xs| && xs[n] == x && x !in xs[..n]
    decreases |xs|
  {
    if xs[0] == x then 0
    else
      var m := FirstIndex(xs[1..], x);
      assert xs[..m + 1] == [xs[0]] + xs[1..][..m];
      m + 1
  }

  /** The first occurrence is the only position holding `x` with no `x` before it. */
  lemma FirstIndexUnique<K>(xs: seq<K>, x: K, n: nat)
    requires n < |xs| && xs[n] == x && x !in xs[..n]
    ensures FirstIndex(xs, x) == n
  {
  }

  /** `uniq` lists the distinct elements in the order of their first occurrence. */
  lemma {:induction false} UniqOrder<K>(xs: seq<K>)
    ensures forall j, k :: 0 <= j < k < |Uniq(xs)| ==>
      FirstIndex(xs, Uniq(xs)[j]) < FirstIndex(xs, Uniq(xs)[k])
    decreases |xs|
  {
    if xs != [] {
      var p := xs[..|xs| - 1];
      var x := xs[|xs| - 1];
      var r := Uniq(p);
      UniqOrder(p);
      forall y | y in p ensures FirstIndex(xs, y) == FirstIndex(p, y) {
        var m := FirstIndex(p, y);
        assert xs[..m] == p[..m];
        assert xs[m] == p[m];
        FirstIndexUnique(xs, y, m);
      }
      if x !in r {
        assert x !in p;
        assert xs[..|p|] == p;
        FirstIndexUnique(xs, x, |p|);
        assert Uniq(xs) == r + [x];
        forall j, k | 0 <= j < k < |Uniq(xs)|
          ensures FirstIndex(xs, Uniq(xs)[j]) < FirstIndex(xs, Uniq(xs)[k])
        {
          assert Uniq(xs)[j] == r[j];
          if k < |r| {
            assert Uniq(xs)[k] == r[k];
          }
        }
      }
    }
  }
}
