/**
 * The array built-ins the app uses on its record lists: `filter`, counting
 * and a subsequence relation to say that filtering keeps the order.
 */
module Seqs {

  /** `xs.filter(keep)`: the elements that satisfy `keep`, in their original order. */
  function Filter<T(!new)>(xs: seq<T>, keep: T -> bool): (r: seq<T>)
    ensures |r| <= |xs|
    ensures forall x :: x in r <==> x in xs && keep(x)
    ensures IsSubsequence(r, xs)
    decreases |xs|
  {
    if xs == [] then []
    else
      var rest := Filter(xs[1..], keep);
      SubsequenceCons(rest, xs);
      if keep(xs[0]) then
        SubsequenceBothCons(rest, xs);
        [xs[0]] + rest
      else rest
  }

  /** Filtering keeps every passing element as often as it occurs and drops the others. */
  lemma {:induction false} FilterMultiplicity<T(!new)>(xs: seq<T>, keep: T -> bool)
    ensures forall x :: multiset(Filter(xs, keep))[x] == if keep(x) then multiset(xs)[x] else 0
    decreases |xs|
  {
    if xs != [] {
      FilterMultiplicity(xs[1..], keep);
      assert xs == [xs[0]] + xs[1..];
    }
  }

  /** `a` can be obtained from `b` by deleting elements. */
  ghost predicate IsSubsequence<T>(a: seq<T>, b: seq<T>)
    decreases |b|
  {
    if a == [] then true
    else if b == [] then false
    else if a[0] == b[0] then IsSubsequence(a[1..], b[1..])
    else IsSubsequence(a, b[1..])
  }

  lemma SubsequenceCons<T>(a: seq<T>, b: seq<T>)
    requires b != [] && IsSubsequence(a, b[1..])
    ensures IsSubsequence(a, b)
    decreases |b|, |a|, 1
  {
    if a != [] && a[0] == b[0] {
      SubsequenceTail(a, b[1..]);
    }
  }

  lemma SubsequenceTail<T>(a: seq<T>, b: seq<T>)
    requires a != [] && IsSubsequence(a, b)
    ensures IsSubsequence(a[1..], b)
    decreases |b|, |a|, 0
  {
    if a[0] != b[0] {
      SubsequenceTail(a, b[1..]);
      SubsequenceCons(a[1..], b);
    } else if a[1..] != [] {
      SubsequenceCons(a[1..], b);
    }
  }

  lemma SubsequenceBothCons<T>(a: seq<T>, b: seq<T>)
    requires b != [] && IsSubsequence(a, b[1..])
    ensures IsSubsequence([b[0]] + a, b)
  {
    assert ([b[0]] + a)[1..] == a;
  }

  /** Filtering a list whose elements all pass gives the list back. */
  lemma {:induction false} FilterKeepsAll<T(!new)>(xs: seq<T>, keep: T -> bool)
    requires forall i :: 0 <= i < |xs| ==> keep(xs[i])
    ensures Filter(xs, keep) == xs
    decreases |xs|
  {
    if xs != [] {
      FilterKeepsAll(xs[1..], keep);
    }
  }

  /** Filtering twice with the same test is filtering once. */
  lemma FilterIdempotent<T(!new)>(xs: seq<T>, keep: T -> bool)
    ensures Filter(Filter(xs, keep), keep) == Filter(xs, keep)
  {
    var r := Filter(xs, keep);
    assert forall i :: 0 <= i < |r| ==> r[i] in r;
    FilterKeepsAll(r, keep);
  }

  /** Filtering distributes over concatenation. */
  lemma {:induction false} FilterAppend<T(!new)>(xs: seq<T>, ys: seq<T>, keep: T -> bool)
    ensures Filter(xs + ys, keep) == Filter(xs, keep) + Filter(ys, keep)
    decreases |xs|
  {
    if xs == [] {
      assert xs + ys == ys;
    } else {
      assert (xs + ys)[1..] == xs[1..] + ys;
      FilterAppend(xs[1..], ys, keep);
    }
  }

  /** The number of positions of `xs` holding `x`. */
  function Count<T(==)>(xs: seq<T>, x: T): (n: nat)
    ensures n <= |xs|
    ensures n == 0 <==> x !in xs
    decreases |xs|
  {
    if xs == [] then 0 else (if xs[0] == x then 1 else 0) + Count(xs[1..], x)
  }

  /** `Count` is the multiplicity in the multiset of the elements. */
  lemma {:induction false} CountIsMultiplicity<T>(xs: seq<T>, x: T)
    ensures Count(xs, x) == multiset(xs)[x]
    decreases |xs|
  {
    if xs != [] {
      CountIsMultiplicity(xs[1..], x);
      assert xs == [xs[0]] + xs[1..];
    }
  }

  /** `xs.map(x => hit(x) ? f(x) : x)`: the elements that satisfy `hit` replaced in place. */
  function MapWhere<T>(xs: seq<T>, hit: T -> bool, f: T -> T): (r: seq<T>)
    ensures |r| == |xs|
    ensures forall i :: 0 <= i < |xs| ==> r[i] == if hit(xs[i]) then f(xs[i]) else xs[i]
  {
    seq(|xs|, i requires 0 <= i < |xs| => if hit(xs[i]) then f(xs[i]) else xs[i])
  }

  /** No two elements share a key (an id). */
  ghost predicate DistinctKeys<T, K>(xs: seq<T>, key: T -> K)
  {
    forall i, j :: 0 <= i < j < |xs| ==> key(xs[i]) != key(xs[j])
  }

  /** Replacing elements by ones with the same key keeps the keys distinct. */
  lemma MapWhereKeepsDistinctKeys<T, K>(xs: seq<T>, hit: T -> bool, f: T -> T, key: T -> K)
    requires DistinctKeys(xs, key)
    requires forall x :: key(f(x)) == key(x)
    ensures DistinctKeys(MapWhere(xs, hit, f), key)
  {
    var r := MapWhere(xs, hit, f);
    forall i, j | 0 <= i < j < |r|
      ensures key(r[i]) != key(r[j])
    {
      assert key(r[i]) == key(xs[i]) && key(r[j]) == key(xs[j]);
    }
  }

  /** Every element of a subsequence is an element of the whole. */
  lemma {:induction false} SubsequenceMembers<T>(a: seq<T>, b: seq<T>, x: T)
    requires IsSubsequence(a, b) && x in a
    ensures x in b
    decreases |b|
  {
    if a[0] == b[0] {
      if x != a[0] {
        assert x in a[1..];
        SubsequenceMembers(a[1..], b[1..], x);
      }
    } else {
      SubsequenceMembers(a, b[1..], x);
    }
  }

  /** Deleting elements keeps the keys distinct. */
  lemma {:induction false} SubsequenceDistinctKeys<T, K>(a: seq<T>, b: seq<T>, key: T -> K)
    requires IsSubsequence(a, b) && DistinctKeys(b, key)
    ensures DistinctKeys(a, key)
    decreases |b|
  {
    if a != [] {
      assert DistinctKeys(b[1..], key) by {
        forall i, j | 0 <= i < j < |b| - 1 ensures key(b[1..][i]) != key(b[1..][j]) {
          assert key(b[i + 1]) != key(b[j + 1]);
        }
      }
      if a[0] == b[0] {
        SubsequenceDistinctKeys(a[1..], b[1..], key);
        forall j | 0 < j < |a| ensures key(a[0]) != key(a[j]) {
          assert a[j] == a[1..][j - 1];
          SubsequenceMembers(a[1..], b[1..], a[j]);
          var m :| 0 <= m < |b[1..]| && b[1..][m] == a[j];
          assert key(b[0]) != key(b[m + 1]);
        }
      } else {
        SubsequenceDistinctKeys(a, b[1..], key);
      }
    }
  }

  /** Filtering keeps distinct keys distinct. */
  lemma FilterDistinctKeys<T(!new), K>(xs: seq<T>, keep: T -> bool, key: T -> K)
    requires DistinctKeys(xs, key)
    ensures DistinctKeys(Filter(xs, keep), key)
  {
    SubsequenceDistinctKeys(Filter(xs, keep), xs, key);
  }

  /** When no element passes, the filter is empty. */
  lemma FilterNoneKept<T(!new)>(xs: seq<T>, keep: T -> bool)
    requires forall i :: 0 <= i < |xs| ==> !keep(xs[i])
    ensures Filter(xs, keep) == []
  {
  }

  /** Two tests that agree on every element filter alike. */
  lemma {:induction false} FilterExtensional<T(!new)>(xs: seq<T>, p: T -> bool, q: T -> bool)
    requires forall i :: 0 <= i < |xs| ==> p(xs[i]) == q(xs[i])
    ensures Filter(xs, p) == Filter(xs, q)
    decreases |xs|
  {
    if xs != [] {
      FilterExtensional(xs[1..], p, q);
    }
  }

  /** Appending an element whose key is new keeps the keys distinct. */
  lemma AppendDistinctKeys<T, K>(xs: seq<T>, y: T, key: T -> K)
    requires DistinctKeys(xs, key)
    requires forall i :: 0 <= i < |xs| ==> key(xs[i]) != key(y)
    ensures DistinctKeys(xs + [y], key)
  {
    var r := xs + [y];
    forall i, j | 0 <= i < j < |r|
      ensures key(r[i]) != key(r[j])
    {
      if j < |xs| {
        assert r[i] == xs[i] && r[j] == xs[j];
      } else {
        assert r[i] == xs[i] && r[j] == y;
      }
    }
  }
}
