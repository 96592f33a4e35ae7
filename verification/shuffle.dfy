/**
 * The Fisher–Yates shuffle the quiz and the flashcard study screen both use
 * (`shuffleArray`). The source draws `Math.random()`; here the draws are a
 * parameter: step `k` (the one that places position `n - 1 - k`) swaps with
 * position `draws[k] % (i + 1)`, and a missing draw counts as 0. Every value
 * the source's `Math.floor(Math.random() * (i + 1))` can produce is such a
 * remainder, so every run of the source is a run of this model.
 */
module Shuffle {

  /** The `k`-th random draw, or 0 when the stream has run out. */
  function Draw(draws: seq<nat>, k: nat): nat
  {
    if k < |draws| then draws[k] else 0
  }

  /** `[a[i], a[j]] = [a[j], a[i]]` on an immutable sequence. */
  function Swap<T>(a: seq<T>, i: nat, j: nat): (r: seq<T>)
    requires i < |a| && j < |a|
    ensures |r| == |a| && r[i] == a[j] && r[j] == a[i]
    ensures forall k :: 0 <= k < |a| && k != i && k != j ==> r[k] == a[k]
  {
    a[i := a[j]][j := a[i]]
  }

  lemma SwapPermutes<T>(a: seq<T>, i: nat, j: nat)
    requires i < |a| && j < |a|
    ensures multiset(Swap(a, i, j)) == multiset(a)
  {
    var b := a[i := a[j]];
    assert multiset(b) == multiset(a) - multiset{a[i]} + multiset{a[j]};
    assert multiset(b[j := a[i]]) == multiset(b) - multiset{b[j]} + multiset{a[i]};
  }

  /** The loop of `shuffleArray` from index `i` down to 1, starting at draw `k`. */
  function ShuffleFrom<T>(a: seq<T>, i: nat, draws: seq<nat>, k: nat): (r: seq<T>)
    requires i < |a|
    ensures |r| == |a|
    ensures multiset(r) == multiset(a)
    decreases i
  {
    if i == 0 then a
    else
      var j := Draw(draws, k) % (i + 1);
      SwapPermutes(a, i, j);
      ShuffleFrom(Swap(a, i, j), i - 1, draws, k + 1)
  }

  /** `shuffleArray(a)`: a rearrangement of `a` chosen by the draws. */
  function Shuffle<T>(a: seq<T>, draws: seq<nat>): (r: seq<T>)
    ensures |r| == |a|
    ensures multiset(r) == multiset(a)
  {
    if |a| == 0 then a else ShuffleFrom(a, |a| - 1, draws, 0)
  }

  /** The draw stream under which every step swaps an element with itself. */
  function StayDraws(n: nat): (d: seq<nat>)
    ensures |d| == n
    ensures forall k :: 0 <= k < n ==> d[k] == n - 1 - k
  {
    seq(n, k requires 0 <= k < n => n - 1 - k)
  }

  lemma {:induction false} ShuffleFromStay<T>(a: seq<T>, i: nat, draws: seq<nat>, k: nat)
    requires i < |a|
    requires forall m :: k <= m <= k + i ==> Draw(draws, m) % (i + k - m + 1) == i + k - m
    ensures ShuffleFrom(a, i, draws, k) == a
    decreases i
  {
    if i > 0 {
      assert Draw(draws, k) % (i + 1) == i;
      assert Swap(a, i, i) == a;
      forall m | k + 1 <= m <= k + 1 + (i - 1)
        ensures Draw(draws, m) % ((i - 1) + (k + 1) - m + 1) == (i - 1) + (k + 1) - m
      {
        assert i + k - m == (i - 1) + (k + 1) - m;
      }
      ShuffleFromStay(a, i - 1, draws, k + 1);
    }
  }

  /** A draw stream exists under which the shuffle keeps the original order. */
  lemma ShuffleCanKeepOrder<T>(a: seq<T>)
    ensures Shuffle(a, StayDraws(|a|)) == a
  {
    if |a| > 0 {
      var d := StayDraws(|a|);
      var i := |a| - 1;
      forall m | 0 <= m <= i
        ensures Draw(d, m) % (i - m + 1) == i - m
      {
        assert Draw(d, m) == i - m;
        SmallRemainder(i - m, i - m + 1);
      }
      ShuffleFromStay(a, i, d, 0);
    }
  }

  /** A number below the divisor is its own remainder. */
  lemma SmallRemainder(x: nat, n: nat)
    requires x < n
    ensures x % n == x
  {
  }

  /** Shuffling keeps every element with its number of occurrences, so membership is unchanged. */
  lemma ShuffleKeepsMembers<T>(a: seq<T>, draws: seq<nat>, x: T)
    ensures x in Shuffle(a, draws) <==> x in a
  {
    var r := Shuffle(a, draws);
    assert x in r <==> x in multiset(r);
    assert x in a <==> x in multiset(a);
  }
}
