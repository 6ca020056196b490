/**
 Sums of bags over sequences, for counting who holds what. The lemmas speak of one
 counted value `a` at a time.
 */
module Bags {

  function Sum<T, K>(xs: seq<T>, f: T -> multiset<K>): multiset<K> {
    if xs == [] then multiset{} else f(xs[0]) + Sum(xs[1..], f)
  }

  lemma {:induction false} SumConcat<T, K>(xs: seq<T>, ys: seq<T>, f: T -> multiset<K>, a: K)
    ensures Sum(xs + ys, f)[a] == Sum(xs, f)[a] + Sum(ys, f)[a]
    decreases |xs|
  {
    if xs == [] {
      assert xs + ys == ys;
    } else {
      assert (xs + ys)[1..] == xs[1..] + ys;
      SumConcat(xs[1..], ys, f, a);
    }
  }

  lemma SumAppend<T, K>(xs: seq<T>, x: T, f: T -> multiset<K>, a: K)
    ensures Sum(xs + [x], f)[a] == Sum(xs, f)[a] + f(x)[a]
  {
    SumConcat(xs, [x], f, a);
    assert Sum([x][1..], f) == multiset{};
  }

  /** Everything but position i. */
  function Without<T>(xs: seq<T>, i: nat): (r: seq<T>)
    requires i < |xs|
    ensures |r| == |xs| - 1
  {
    xs[..i] + xs[i + 1..]
  }

  lemma SumWithout<T, K>(xs: seq<T>, i: nat, f: T -> multiset<K>, a: K)
    requires i < |xs|
    ensures Sum(xs, f)[a] == Sum(Without(xs, i), f)[a] + f(xs[i])[a]
  {
    SumConcat(xs[..i], xs[i + 1..], f, a);
    SumConcat(xs[..i], xs[i..], f, a);
    assert xs == xs[..i] + xs[i..];
    assert xs[i..][1..] == xs[i + 1..];
  }

  lemma SumUpdate<T, K>(xs: seq<T>, i: nat, y: T, f: T -> multiset<K>, a: K)
    requires i < |xs|
    ensures Sum(xs[i := y], f)[a] + f(xs[i])[a] == Sum(xs, f)[a] + f(y)[a]
  {
    SumWithout(xs, i, f, a);
    SumWithout(xs[i := y], i, f, a);
    assert Without(xs[i := y], i) == Without(xs, i);
  }

  /** Every element's share is within the sum. */
  lemma SumMember<T, K>(xs: seq<T>, i: nat, f: T -> multiset<K>, a: K)
    requires i < |xs|
    ensures f(xs[i])[a] <= Sum(xs, f)[a]
  {
    SumWithout(xs, i, f, a);
  }

  /** Two different elements' shares are both within the sum. */
  lemma SumTwo<T, K>(xs: seq<T>, i: nat, j: nat, f: T -> multiset<K>, a: K)
    requires i < j < |xs|
    ensures f(xs[i])[a] + f(xs[j])[a] <= Sum(xs, f)[a]
  {
    SumWithout(xs, i, f, a);
    assert Without(xs, i)[j - 1] == xs[j];
    SumMember(Without(xs, i), j - 1, f, a);
  }

  /** A counted value has an element that accounts for it. */
  lemma {:induction false} SumWitness<T, K>(xs: seq<T>, f: T -> multiset<K>, a: K) returns (i: nat)
    requires Sum(xs, f)[a] > 0
    ensures i < |xs| && f(xs[i])[a] > 0
    decreases |xs|
  {
    i := 0;
    if f(xs[0])[a] == 0 {
      i := SumWitness(xs[1..], f, a);
      i := i + 1;
    }
  }
}
