/**
 * Occurrence counting shared by the three histograms of the crate
 * (`CharFreq::from_str`, `score_string` and the `charfreq` tool).
 */
module Histogram {

  /** The number of positions of `xs` that hold `v`. */
  function Occurrences<T(==)>(xs: seq<T>, v: T): (n: nat)
    ensures n <= |xs|
  {
    if xs == [] then 0
    else Occurrences(xs[..|xs| - 1], v) + (if xs[|xs| - 1] == v then 1 else 0)
  }

  /** A value is counted at least once exactly when it occurs. */
  lemma {:induction false} OccurrencesPositive<T>(xs: seq<T>, v: T)
    ensures Occurrences(xs, v) > 0 <==> v in xs
  {
    if xs != [] {
      var init := xs[..|xs| - 1];
      OccurrencesPositive(init, v);
      assert xs == init + [xs[|xs| - 1]];
    }
  }

  lemma OccurrencesAppend<T>(xs: seq<T>, x: T, v: T)
    ensures Occurrences(xs + [x], v) == Occurrences(xs, v) + (if x == v then 1 else 0)
  {
    assert (xs + [x])[..|xs|] == xs;
  }

  /** The total of the counts of every key in `keys`. */
  function SumOver<T(==)>(xs: seq<T>, keys: seq<T>): nat
  {
    if keys == [] then 0 else Occurrences(xs, keys[0]) + SumOver(xs, keys[1..])
  }

  /** A prefix holds no more copies of a value than the whole sequence. */
  lemma {:induction false} OccurrencesPrefix<T>(xs: seq<T>, k: nat, v: T)
    requires k <= |xs|
    ensures Occurrences(xs[..k], v) <= Occurrences(xs, v)
  {
    if k == |xs| {
      assert xs[..k] == xs;
    } else {
      var init := xs[..|xs| - 1];
      OccurrencesPrefix(init, k, v);
      assert init[..k] == xs[..k];
    }
  }

  predicate Distinct<T(==)>(keys: seq<T>)
  {
    forall i, j | 0 <= i < j < |keys| :: keys[i] != keys[j]
  }

  /** Adding one element adds one to the total exactly when its key is listed once. */
  lemma {:induction false} SumOverAppend<T>(xs: seq<T>, x: T, keys: seq<T>)
    requires Distinct(keys)
    ensures SumOver(xs + [x], keys) == SumOver(xs, keys) + (if x in keys then 1 else 0)
  {
    if keys != [] {
      OccurrencesAppend(xs, x, keys[0]);
      assert Distinct(keys[1..]) by {
        forall i, j | 0 <= i < j < |keys| - 1 ensures keys[1..][i] != keys[1..][j] {
          assert keys[1..][i] == keys[i + 1] && keys[1..][j] == keys[j + 1];
        }
      }
      SumOverAppend(xs, x, keys[1..]);
      assert x in keys <==> x == keys[0] || x in keys[1..] by {
        assert keys == [keys[0]] + keys[1..];
      }
    }
  }

  /**
   * Counting every element against a list of distinct keys that covers them all
   * accounts for each element exactly once.
   */
  lemma {:induction false} SumOverCovering<T>(xs: seq<T>, keys: seq<T>)
    requires Distinct(keys)
    requires forall i | 0 <= i < |xs| :: xs[i] in keys
    ensures SumOver(xs, keys) == |xs|
  {
    if xs == [] {
      SumOverEmpty(keys);
    } else {
      var init := xs[..|xs| - 1];
      SumOverCovering(init, keys);
      SumOverAppend(init, xs[|xs| - 1], keys);
      assert init + [xs[|xs| - 1]] == xs;
    }
  }

  lemma {:induction false} SumOverEmpty<T>(keys: seq<T>)
    ensures SumOver([], keys) == 0
  {
    if keys != [] {
      SumOverEmpty(keys[1..]);
    }
  }

  /** The counts of `keys` in `xs`, as a dense count array indexed like `keys`. */
  function Tally<T(==)>(xs: seq<T>, keys: seq<T>): (r: seq<nat>)
    ensures |r| == |keys| && forall j | 0 <= j < |keys| :: r[j] == Occurrences(xs, keys[j])
  {
    seq(|keys|, j requires 0 <= j < |keys| => Occurrences(xs, keys[j]))
  }

  /** Appending an element adds one to its own key's count and leaves the others alone. */
  lemma TallyStep<T>(xs: seq<T>, x: T, keys: seq<T>, j: nat)
    requires Distinct(keys) && j < |keys| && keys[j] == x
    ensures Tally(xs + [x], keys) == Tally(xs, keys)[j := Tally(xs, keys)[j] + 1]
  {
    var before, after := Tally(xs, keys), Tally(xs + [x], keys);
    forall k | 0 <= k < |keys| ensures after[k] == before[j := before[j] + 1][k] {
      OccurrencesAppend(xs, x, keys[k]);
    }
  }

  function Sum(ns: seq<int>): int
  {
    if ns == [] then 0 else ns[0] + Sum(ns[1..])
  }

  lemma {:induction false} SumAppend(ns: seq<int>, n: int)
    ensures Sum(ns + [n]) == Sum(ns) + n
  {
    if ns != [] {
      assert (ns + [n])[1..] == ns[1..] + [n];
      SumAppend(ns[1..], n);
    }
  }

  /** Adding up a tally gives the total of its keys' counts. */
  lemma {:induction false} SumTally<T>(xs: seq<T>, keys: seq<T>)
    ensures Sum(Tally(xs, keys)) == SumOver(xs, keys)
  {
    if keys != [] {
      assert Tally(xs, keys)[1..] == Tally(xs, keys[1..]);
      SumTally(xs, keys[1..]);
    }
  }

  lemma {:induction false} SumConcat(a: seq<int>, b: seq<int>)
    ensures Sum(a + b) == Sum(a) + Sum(b)
  {
    if a == [] {
      assert a + b == b;
    } else {
      assert (a + b)[1..] == a[1..] + b;
      SumConcat(a[1..], b);
    }
  }

  /** A sum of terms in `[0, m]` lies in `[0, |ns| * m]`. */
  lemma {:induction false} SumBounds(ns: seq<int>, m: int)
    requires forall i | 0 <= i < |ns| :: 0 <= ns[i] <= m
    ensures 0 <= Sum(ns) <= |ns| * m
  {
    if ns != [] {
      SumBounds(ns[1..], m);
    }
  }

  /** With non-negative terms, a prefix sum never exceeds the whole sum. */
  lemma SumPrefix(ns: seq<int>, k: nat)
    requires k <= |ns| && forall i | 0 <= i < |ns| :: 0 <= ns[i]
    ensures Sum(ns[..k]) <= Sum(ns)
  {
    assert ns == ns[..k] + ns[k..];
    SumConcat(ns[..k], ns[k..]);
    SumNonnegative(ns[k..]);
  }

  lemma {:induction false} SumNonnegative(ns: seq<int>)
    requires forall i | 0 <= i < |ns| :: 0 <= ns[i]
    ensures 0 <= Sum(ns)
  {
    if ns != [] {
      SumNonnegative(ns[1..]);
    }
  }
}
