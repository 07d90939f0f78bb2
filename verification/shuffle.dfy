/** `random.shuffle` as CPython implements it: for `i` from `len(x) - 1`
    down to 1, swap `x[i]` with `x[j]` where `j = _randbelow(i + 1)`. The
    generator's outputs are a parameter: draw `k` is reduced below the
    bound of step `k`, so every sequence of draws stands for some run of a
    seeded generator. */
module Shuffle {
  import opened Lists


  /** Exchange the elements at `i` and `j`. */
  function Swap<T>(s: seq<T>, i: nat, j: nat): (r: seq<T>)
    requires i < |s| && j < |s|
    ensures |r| == |s|
    ensures r[i] == s[j] && r[j] == s[i]
    ensures forall k :: 0 <= k < |s| && k != i && k != j ==> r[k] == s[k]
    ensures multiset(r) == multiset(s)
  {
    s[i := s[j]][j := s[i]]
  }

  /** `_randbelow(bound)` on step `k`: draw `k` (0 once the draws run out)
      reduced below `bound`. */
  function Draw(draws: seq<nat>, k: nat, bound: nat): (j: nat)
    requires bound > 0
    ensures j < bound
  {
    (if k < |draws| then draws[k] else 0) % bound
  }

  /** The steps of the shuffle loop from index `i` down to 1; `k` counts
      the draws already used. */
  function ShuffleFrom<T>(x: seq<T>, i: nat, draws: seq<nat>, k: nat): (r: seq<T>)
    requires i < |x|
    ensures |r| == |x|
    ensures multiset(r) == multiset(x)
    decreases i
  {
    if i == 0 then x
    else ShuffleFrom(Swap(x, i, Draw(draws, k, i + 1)), i - 1, draws, k + 1)
  }

  /** `random.shuffle(x)`: a permutation of `x`. */
  function Shuffle<T>(x: seq<T>, draws: seq<nat>): (r: seq<T>)
    ensures |r| == |x|
    ensures multiset(r) == multiset(x)
  {
    if |x| == 0 then x else ShuffleFrom(x, |x| - 1, draws, 0)
  }

  /** No two elements of `s` share a key. */
  ghost predicate DistinctBy<T, K>(s: seq<T>, key: T -> K) {
    forall a, b :: 0 <= a < b < |s| ==> key(s[a]) != key(s[b])
  }

  /** A rearrangement of a sequence whose keys are distinct has distinct
      keys. */
  lemma PermutationDistinctBy<T, K>(x: seq<T>, s: seq<T>, key: T -> K)
    requires multiset(s) == multiset(x)
    requires DistinctBy(x, key)
    ensures DistinctBy(s, key)
  {
    assert Distinct(x) by {
      forall a, b | 0 <= a < b < |x| ensures x[a] != x[b] {
        assert key(x[a]) != key(x[b]);
      }
    }
    DistinctCounts(x);
    CountsDistinct(s);
    forall a, b | 0 <= a < b < |s| ensures key(s[a]) != key(s[b]) {
      assert s[a] in multiset(x) && s[b] in multiset(x);
      var a' :| 0 <= a' < |x| && x[a'] == s[a];
      var b' :| 0 <= b' < |x| && x[b'] == s[b];
      if a' < b' {
        assert key(x[a']) != key(x[b']);
      } else if b' < a' {
        assert key(x[b']) != key(x[a']);
      }
    }
  }

  /** Shuffling keeps keys that were distinct distinct. */
  lemma ShuffleDistinct<T, K>(x: seq<T>, draws: seq<nat>, key: T -> K)
    requires DistinctBy(x, key)
    ensures DistinctBy(Shuffle(x, draws), key)
  {
    PermutationDistinctBy(x, Shuffle(x, draws), key);
  }
}
