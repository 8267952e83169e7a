/**
 Small shared vocabulary: optional values, results that may carry the message of
 a raised exception, and the two finite-counting facts used throughout.
 */
module Prelude {

  datatype Option<+T> = None | Some(value: T)

  /** `Failure` stands for the exception the program raises. */
  datatype Result<+T> = Success(value: T) | Failure(message: string)

  /** A word is a stream of symbol indices. */
  type Word = seq<nat>

  predicate InAlphabet(w: Word, symbolCount: nat) {
    forall i :: 0 <= i < |w| ==> w[i] < symbolCount
  }

  predicate Distinct(xs: seq<nat>) {
    forall i, j :: 0 <= i < j < |xs| ==> xs[i] != xs[j]
  }

  predicate Ascending(xs: seq<nat>) {
    forall i, j :: 0 <= i < j < |xs| ==> xs[i] < xs[j]
  }

  /** The numbers below `n`, each once. */
  predicate IsPermutation(xs: seq<nat>, n: nat) {
    && |xs| == n
    && Distinct(xs)
    && forall i :: 0 <= i < n ==> xs[i] < n
  }

  function Min(a: int, b: int): int {
    if a < b then a else b
  }

  function Max(a: int, b: int): int {
    if a < b then b else a
  }

  lemma SubsetCardinality<T>(a: set<T>, b: set<T>)
    requires a <= b
    ensures |a| <= |b|
    ensures |a| == |b| ==> a == b
  {
    assert b == a + (b - a);
    assert |b| == |a| + |b - a|;
    if |a| == |b| {
      assert b - a == {};
    }
  }

  /** More pigeons than holes: two positions of `f` hold the same value. */
  lemma {:induction false} Pigeonhole(f: seq<nat>, holes: nat) returns (i: nat, j: nat)
    requires |f| > holes
    requires forall k :: 0 <= k < |f| ==> f[k] < holes
    ensures i < j < |f| && f[i] == f[j]
    decreases |f|
  {
    if exists k :: 0 <= k < |f| - 1 && f[k] == f[|f| - 1] {
      i :| 0 <= i < |f| - 1 && f[i] == f[|f| - 1];
      j := |f| - 1;
    } else {
      var last := f[|f| - 1];
      // Rename the largest hole to the one the last pigeon occupies.
      var g := seq(|f| - 1, k requires 0 <= k < |f| - 1 => if f[k] == holes - 1 then last else f[k]);
      forall k | 0 <= k < |g|
        ensures g[k] < holes - 1
      {
        assert f[k] != last;
      }
      i, j := Pigeonhole(g, holes - 1);
    }
  }
}
