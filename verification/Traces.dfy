/**
 Episodes as a learner sees them (`Trace`, identification_ceiling.py), the labelled
 prefixes they contain, and how well a predictor that sees only the prefix can do.
 */
module Traces {
  import opened Prelude

  datatype TraceData = TraceData(symbols: Word, outputs: seq<nat>, eligible: seq<bool>, symbolCount: nat)

  /** Construction refuses a trace whose three sequences do not align. */
  type Trace = t: TraceData | |t.outputs| == |t.symbols| && |t.eligible| == |t.symbols|
    witness TraceData([], [], [], 0)

  /** Labels are press or no press. */
  predicate Binary(t: Trace) {
    forall i :: 0 <= i < |t.outputs| ==> t.outputs[i] <= 1
  }

  function MaxSymbolCount(traces: seq<Trace>): nat {
    if traces == [] then 0 else Max(MaxSymbolCount(traces[..|traces| - 1]), traces[|traces| - 1].symbolCount)
  }

  /** The largest declared alphabet of an episode. */
  predicate LargestDeclared(traces: seq<Trace>, symbolCount: nat) {
    && (forall k :: 0 <= k < |traces| ==> traces[k].symbolCount <= symbolCount)
    && exists k :: 0 <= k < |traces| && traces[k].symbolCount == symbolCount
  }

  lemma {:induction false} MaxIsDeclared(traces: seq<Trace>)
    requires traces != []
    ensures LargestDeclared(traces, MaxSymbolCount(traces))
  {
    var rest, last := traces[..|traces| - 1], |traces| - 1;
    if rest != [] {
      MaxIsDeclared(rest);
      var k :| 0 <= k < |rest| && rest[k].symbolCount == MaxSymbolCount(rest);
      assert traces[k] == rest[k];
      assert forall j :: 0 <= j < last ==> traces[j] == rest[j];
    }
    assert traces[last].symbolCount <= MaxSymbolCount(traces);
  }

  /** A machine over `symbolCount` symbols can read every episode. */
  ghost predicate ReadableBy(traces: seq<Trace>, symbolCount: nat) {
    forall k :: 0 <= k < |traces| ==> InAlphabet(traces[k].symbols, symbolCount)
  }

  /** Every symbol lies in the largest declared alphabet. */
  ghost predicate AllReadable(traces: seq<Trace>) {
    ReadableBy(traces, MaxSymbolCount(traces))
  }

  /** One scored step: the symbols seen so far and the label they earned. */
  datatype Observation = Observation(prefix: Word, want: nat)

  /** The scored steps among the first `n` positions of an episode. */
  function TraceObservations(t: Trace, n: nat): seq<Observation>
    requires n <= |t.symbols|
  {
    if n == 0 then []
    else if t.eligible[n - 1] then TraceObservations(t, n - 1) + [Observation(t.symbols[..n], t.outputs[n - 1])]
    else TraceObservations(t, n - 1)
  }

  /** The scored steps of the first `k` episodes. */
  function Observations(traces: seq<Trace>, k: nat): seq<Observation>
    requires k <= |traces|
  {
    if k == 0 then []
    else Observations(traces, k - 1) + TraceObservations(traces[k - 1], |traces[k - 1].symbols|)
  }

  function AllObservations(traces: seq<Trace>): seq<Observation> {
    Observations(traces, |traces|)
  }

  /** How often `w` was scored. */
  function Count(obs: seq<Observation>, w: Word): nat {
    if obs == [] then 0
    else Count(obs[..|obs| - 1], w) + if obs[|obs| - 1].prefix == w then 1 else 0
  }

  /** The labels `w` earned, added up. */
  function Ones(obs: seq<Observation>, w: Word): nat {
    if obs == [] then 0
    else Ones(obs[..|obs| - 1], w) + if obs[|obs| - 1].prefix == w then obs[|obs| - 1].want else 0
  }

  predicate BinaryLabels(obs: seq<Observation>) {
    forall i :: 0 <= i < |obs| ==> obs[i].want <= 1
  }

  /** The majority label of a prefix; a tie is no press. */
  function Majority(obs: seq<Observation>, w: Word): nat {
    if Ones(obs, w) * 2 > Count(obs, w) then 1 else 0
  }

  /** How many scored steps a predictor that sees only the prefix gets wrong. */
  function Errors(obs: seq<Observation>, f: Word -> nat): nat {
    if obs == [] then 0
    else Errors(obs[..|obs| - 1], f) + if f(obs[|obs| - 1].prefix) != obs[|obs| - 1].want then 1 else 0
  }

  /** The same, counting only the steps with prefix `w`. */
  function ErrorsAt(obs: seq<Observation>, f: Word -> nat, w: Word): nat {
    if obs == [] then 0
    else ErrorsAt(obs[..|obs| - 1], f, w) + if obs[|obs| - 1].prefix == w && f(w) != obs[|obs| - 1].want then 1 else 0
  }

  lemma {:induction false} ErrorsAtBinary(obs: seq<Observation>, f: Word -> nat, w: Word)
    requires BinaryLabels(obs)
    ensures Ones(obs, w) <= Count(obs, w)
    ensures ErrorsAt(obs, f, w) ==
      if f(w) == 0 then Ones(obs, w) else if f(w) == 1 then Count(obs, w) - Ones(obs, w) else Count(obs, w)
    decreases |obs|
  {
    if obs != [] {
      ErrorsAtBinary(obs[..|obs| - 1], f, w);
    }
  }

  /** The smaller of the two label counts: what no answer to `w` can avoid. */
  function Minority(obs: seq<Observation>, w: Word): int {
    Min(Ones(obs, w), Count(obs, w) - Ones(obs, w))
  }

  /** No answer to `w` beats the minority count, and the majority label attains it. */
  lemma MajorityIsBest(obs: seq<Observation>, f: Word -> nat, w: Word)
    requires BinaryLabels(obs)
    ensures Minority(obs, w) <= ErrorsAt(obs, f, w)
    ensures f(w) == Majority(obs, w) ==> ErrorsAt(obs, f, w) == Minority(obs, w)
  {
    ErrorsAtBinary(obs, f, w);
  }

  // ------------------------------------------------------------ sums over prefixes

  /** Add up `f` over a finite set of words. */
  ghost function Sum(words: set<Word>, f: Word -> int): int {
    if words == {} then 0
    else
      var w :| w in words;
      f(w) + Sum(words - {w}, f)
  }

  lemma {:induction false} SumRemove(words: set<Word>, f: Word -> int, w: Word)
    requires w in words
    ensures Sum(words, f) == f(w) + Sum(words - {w}, f)
    decreases |words|
  {
    var v :| v in words && Sum(words, f) == f(v) + Sum(words - {v}, f);
    if v != w {
      SumRemove(words - {v}, f, w);
      SumRemove(words - {w}, f, v);
      assert words - {v} - {w} == words - {w} - {v};
    }
  }

  lemma {:induction false} SumAgree(words: set<Word>, f: Word -> int, g: Word -> int)
    requires forall w :: w in words ==> f(w) == g(w)
    ensures Sum(words, f) == Sum(words, g)
    decreases |words|
  {
    if words != {} {
      var w :| w in words;
      SumRemove(words, f, w);
      SumRemove(words, g, w);
      SumAgree(words - {w}, f, g);
    }
  }

  lemma {:induction false} SumMonotone(words: set<Word>, f: Word -> int, g: Word -> int)
    requires forall w :: w in words ==> f(w) <= g(w)
    ensures Sum(words, f) <= Sum(words, g)
    decreases |words|
  {
    if words != {} {
      var w :| w in words;
      SumRemove(words, f, w);
      SumRemove(words, g, w);
      SumMonotone(words - {w}, f, g);
    }
  }

  /** Every scored prefix is in `words`. */
  ghost predicate Covered(obs: seq<Observation>, words: set<Word>) {
    forall i :: 0 <= i < |obs| ==> obs[i].prefix in words
  }

  /** Total errors are the errors prefix by prefix. */
  lemma {:induction false} ErrorsByPrefix(obs: seq<Observation>, f: Word -> nat, words: set<Word>)
    requires Covered(obs, words)
    ensures Errors(obs, f) == Sum(words, w => ErrorsAt(obs, f, w))
    decreases |obs|
  {
    var after := (w: Word) => ErrorsAt(obs, f, w) as int;
    if obs == [] {
      SumAgree(words, after, w => 0);
      SumZero(words);
    } else {
      var init := obs[..|obs| - 1];
      var last := obs[|obs| - 1].prefix;
      ErrorsByPrefix(init, f, words);
      var before := (w: Word) => ErrorsAt(init, f, w) as int;
      SumRemove(words, before, last);
      SumRemove(words, after, last);
      SumAgree(words - {last}, before, after);
      SumAgree(words, before, w => ErrorsAt(init, f, w));
    }
    SumAgree(words, after, w => ErrorsAt(obs, f, w));
  }

  lemma {:induction false} SumZero(words: set<Word>)
    ensures Sum(words, w => 0) == 0
    decreases |words|
  {
    if words != {} {
      var w :| w in words;
      var zero := (v: Word) => 0;
      SumAgree(words, zero, v => 0);
      SumRemove(words, zero, w);
      SumAgree(words - {w}, zero, v => 0);
      SumZero(words - {w});
    }
  }

  /** The evidence contradicts itself this often, whatever answers are given. */
  ghost function Disagreements(obs: seq<Observation>, words: set<Word>): int {
    Sum(words, w => Minority(obs, w))
  }

  lemma DisagreementsAdd(obs: seq<Observation>, words: set<Word>, w: Word)
    requires w !in words
    ensures Disagreements(obs, words + {w}) == Disagreements(obs, words) + Minority(obs, w)
  {
    var f := (v: Word) => Minority(obs, v);
    SumRemove(words + {w}, f, w);
    assert words + {w} - {w} == words;
    SumAgree(words + {w}, f, v => Minority(obs, v));
    SumAgree(words, f, v => Minority(obs, v));
  }

  /** How many scored steps have their prefix in `words`. */
  ghost function Scored(obs: seq<Observation>, words: set<Word>): int {
    Sum(words, w => Count(obs, w))
  }

  lemma ScoredAdd(obs: seq<Observation>, words: set<Word>, w: Word)
    requires w !in words
    ensures Scored(obs, words + {w}) == Scored(obs, words) + Count(obs, w)
  {
    var f := (v: Word) => Count(obs, v) as int;
    SumRemove(words + {w}, f, w);
    assert words + {w} - {w} == words;
    SumAgree(words + {w}, f, v => Count(obs, v));
    SumAgree(words, f, v => Count(obs, v));
  }

  lemma {:induction false} ScoredAll(obs: seq<Observation>, words: set<Word>)
    requires Covered(obs, words)
    ensures Scored(obs, words) == |obs|
    decreases |obs|
  {
    var after := (w: Word) => Count(obs, w) as int;
    if obs == [] {
      SumAgree(words, after, w => 0);
      SumZero(words);
    } else {
      var init := obs[..|obs| - 1];
      var last := obs[|obs| - 1].prefix;
      ScoredAll(init, words);
      var before := (w: Word) => Count(init, w) as int;
      SumRemove(words, before, last);
      SumRemove(words, after, last);
      SumAgree(words - {last}, before, after);
      SumAgree(words, before, w => Count(init, w));
    }
    SumAgree(words, after, w => Count(obs, w));
  }

  /**
   No predictor that sees only the prefix makes fewer errors than the evidence's own
   disagreements, and one that answers the majority label makes exactly that many.
   */
  lemma DisagreementsAreOptimal(obs: seq<Observation>, words: set<Word>, f: Word -> nat)
    requires BinaryLabels(obs) && Covered(obs, words)
    ensures Disagreements(obs, words) <= Errors(obs, f)
    ensures (forall w :: w in words ==> f(w) == Majority(obs, w)) ==> Errors(obs, f) == Disagreements(obs, words)
  {
    ErrorsByPrefix(obs, f, words);
    forall w | w in words
      ensures Minority(obs, w) <= ErrorsAt(obs, f, w)
      ensures f(w) == Majority(obs, w) ==> ErrorsAt(obs, f, w) == Minority(obs, w)
    {
      MajorityIsBest(obs, f, w);
    }
    SumMonotone(words, w => Minority(obs, w), w => ErrorsAt(obs, f, w));
    if forall w :: w in words ==> f(w) == Majority(obs, w) {
      SumAgree(words, w => Minority(obs, w), w => ErrorsAt(obs, f, w));
    }
  }
}
