/**
 Mealy machines over symbol streams (rule_automata.py): validation, the state a
 word leads to, and the stream of actions the verifier expects.
 */
module RuleAutomata {
  import opened Prelude

  datatype RuleAutomaton = RuleAutomaton(
    symbolCount: nat,
    transitions: seq<seq<nat>>,
    outputs: seq<seq<nat>>,
    actionCount: nat)
  {
    function StateCount(): nat {
      |transitions|
    }

    /** Exactly the conditions under which `validate` does not raise. */
    predicate Valid() {
      && symbolCount >= 2
      && actionCount >= 2
      && |transitions| > 0
      && |transitions| == |outputs|
      && (forall s :: 0 <= s < |transitions| ==> |transitions[s]| == symbolCount && |outputs[s]| == symbolCount)
      && (forall s, y :: 0 <= s < |transitions| && 0 <= y < symbolCount ==> transitions[s][y] < |transitions|)
      && (forall s, y :: 0 <= s < |transitions| && 0 <= y < symbolCount ==> outputs[s][y] < actionCount)
    }
  }

  /** Some entry at row `s`, column `y` of the table is `bound` or more. */
  ghost predicate Exceeds(table: seq<seq<nat>>, bound: nat, s: nat, y: nat) {
    s < |table| && y < |table[s]| && table[s][y] >= bound
  }

  /** What `validate` raises on: too few symbols or actions, no or ragged rows, a target or an answer too large. */
  lemma InvalidExactly(m: RuleAutomaton)
    ensures !m.Valid() <==>
      || m.symbolCount < 2 || m.actionCount < 2 || m.transitions == [] || |m.outputs| != |m.transitions|
      || (exists row :: row in m.transitions && |row| != m.symbolCount)
      || (exists row :: row in m.outputs && |row| != m.symbolCount)
      || (exists s, y :: Exceeds(m.transitions, |m.transitions|, s, y))
      || (exists s, y :: Exceeds(m.outputs, m.actionCount, s, y))
  {
    if (exists s, y :: Exceeds(m.transitions, |m.transitions|, s, y))
      || exists s, y :: Exceeds(m.outputs, m.actionCount, s, y)
    {
      assert !m.Valid();
    } else if !m.Valid() && m.symbolCount >= 2 && m.actionCount >= 2 && 0 < |m.transitions| == |m.outputs| {
      if forall s :: 0 <= s < |m.transitions| ==>
        |m.transitions[s]| == m.symbolCount && |m.outputs[s]| == m.symbolCount
      {
        var s: nat, y: nat :| s < |m.transitions| && y < m.symbolCount
          && (m.transitions[s][y] >= |m.transitions| || m.outputs[s][y] >= m.actionCount);
        assert Exceeds(m.transitions, |m.transitions|, s, y) || Exceeds(m.outputs, m.actionCount, s, y);
      }
    }
  }

  /** The state reached from `s` after the whole of `w`. */
  function Reach(m: RuleAutomaton, s: nat, w: Word): (t: nat)
    requires m.Valid() && s < m.StateCount() && InAlphabet(w, m.symbolCount)
    ensures t < m.StateCount()
    decreases |w|
  {
    if w == [] then s else m.transitions[Reach(m, s, w[..|w| - 1])][w[|w| - 1]]
  }

  /** The action emitted on the last symbol of `w`, started in `s`. */
  function EmitFrom(m: RuleAutomaton, s: nat, w: Word): (a: nat)
    requires m.Valid() && s < m.StateCount() && InAlphabet(w, m.symbolCount) && |w| > 0
    ensures a < m.actionCount
  {
    m.outputs[Reach(m, s, w[..|w| - 1])][w[|w| - 1]]
  }

  /** The machine as a predictor: what it answers after seeing exactly `w`. */
  function Emit(m: RuleAutomaton, w: Word): (a: nat)
    requires m.Valid() && InAlphabet(w, m.symbolCount) && |w| > 0
    ensures a < m.actionCount
  {
    EmitFrom(m, 0, w)
  }

  /** The machine as a predictor of prefixes. */
  ghost function Predictor(m: RuleAutomaton): Word -> nat
    requires m.Valid()
  {
    w => if |w| > 0 && InAlphabet(w, m.symbolCount) then Emit(m, w) else 0
  }

  /** The whole answer stream: at each position, the answer to the prefix ending there. */
  function Expected(m: RuleAutomaton, w: Word): (out: seq<nat>)
    requires m.Valid() && InAlphabet(w, m.symbolCount)
    ensures |out| == |w|
  {
    seq(|w|, i requires 0 <= i < |w| => Emit(m, w[..i + 1]))
  }

  /** Two machines over the same alphabets that answer every word alike. */
  ghost predicate SameBehaviour(a: RuleAutomaton, b: RuleAutomaton)
    requires a.Valid() && b.Valid()
  {
    && a.symbolCount == b.symbolCount
    && a.actionCount == b.actionCount
    && forall w: Word :: InAlphabet(w, a.symbolCount) && |w| > 0 ==> Emit(a, w) == Emit(b, w)
  }

  /** `RuleAutomaton.expected`: one pass, state carried in a variable, both exceptions kept. */
  method ComputeExpected(m: RuleAutomaton, symbols: Word) returns (r: Result<seq<nat>>)
    ensures r.Success? <==> m.Valid() && InAlphabet(symbols, m.symbolCount)
    ensures r.Success? ==> r.value == Expected(m, symbols)
  {
    if !m.Valid() {
      return Failure("invalid rule automaton");
    }
    var state: nat := 0;
    var presses: seq<nat> := [];
    for i := 0 to |symbols|
      invariant InAlphabet(symbols[..i], m.symbolCount)
      invariant state == Reach(m, 0, symbols[..i])
      invariant |presses| == i
      invariant forall k :: 0 <= k < i ==> presses[k] == Emit(m, symbols[..k + 1])
    {
      if symbols[i] >= m.symbolCount {
        return Failure("episode symbol is outside the rule alphabet");
      }
      assert symbols[..i + 1][..|symbols[..i + 1]| - 1] == symbols[..i];
      assert Emit(m, symbols[..i + 1]) == m.outputs[state][symbols[i]];
      presses := presses + [m.outputs[state][symbols[i]]];
      state := m.transitions[state][symbols[i]];
    }
    assert symbols[..|symbols|] == symbols;
    return Success(presses);
  }

  /** Reading a word in two halves. */
  lemma {:induction false} ReachAppend(m: RuleAutomaton, s: nat, u: Word, v: Word)
    requires m.Valid() && s < m.StateCount()
    requires InAlphabet(u, m.symbolCount) && InAlphabet(v, m.symbolCount)
    ensures InAlphabet(u + v, m.symbolCount)
    ensures Reach(m, s, u + v) == Reach(m, Reach(m, s, u), v)
    decreases |v|
  {
    if v == [] {
      assert u + v == u;
    } else {
      ReachAppend(m, s, u, v[..|v| - 1]);
      assert (u + v)[..|u + v| - 1] == u + v[..|v| - 1];
    }
  }

  lemma EmitAppend(m: RuleAutomaton, s: nat, u: Word, v: Word)
    requires m.Valid() && s < m.StateCount() && |v| > 0
    requires InAlphabet(u, m.symbolCount) && InAlphabet(v, m.symbolCount)
    ensures InAlphabet(u + v, m.symbolCount)
    ensures EmitFrom(m, s, u + v) == EmitFrom(m, Reach(m, s, u), v)
  {
    ReachAppend(m, s, u, v[..|v| - 1]);
    assert (u + v)[..|u + v| - 1] == u + v[..|v| - 1];
  }
}
