/**
 Backtracking induction of one-counter machines (class_escalation.py,
 `_search_counter` and `induce_counter_machine`).

 The search fills three shared tables along the flattened evidence and undoes every
 entry on failure. It is sound (success leaves tables whose machine reproduces every
 label), exactly undoing, and complete: although a new target is only ever the next
 unused state, failure rules out every machine of that size. What it finds is the first of
 all fitting machines in the order moves and targets are tried. How many nodes it visits is
 stated exactly, and so is when it gives up.
 */
module CounterSearch {
  import opened Prelude
  import opened Traces
  import opened CounterMachines

  type Cell = (nat, nat)
  type SignedCell = (nat, nat, nat)

  /** The dictionaries of `_search_counter` and the number of states in use. */
  datatype Tables = Tables(
    transitions: map<Cell, nat>,
    increments: map<Cell, int>,
    outputs: map<SignedCell, nat>,
    used: nat)

  /** Entries mention only states in use, symbols of the alphabet, and admissible moves. */
  ghost predicate WellKept(p: Problem, t: Tables) {
    && 1 <= t.used <= p.states
    && (forall k :: k in t.transitions ==> k.0 < t.used && k.1 < p.symbolCount && t.transitions[k] < t.used)
    && (forall k :: k in t.increments ==> k.0 < t.used && k.1 < p.symbolCount && -1 <= t.increments[k] <= 1)
    && (forall k :: k in t.outputs ==> k.0 < t.used && k.1 < p.symbolCount && k.2 < 3)
  }

  /** Everything recorded in `t` is still recorded in `u`. */
  ghost predicate Grows(t: Tables, u: Tables) {
    && t.used <= u.used
    && (forall k :: k in t.transitions ==> k in u.transitions && u.transitions[k] == t.transitions[k])
    && (forall k :: k in t.increments ==> k in u.increments && u.increments[k] == t.increments[k])
    && (forall k :: k in t.outputs ==> k in u.outputs && u.outputs[k] == t.outputs[k])
  }

  /** The machine agrees with every recorded entry. */
  ghost predicate Extends(m: CounterMachine, t: Tables)
    requires m.Valid()
  {
    && (forall k :: k in t.transitions ==>
      k.0 < m.StateCount() && k.1 < m.symbolCount && m.transitions[k.0][k.1] == t.transitions[k])
    && (forall k :: k in t.increments ==>
      k.0 < m.StateCount() && k.1 < m.symbolCount && m.increments[k.0][k.1] == t.increments[k])
    && (forall k :: k in t.outputs ==>
      k.0 < m.StateCount() && k.1 < m.symbolCount && k.2 < 3 && m.outputs[k.0][k.1][k.2] == t.outputs[k])
  }

  /** Following recorded entries alone reproduces every label from step `i` on. */
  ghost predicate Replays(p: Problem, t: Tables, i: nat, c: Config)
    requires p.Valid()
    decreases |p.steps| - i
  {
    i < |p.steps| ==>
      var k := (c.state, p.Symbol(i));
      && k in t.transitions && k in t.increments
      && var v := c.counter + t.increments[k];
         && (p.Want(i).Some? ==> (k.0, k.1, Sign(v)) in t.outputs && t.outputs[(k.0, k.1, Sign(v))] == p.Want(i).value)
         && Replays(p, t, i + 1, Enter(p, i, Config(t.transitions[k], v)))
  }

  // ------------------------------------------------------------ the machine of tables

  /** `_counter_from_cells`: unvisited cells stay put, do not move the counter, and emit nothing. */
  function FromCells(p: Problem, t: Tables): CounterMachine {
    CounterMachine(
      p.symbolCount,
      seq(t.used, s requires 0 <= s < t.used =>
        seq(p.symbolCount, y requires 0 <= y < p.symbolCount =>
          if (s, y) in t.transitions then t.transitions[(s, y)] else s)),
      seq(t.used, s requires 0 <= s < t.used =>
        seq(p.symbolCount, y requires 0 <= y < p.symbolCount =>
          if (s, y) in t.increments then t.increments[(s, y)] else 0)),
      seq(t.used, s requires 0 <= s < t.used =>
        seq(p.symbolCount, y requires 0 <= y < p.symbolCount =>
          seq(3, g requires 0 <= g < 3 => if (s, y, g) in t.outputs then t.outputs[(s, y, g)] else 0))))
  }

  lemma FromCellsSizes(p: Problem, t: Tables)
    ensures var m := FromCells(p, t);
      && |m.transitions| == |m.increments| == |m.outputs| == t.used && m.symbolCount == p.symbolCount
      && forall s :: 0 <= s < t.used ==> |m.transitions[s]| == |m.increments[s]| == |m.outputs[s]| == p.symbolCount
  {
  }

  lemma FromCellsEntries(p: Problem, t: Tables, s: nat, y: nat)
    requires s < t.used && y < p.symbolCount
    ensures var m := FromCells(p, t);
      && |m.transitions| == |m.increments| == |m.outputs| == t.used
      && |m.transitions[s]| == |m.increments[s]| == |m.outputs[s]| == p.symbolCount
      && m.transitions[s][y] == (if (s, y) in t.transitions then t.transitions[(s, y)] else s)
      && m.increments[s][y] == (if (s, y) in t.increments then t.increments[(s, y)] else 0)
      && |m.outputs[s][y]| == 3
      && forall g :: 0 <= g < 3 ==> m.outputs[s][y][g] == if (s, y, g) in t.outputs then t.outputs[(s, y, g)] else 0
  {
  }

  lemma FromCellsShape(p: Problem, t: Tables)
    requires WellKept(p, t)
    ensures FromCells(p, t).Valid() && FromCells(p, t).StateCount() == t.used
      && FromCells(p, t).symbolCount == p.symbolCount
  {
    hide FromCells;
    var m := FromCells(p, t);
    FromCellsSizes(p, t);
    forall s, y | 0 <= s < t.used && 0 <= y < p.symbolCount
      ensures m.transitions[s][y] < t.used && -1 <= m.increments[s][y] <= 1 && |m.outputs[s][y]| == 3
    {
      FromCellsEntries(p, t, s, y);
    }
  }

  lemma FromCellsFits(p: Problem, t: Tables)
    requires WellKept(p, t)
    ensures FromCells(p, t).Valid() && Extends(FromCells(p, t), t)
    ensures FromCells(p, t).StateCount() == t.used && FromCells(p, t).symbolCount == p.symbolCount
  {
    hide FromCells, CounterMachine.Valid;
    FromCellsShape(p, t);
    FromCellsSizes(p, t);
    var m := FromCells(p, t);
    forall k | k in t.outputs
      ensures k.0 < |m.outputs| && k.1 < |m.outputs[k.0]| && |m.outputs[k.0][k.1]| == 3
    {
      FromCellsEntries(p, t, k.0, k.1);
    }
    forall k | k in t.transitions
      ensures k.0 < m.StateCount() && k.1 < m.symbolCount && m.transitions[k.0][k.1] == t.transitions[k]
    {
      FromCellsEntries(p, t, k.0, k.1);
      assert k == (k.0, k.1);
    }
    forall k | k in t.increments
      ensures k.0 < m.StateCount() && k.1 < m.symbolCount && m.increments[k.0][k.1] == t.increments[k]
    {
      FromCellsEntries(p, t, k.0, k.1);
      assert k == (k.0, k.1);
    }
    forall k | k in t.outputs
      ensures k.0 < m.StateCount() && k.1 < m.symbolCount && k.2 < 3 && m.outputs[k.0][k.1][k.2] == t.outputs[k]
    {
      FromCellsEntries(p, t, k.0, k.1);
      assert k == (k.0, k.1, k.2);
    }
  }

  /** A machine that extends tables which replay the evidence fits it. */
  lemma {:induction false} ReplayFits(p: Problem, t: Tables, m: CounterMachine, i: nat, c: Config)
    requires p.Valid() && m.Valid() && m.symbolCount == p.symbolCount && Extends(m, t)
    requires c.state < m.StateCount() && Replays(p, t, i, c)
    ensures Fits(p, m, i, c)
    decreases |p.steps| - i
  {
    if i < |p.steps| {
      var k := (c.state, p.Symbol(i));
      var d := Enter(p, i, Next(m, c, p.Symbol(i)));
      assert m.transitions[k.0][k.1] == t.transitions[k] && m.increments[k.0][k.1] == t.increments[k];
      if p.Want(i).Some? {
        var g := (k.0, k.1, Sign(c.counter + t.increments[k]));
        assert g in t.outputs && m.outputs[g.0][g.1][g.2] == t.outputs[g];
      }
      ReplayFits(p, t, m, i + 1, d);
    }
  }

  // ------------------------------------------------------------------ symmetry breaking

  /** Exchanging two states. */
  function Swap(s: nat, a: nat, b: nat): nat {
    if s == a then b else if s == b then a else s
  }

  function SwapTargets(row: seq<nat>, a: nat, b: nat): (r: seq<nat>)
    ensures |r| == |row| && forall y :: 0 <= y < |row| ==> r[y] == Swap(row[y], a, b)
  {
    seq(|row|, y requires 0 <= y < |row| => Swap(row[y], a, b))
  }

  function SwapStates(m: CounterMachine, a: nat, b: nat): (r: CounterMachine)
    requires m.Valid() && a < m.StateCount() && b < m.StateCount()
  {
    var n := m.StateCount();
    CounterMachine(
      m.symbolCount,
      seq(n, s requires 0 <= s < n => SwapTargets(m.transitions[Swap(s, a, b)], a, b)),
      seq(n, s requires 0 <= s < n => m.increments[Swap(s, a, b)]),
      seq(n, s requires 0 <= s < n => m.outputs[Swap(s, a, b)]))
  }

  lemma SwapValid(m: CounterMachine, a: nat, b: nat)
    requires m.Valid() && a < m.StateCount() && b < m.StateCount()
    ensures SwapStates(m, a, b).Valid() && SwapStates(m, a, b).StateCount() == m.StateCount()
  {
  }

  lemma SwapExtends(p: Problem, m: CounterMachine, t: Tables, a: nat, b: nat)
    requires m.Valid() && t.used <= a < m.StateCount() && t.used <= b < m.StateCount()
    requires WellKept(p, t) && Extends(m, t)
    ensures SwapStates(m, a, b).Valid() && Extends(SwapStates(m, a, b), t)
  {
    SwapValid(m, a, b);
  }

  /** Renaming states that no restart mentions does not change what a machine fits. */
  lemma {:induction false} SwapFits(p: Problem, m: CounterMachine, a: nat, b: nat, i: nat, c: Config)
    requires p.Valid() && m.Valid() && m.symbolCount == p.symbolCount
    requires 0 < a < m.StateCount() && 0 < b < m.StateCount() && c.state < m.StateCount()
    requires Fits(p, m, i, c)
    ensures SwapStates(m, a, b).Valid()
    ensures Fits(p, SwapStates(m, a, b), i, Config(Swap(c.state, a, b), c.counter))
    decreases |p.steps| - i
  {
    SwapValid(m, a, b);
    if i < |p.steps| {
      var r := SwapStates(m, a, b);
      var y := p.Symbol(i);
      var d := Next(m, c, y);
      var c' := Config(Swap(c.state, a, b), c.counter);
      assert Next(r, c', y) == Config(Swap(d.state, a, b), d.counter);
      assert Output(r, c', y) == Output(m, c, y);
      SwapFits(p, m, a, b, i + 1, Enter(p, i, d));
    }
  }

  // ----------------------------------------------------------------- what failure means

  /** A machine of the size being tried that agrees with the tables. */
  ghost predicate Candidate(p: Problem, m: CounterMachine, t: Tables) {
    m.Valid() && m.StateCount() == p.states && m.symbolCount == p.symbolCount && Extends(m, t)
  }

  /** No candidate fits from step `i`. */
  ghost predicate NoneFits(p: Problem, t: Tables, i: nat, c: Config)
    requires p.Valid()
  {
    forall m :: Candidate(p, m, t) && c.state < m.StateCount() ==> !Fits(p, m, i, c)
  }

  /** No candidate that moves the counter by `move` in the current cell fits. */
  ghost predicate NoneFitsMoving(p: Problem, t: Tables, i: nat, c: Config, move: int)
    requires p.Valid() && i < |p.steps|
  {
    forall m :: Candidate(p, m, t) && c.state < m.StateCount() && m.increments[c.state][p.Symbol(i)] == move ==>
      !Fits(p, m, i, c)
  }

  /** No candidate that goes to `target` in the current cell fits. */
  ghost predicate NoneFitsGoing(p: Problem, t: Tables, i: nat, c: Config, target: nat)
    requires p.Valid() && i < |p.steps|
  {
    forall m :: Candidate(p, m, t) && c.state < m.StateCount() && m.transitions[c.state][p.Symbol(i)] == target ==>
      !Fits(p, m, i, c)
  }

  /** The tables once the counter move of the current cell, and its output if scored, are recorded. */
  function Moved(p: Problem, t: Tables, i: nat, c: Config, move: int): Tables
    requires p.Valid() && i < |p.steps|
  {
    var k := (c.state, p.Symbol(i));
    t.(increments := t.increments[k := move],
       outputs := if p.Want(i).Some? then t.outputs[(k.0, k.1, Sign(c.counter + move)) := p.Want(i).value]
         else t.outputs)
  }

  /** The tables once the target of the current cell is recorded. */
  function Targeted(p: Problem, t: Tables, i: nat, c: Config, target: nat): Tables
    requires p.Valid() && i < |p.steps|
  {
    var k := (c.state, p.Symbol(i));
    t.(transitions := t.transitions[k := target],
       used := if k !in t.transitions && target == t.used then t.used + 1 else t.used)
  }

  /** The recorded label contradicts the one wanted here. */
  predicate Contradicts(p: Problem, t: Tables, i: nat, c: Config, move: int)
    requires p.Valid() && i < |p.steps|
  {
    var g := (c.state, p.Symbol(i), Sign(c.counter + move));
    p.Want(i).Some? && g in t.outputs && t.outputs[g] != p.Want(i).value
  }

  lemma ContradictionFails(p: Problem, t: Tables, i: nat, c: Config, move: int)
    requires p.Valid() && i < |p.steps| && Contradicts(p, t, i, c, move)
    ensures NoneFitsMoving(p, t, i, c, move)
  {
    var g := (c.state, p.Symbol(i), Sign(c.counter + move));
    forall m | Candidate(p, m, t) && c.state < m.StateCount() && m.increments[c.state][p.Symbol(i)] == move
      ensures !Fits(p, m, i, c)
    {
      assert m.outputs[g.0][g.1][g.2] == t.outputs[g];
    }
  }

  /** A fitting candidate that makes the recorded move also agrees with the tables after the move. */
  lemma MovedCandidate(p: Problem, t: Tables, i: nat, c: Config, move: int, m: CounterMachine)
    requires p.Valid() && i < |p.steps| && WellKept(p, t) && c.state < t.used
    requires Candidate(p, m, t) && m.increments[c.state][p.Symbol(i)] == move && Fits(p, m, i, c)
    ensures Candidate(p, m, Moved(p, t, i, c, move))
  {
  }

  lemma MovedKept(p: Problem, t: Tables, i: nat, c: Config, move: int)
    requires p.Valid() && i < |p.steps| && WellKept(p, t) && c.state < t.used && -1 <= move <= 1
    ensures WellKept(p, Moved(p, t, i, c, move))
  {
  }

  lemma TargetedKept(p: Problem, t: Tables, i: nat, c: Config, target: nat)
    requires p.Valid() && i < |p.steps| && WellKept(p, t) && c.state < t.used
    requires target < t.used || ((c.state, p.Symbol(i)) !in t.transitions && target == t.used < p.states)
    ensures WellKept(p, Targeted(p, t, i, c, target))
  {
  }

  /** Failing after a target has been fixed rules out every candidate that goes there. */
  lemma TargetFails(p: Problem, t: Tables, i: nat, c: Config, target: nat, v: int)
    requires p.Valid() && i < |p.steps| && WellKept(p, t) && c.state < t.used
    requires (c.state, p.Symbol(i)) in t.increments && v == c.counter + t.increments[(c.state, p.Symbol(i))]
    requires NoneFits(p, Targeted(p, t, i, c, target), i + 1, Enter(p, i, Config(target, v)))
    ensures NoneFitsGoing(p, t, i, c, target)
  {
    var k := (c.state, p.Symbol(i));
    forall m | Candidate(p, m, t) && c.state < m.StateCount() && m.transitions[c.state][p.Symbol(i)] == target
      ensures !Fits(p, m, i, c)
    {
      assert m.increments[k.0][k.1] == t.increments[k];
      assert Next(m, c, p.Symbol(i)) == Config(target, v);
      assert Candidate(p, m, Targeted(p, t, i, c, target));
    }
  }

  lemma SwappedCandidate(p: Problem, t: Tables, i: nat, c: Config, target: nat, m: CounterMachine)
    returns (r: CounterMachine)
    requires p.Valid() && i < |p.steps| && WellKept(p, t) && c.state < t.used
    requires t.used <= target < p.states
    requires Candidate(p, m, t) && m.transitions[c.state][p.Symbol(i)] == target && Fits(p, m, i, c)
    ensures Candidate(p, r, t) && r.transitions[c.state][p.Symbol(i)] == t.used && Fits(p, r, i, c)
  {
    SwapExtends(p, m, t, target, t.used);
    SwapFits(p, m, target, t.used, i, c);
    SwapValid(m, target, t.used);
    r := SwapStates(m, target, t.used);
  }

  /** Trying the next unused state is enough: any other unused state is a renaming of it. */
  lemma UnusedTargetsAlike(p: Problem, t: Tables, i: nat, c: Config, target: nat)
    requires p.Valid() && i < |p.steps| && WellKept(p, t) && c.state < t.used
    requires t.used <= target < p.states
    requires NoneFitsGoing(p, t, i, c, t.used)
    ensures NoneFitsGoing(p, t, i, c, target)
  {
    forall m | Candidate(p, m, t) && c.state < m.StateCount() && m.transitions[c.state][p.Symbol(i)] == target
      ensures !Fits(p, m, i, c)
    {
      if Fits(p, m, i, c) {
        var r := SwappedCandidate(p, t, i, c, target, m);
      }
    }
  }

  /** All targets exhausted: nothing that makes this move fits. */
  lemma MoveFails(p: Problem, t: Tables, i: nat, c: Config, move: int)
    requires p.Valid() && i < |p.steps| && WellKept(p, t) && c.state < t.used
    requires var u := Moved(p, t, i, c, move);
      forall target: nat :: target < p.states ==> NoneFitsGoing(p, u, i, c, target)
    ensures NoneFitsMoving(p, t, i, c, move)
  {
    var u := Moved(p, t, i, c, move);
    forall m | Candidate(p, m, t) && c.state < m.StateCount() && m.increments[c.state][p.Symbol(i)] == move
      ensures !Fits(p, m, i, c)
    {
      assert NoneFitsGoing(p, u, i, c, m.transitions[c.state][p.Symbol(i)]);
      if Fits(p, m, i, c) {
        MovedCandidate(p, t, i, c, move, m);
      }
    }
  }

  /** All moves exhausted: nothing fits. */
  lemma StepFails(p: Problem, t: Tables, i: nat, c: Config)
    requires p.Valid() && i < |p.steps| && WellKept(p, t) && c.state < t.used
    requires var k := (c.state, p.Symbol(i));
      if k in t.increments then NoneFitsMoving(p, t, i, c, t.increments[k])
      else NoneFitsMoving(p, t, i, c, 0) && NoneFitsMoving(p, t, i, c, 1) && NoneFitsMoving(p, t, i, c, -1)
    ensures NoneFits(p, t, i, c)
  {
    var k := (c.state, p.Symbol(i));
    forall m | Candidate(p, m, t) && c.state < m.StateCount()
      ensures !Fits(p, m, i, c)
    {
      var move := m.increments[k.0][k.1];
      assert move == 0 || move == 1 || move == -1;
    }
  }

  // ------------------------------------------------------------- what is found first

  /** The order in which counter moves are tried. */
  function Rank(move: int): nat {
    if move == 0 then 0 else if move == 1 then 1 else 2
  }

  /**
   From step `i` on, the moves and targets `m` chooses along the evidence are not before
   the recorded ones: at the first difference its move is tried later, or its target is larger.
   */
  ghost predicate NotBefore(p: Problem, m: CounterMachine, t: Tables, i: nat, c: Config)
    requires p.Valid() && m.Valid() && m.symbolCount == p.symbolCount && c.state < m.StateCount()
    decreases |p.steps| - i
  {
    i < |p.steps| ==>
      var k := (c.state, p.Symbol(i));
      var move, target := m.increments[k.0][k.1], m.transitions[k.0][k.1];
      && k in t.increments && k in t.transitions
      && (Rank(t.increments[k]) < Rank(move)
          || (t.increments[k] == move
              && (t.transitions[k] < target
                  || (t.transitions[k] == target && NotBefore(p, m, t, i + 1, Enter(p, i, Next(m, c, p.Symbol(i))))))))
  }

  /** What `found` records comes first among the candidates that fit from step `i`. */
  ghost predicate FirstFit(p: Problem, t: Tables, found: Tables, i: nat, c: Config)
    requires p.Valid()
  {
    forall m :: Candidate(p, m, t) && c.state < m.StateCount() && Fits(p, m, i, c) ==> NotBefore(p, m, found, i, c)
  }

  /** The same among the candidates that make this move. */
  ghost predicate FirstMoving(p: Problem, t: Tables, found: Tables, i: nat, c: Config, move: int)
    requires p.Valid() && i < |p.steps|
  {
    forall m ::
      && Candidate(p, m, t) && c.state < m.StateCount() && Fits(p, m, i, c)
      && m.increments[c.state][p.Symbol(i)] == move ==>
      NotBefore(p, m, found, i, c)
  }

  /** The same among the candidates that go to this target. */
  ghost predicate FirstGoing(p: Problem, t: Tables, found: Tables, i: nat, c: Config, target: nat)
    requires p.Valid() && i < |p.steps|
  {
    forall m ::
      && Candidate(p, m, t) && c.state < m.StateCount() && Fits(p, m, i, c)
      && m.transitions[c.state][p.Symbol(i)] == target ==>
      NotBefore(p, m, found, i, c)
  }

  /** The current cell is recorded with this move and this target. */
  ghost predicate Records(p: Problem, t: Tables, i: nat, c: Config, move: int, target: nat)
    requires p.Valid() && i < |p.steps|
  {
    var k := (c.state, p.Symbol(i));
    k in t.increments && t.increments[k] == move && k in t.transitions && t.transitions[k] == target
  }

  lemma GrownRecords(p: Problem, t: Tables, i: nat, c: Config, move: int, target: nat, found: Tables)
    requires p.Valid() && i < |p.steps| && Grows(Targeted(p, Moved(p, t, i, c, move), i, c, target), found)
    ensures Records(p, found, i, c, move, target)
  {
    var k := (c.state, p.Symbol(i));
    var u := Targeted(p, Moved(p, t, i, c, move), i, c, target);
    assert k in u.increments && u.increments[k] == move && k in u.transitions && u.transitions[k] == target;
  }

  /** First from the next step on, for one target: first from here on among those that go there. */
  lemma GoingFirst(p: Problem, t: Tables, i: nat, c: Config, move: int, target: nat, found: Tables)
    requires p.Valid() && i < |p.steps| && WellKept(p, Moved(p, t, i, c, move)) && c.state < t.used
    requires Records(p, found, i, c, move, target)
    requires FirstFit(p, Targeted(p, Moved(p, t, i, c, move), i, c, target), found, i + 1,
      Enter(p, i, Config(target, c.counter + move)))
    ensures FirstGoing(p, Moved(p, t, i, c, move), found, i, c, target)
  {
    hide WellKept;
    var k := (c.state, p.Symbol(i));
    var u := Moved(p, t, i, c, move);
    forall m | Candidate(p, m, u) && c.state < m.StateCount() && m.transitions[k.0][k.1] == target && Fits(p, m, i, c)
      ensures NotBefore(p, m, found, i, c)
    {
      assert k in u.increments && m.increments[k.0][k.1] == u.increments[k] == move;
      assert Next(m, c, p.Symbol(i)) == Config(target, c.counter + move);
      assert Candidate(p, m, Targeted(p, u, i, c, target));
    }
  }

  /** All smaller targets failed: what was found with this one comes first. */
  lemma TargetsFirst(p: Problem, t: Tables, i: nat, c: Config, move: int, target: nat, found: Tables)
    requires p.Valid() && i < |p.steps| && Records(p, found, i, c, move, target)
    requires (c.state, p.Symbol(i)) in t.increments && t.increments[(c.state, p.Symbol(i))] == move
    requires var k := (c.state, p.Symbol(i));
      if k in t.transitions then t.transitions[k] == target
      else forall s: nat :: s < target ==> NoneFitsGoing(p, t, i, c, s)
    requires FirstGoing(p, t, found, i, c, target)
    ensures FirstFit(p, t, found, i, c)
  {
    var k := (c.state, p.Symbol(i));
    forall m | Candidate(p, m, t) && c.state < m.StateCount() && Fits(p, m, i, c)
      ensures NotBefore(p, m, found, i, c)
    {
      assert m.increments[k.0][k.1] == t.increments[k];
      var s: nat := m.transitions[k.0][k.1];
      if k in t.transitions {
        assert s == t.transitions[k];
      } else {
        assert NoneFitsGoing(p, t, i, c, s) || target <= s;
      }
    }
  }

  lemma MovingFirst(p: Problem, t: Tables, i: nat, c: Config, move: int, found: Tables)
    requires p.Valid() && i < |p.steps| && WellKept(p, t) && c.state < t.used
    requires FirstFit(p, Moved(p, t, i, c, move), found, i, c)
    ensures FirstMoving(p, t, found, i, c, move)
  {
    hide WellKept, NotBefore, Fits;
    forall m | Candidate(p, m, t) && c.state < m.StateCount() && m.increments[c.state][p.Symbol(i)] == move
      && Fits(p, m, i, c)
      ensures NotBefore(p, m, found, i, c)
    {
      MovedCandidate(p, t, i, c, move, m);
    }
  }

  /** All earlier moves failed: what was found with this one comes first. */
  lemma StepFirst(p: Problem, t: Tables, i: nat, c: Config, move: int, target: nat, found: Tables)
    requires p.Valid() && i < |p.steps| && WellKept(p, t) && c.state < t.used && -1 <= move <= 1
    requires Records(p, found, i, c, move, target) && FirstMoving(p, t, found, i, c, move)
    requires var k := (c.state, p.Symbol(i));
      if k in t.increments then t.increments[k] == move
      else forall other: int :: -1 <= other <= 1 && Rank(other) < Rank(move) ==> NoneFitsMoving(p, t, i, c, other)
    ensures FirstFit(p, t, found, i, c)
  {
    hide WellKept;
    var k := (c.state, p.Symbol(i));
    forall m | Candidate(p, m, t) && c.state < m.StateCount() && Fits(p, m, i, c)
      ensures NotBefore(p, m, found, i, c)
    {
      var other := m.increments[k.0][k.1];
      assert -1 <= other <= 1;
      if k in t.increments {
        assert other == t.increments[k];
      } else {
        assert NoneFitsMoving(p, t, i, c, other) || Rank(move) <= Rank(other);
      }
    }
  }

  // ------------------------------------------------------- what is recorded is used

  /** Replaying from step `i` comes through cell `k`. */
  ghost predicate Visits(p: Problem, t: Tables, i: nat, c: Config, k: Cell)
    requires p.Valid()
    decreases |p.steps| - i
  {
    && i < |p.steps|
    && var here := (c.state, p.Symbol(i));
       || k == here
       || (here in t.increments && here in t.transitions
           && Visits(p, t, i + 1, Enter(p, i, Config(t.transitions[here], c.counter + t.increments[here])), k))
  }

  /** Replaying from step `i` reads cell `g` at a scored step. */
  ghost predicate Scores(p: Problem, t: Tables, i: nat, c: Config, g: SignedCell)
    requires p.Valid()
    decreases |p.steps| - i
  {
    && i < |p.steps|
    && var here := (c.state, p.Symbol(i));
       && here in t.increments && here in t.transitions
       && var v := c.counter + t.increments[here];
          || (p.Want(i).Some? && g == (here.0, here.1, Sign(v)))
          || Scores(p, t, i + 1, Enter(p, i, Config(t.transitions[here], v)), g)
  }

  /** What `found` records was recorded before, or is used from step `i` on; new states are targets. */
  ghost predicate OnlyVisited(p: Problem, t: Tables, found: Tables, i: nat, c: Config)
    requires p.Valid()
  {
    && (forall k :: k in found.increments ==> k in t.increments || Visits(p, found, i, c, k))
    && (forall k :: k in found.transitions ==> k in t.transitions || Visits(p, found, i, c, k))
    && (forall g :: g in found.outputs ==> g in t.outputs || Scores(p, found, i, c, g))
    && (forall s :: t.used <= s < found.used ==> Targets(found, s))
  }

  ghost predicate Targets(t: Tables, s: nat) {
    exists k :: k in t.transitions && t.transitions[k] == s
  }

  lemma VisitedNext(p: Problem, t: Tables, i: nat, c: Config, move: int, target: nat, found: Tables)
    requires p.Valid() && i < |p.steps| && Records(p, found, i, c, move, target)
    requires OnlyVisited(p, Targeted(p, t, i, c, target), found, i + 1, Enter(p, i, Config(target, c.counter + move)))
    ensures OnlyVisited(p, t, found, i, c)
  {
    var here, next := (c.state, p.Symbol(i)), Enter(p, i, Config(target, c.counter + move));
    forall k | k in found.increments && k !in t.increments
      ensures Visits(p, found, i, c, k)
    {
      assert Visits(p, found, i + 1, next, k);
    }
    forall k | k in found.transitions && k !in t.transitions
      ensures Visits(p, found, i, c, k)
    {
      assert k == here || Visits(p, found, i + 1, next, k);
    }
    forall g | g in found.outputs && g !in t.outputs
      ensures Scores(p, found, i, c, g)
    {
      assert Scores(p, found, i + 1, next, g);
    }
    forall s | t.used <= s < found.used
      ensures Targets(found, s)
    {
      assert here in found.transitions && found.transitions[here] == target;
    }
  }

  lemma MovedVisited(p: Problem, t: Tables, i: nat, c: Config, move: int, target: nat, found: Tables)
    requires p.Valid() && i < |p.steps| && Records(p, found, i, c, move, target)
    requires OnlyVisited(p, Moved(p, t, i, c, move), found, i, c)
    ensures OnlyVisited(p, t, found, i, c)
  {
    assert Visits(p, found, i, c, (c.state, p.Symbol(i)));
    assert p.Want(i).Some? ==> Scores(p, found, i, c, (c.state, p.Symbol(i), Sign(c.counter + move)));
  }

  // ------------------------------------------------------------------------ the search

  datatype Outcome = Found | Failed | OutOfBudget

  lemma GrowsTransitive(t: Tables, u: Tables, v: Tables)
    requires Grows(t, u) && Grows(u, v)
    ensures Grows(t, v)
  {
  }

  lemma MovedGrows(p: Problem, t: Tables, i: nat, c: Config, move: int)
    requires p.Valid() && i < |p.steps| && !Contradicts(p, t, i, c, move)
    requires var k := (c.state, p.Symbol(i)); k in t.increments ==> t.increments[k] == move
    ensures Grows(t, Moved(p, t, i, c, move))
  {
  }

  lemma TargetedGrows(p: Problem, t: Tables, i: nat, c: Config, target: nat)
    requires p.Valid() && i < |p.steps|
    requires var k := (c.state, p.Symbol(i)); k in t.transitions ==> t.transitions[k] == target
    ensures Grows(t, Targeted(p, t, i, c, target))
  {
  }

  /** The current cell, once recorded, replays the current step in any larger tables. */
  lemma ReplayHere(p: Problem, t: Tables, i: nat, c: Config, move: int, target: nat, v: Tables)
    requires p.Valid() && i < |p.steps|
    requires Grows(Targeted(p, Moved(p, t, i, c, move), i, c, target), v)
    requires Replays(p, v, i + 1, Enter(p, i, Config(target, c.counter + move)))
    ensures Replays(p, v, i, c)
  {
    var k := (c.state, p.Symbol(i));
    var u := Targeted(p, Moved(p, t, i, c, move), i, c, target);
    assert k in u.transitions && u.transitions[k] == target;
    assert k in u.increments && u.increments[k] == move;
    if p.Want(i).Some? {
      var g := (k.0, k.1, Sign(c.counter + move));
      assert g in u.outputs && u.outputs[g] == p.Want(i).value;
    }
  }

  // ------------------------------------------------------------------ size of a search

  /**
   The nodes the search visits below a step: the step itself, and then one move after the
   other for as long as no machine makes the moves before it.
   */
  ghost function NodesOf(p: Problem, t: Tables, i: nat, c: Config): nat
    requires p.Valid() && i <= |p.steps|
    decreases |p.steps| - i, 4, 0
  {
    if i == |p.steps| then 0 else
      var k := (c.state, p.Symbol(i));
      if k in t.increments then 1 + NodesMove(p, t, i, c, t.increments[k])
      else
        1 + NodesMove(p, t, i, c, 0)
        + (if NoneFitsMoving(p, t, i, c, 0) then NodesMove(p, t, i, c, 1) else 0)
        + (if NoneFitsMoving(p, t, i, c, 0) && NoneFitsMoving(p, t, i, c, 1) then NodesMove(p, t, i, c, -1) else 0)
  }

  /** Below one move: none where a recorded label is contradicted. */
  ghost function NodesMove(p: Problem, t: Tables, i: nat, c: Config, move: int): nat
    requires p.Valid() && i < |p.steps|
    decreases |p.steps| - i, 3, 0
  {
    if Contradicts(p, t, i, c, move) then 0 else NodesTargets(p, Moved(p, t, i, c, move), i, c, move)
  }

  /** Below the recorded target, or below those on offer. */
  ghost function NodesTargets(p: Problem, t: Tables, i: nat, c: Config, move: int): nat
    requires p.Valid() && i < |p.steps|
    decreases |p.steps| - i, 2, 0
  {
    var k := (c.state, p.Symbol(i));
    if k in t.transitions then NodesTarget(p, t, i, c, move, t.transitions[k])
    else NodesUpTo(p, t, i, c, move, Offered(p, t))
  }

  /** The states in use, and a fresh one if the size allows it. */
  function Offered(p: Problem, t: Tables): nat {
    if t.used < p.states then t.used + 1 else t.used
  }

  /** Below the first `n` targets, each tried for as long as no machine goes to those before it. */
  ghost function NodesUpTo(p: Problem, t: Tables, i: nat, c: Config, move: int, n: nat): nat
    requires p.Valid() && i < |p.steps|
    decreases |p.steps| - i, 1, n
  {
    if n == 0 then 0 else
      NodesUpTo(p, t, i, c, move, n - 1)
      + (if NoneGoesBelow(p, t, i, c, n - 1) then NodesTarget(p, t, i, c, move, n - 1) else 0)
  }

  /** Below one target: those of the steps that follow. */
  ghost function NodesTarget(p: Problem, t: Tables, i: nat, c: Config, move: int, target: nat): nat
    requires p.Valid() && i < |p.steps|
    decreases |p.steps| - i, 0, 0
  {
    NodesOf(p, Targeted(p, t, i, c, target), i + 1, Enter(p, i, Config(target, c.counter + move)))
  }

  lemma NodesOfMove(p: Problem, t: Tables, i: nat, c: Config, move: int)
    requires p.Valid() && i < |p.steps|
    ensures NodesMove(p, t, i, c, move)
         == if Contradicts(p, t, i, c, move) then 0 else NodesTargets(p, Moved(p, t, i, c, move), i, c, move)
  {
  }

  lemma NodesOfTarget(p: Problem, t: Tables, i: nat, c: Config, move: int, target: nat)
    requires p.Valid() && i < |p.steps|
    ensures NodesTarget(p, t, i, c, move, target)
         == NodesOf(p, Targeted(p, t, i, c, target), i + 1, Enter(p, i, Config(target, c.counter + move)))
  {
  }

  ghost predicate NoneGoesBelow(p: Problem, t: Tables, i: nat, c: Config, n: nat)
    requires p.Valid() && i < |p.steps|
  {
    forall s: nat :: s < n ==> NoneFitsGoing(p, t, i, c, s)
  }

  lemma {:induction false} NodesUpToGrows(p: Problem, t: Tables, i: nat, c: Config, move: int, k: nat, n: nat)
    requires p.Valid() && i < |p.steps| && k <= n
    ensures NodesUpTo(p, t, i, c, move, k) <= NodesUpTo(p, t, i, c, move, n)
    decreases n
  {
    hide NodesTarget, NoneGoesBelow;
    if k < n {
      NodesUpToGrows(p, t, i, c, move, k, n - 1);
    }
  }

  /** Targets after one that some machine goes to are not tried. */
  lemma {:induction false} NodesStop(p: Problem, t: Tables, i: nat, c: Config, move: int, target: nat, n: nat)
    requires p.Valid() && i < |p.steps| && target < n && !NoneFitsGoing(p, t, i, c, target)
    ensures NodesUpTo(p, t, i, c, move, n) == NodesUpTo(p, t, i, c, move, target + 1)
    decreases n
  {
    hide NodesTarget, NoneFitsGoing;
    if target + 1 < n {
      NodesStop(p, t, i, c, move, target, n - 1);
    }
  }

  /** Nodes of the full search below a step with `steps` steps left: three moves, `states` targets each. */
  function SearchNodes(steps: nat, states: nat): nat {
    if steps == 0 then 0 else 1 + 3 * (states * SearchNodes(steps - 1, states))
  }

  /** Nodes of the full search below one target, one move and one step. */
  function TargetNodes(p: Problem, i: nat): nat
    requires i < |p.steps|
  {
    SearchNodes(|p.steps| - i - 1, p.states)
  }

  function MoveNodes(p: Problem, i: nat): nat
    requires i < |p.steps|
  {
    p.states * TargetNodes(p, i)
  }

  function StepNodes(p: Problem, i: nat): nat
    requires i <= |p.steps|
  {
    SearchNodes(|p.steps| - i, p.states)
  }

  lemma NodesOfStep(p: Problem, i: nat)
    requires i < |p.steps|
    ensures StepNodes(p, i) == 1 + 3 * MoveNodes(p, i)
    ensures StepNodes(p, i + 1) == TargetNodes(p, i)
  {
  }

  /** Trying `k` targets stays within the share of one move. */
  lemma NodesOfTargets(p: Problem, i: nat, k: nat)
    requires i < |p.steps| && k <= p.states
    ensures k * TargetNodes(p, i) <= MoveNodes(p, i)
    ensures (k + 1) * TargetNodes(p, i) == k * TargetNodes(p, i) + TargetNodes(p, i)
  {
    ProductOrdered(k, p.states, TargetNodes(p, i));
  }

  lemma ProductOrdered(a: nat, b: nat, n: nat)
    requires a <= b
    ensures a * n <= b * n
    ensures (a + 1) * n == a * n + n
  {
  }

  /** The nodes visited are among those of the full search. */
  lemma {:induction false} NodesWithinFull(p: Problem, t: Tables, i: nat, c: Config)
    requires p.Valid() && i <= |p.steps| && WellKept(p, t) && c.state < t.used
    ensures NodesOf(p, t, i, c) <= StepNodes(p, i)
    decreases |p.steps| - i, 4, 0
  {
    hide WellKept, NoneFitsMoving, MoveNodes, StepNodes, NodesMove, Moved, Targeted;
    if i < |p.steps| {
      NodesOfStep(p, i);
      KeptBounds(p, t);
      var k := (c.state, p.Symbol(i));
      if k in t.increments {
        MoveWithinFull(p, t, i, c, t.increments[k]);
      } else {
        MoveWithinFull(p, t, i, c, 0);
        MoveWithinFull(p, t, i, c, 1);
        MoveWithinFull(p, t, i, c, -1);
      }
    }
  }

  lemma {:induction false} MoveWithinFull(p: Problem, t: Tables, i: nat, c: Config, move: int)
    requires p.Valid() && i < |p.steps| && WellKept(p, t) && c.state < t.used && -1 <= move <= 1
    ensures NodesMove(p, t, i, c, move) <= MoveNodes(p, i)
    decreases |p.steps| - i, 3, 0
  {
    hide WellKept, MoveNodes, TargetNodes, NodesUpTo, NodesTarget, Contradicts;
    var k, u := (c.state, p.Symbol(i)), Moved(p, t, i, c, move);
    MovedKept(p, t, i, c, move);
    KeptBounds(p, u);
    NodesOfTargets(p, i, 1);
    if k in u.transitions {
      TargetInUse(p, u, i, c);
      TargetWithinFull(p, u, i, c, move, u.transitions[k]);
    } else {
      UpToWithinFull(p, u, i, c, move, Offered(p, u));
      NodesOfTargets(p, i, Offered(p, u));
    }
  }

  lemma {:induction false} UpToWithinFull(p: Problem, t: Tables, i: nat, c: Config, move: int, n: nat)
    requires p.Valid() && i < |p.steps| && WellKept(p, t) && c.state < t.used && n <= Offered(p, t) <= p.states
    requires (c.state, p.Symbol(i)) !in t.transitions
    ensures NodesUpTo(p, t, i, c, move, n) <= n * TargetNodes(p, i)
    decreases |p.steps| - i, 1, n
  {
    hide WellKept, MoveNodes, TargetNodes, NodesTarget, NoneGoesBelow;
    if n > 0 {
      UpToWithinFull(p, t, i, c, move, n - 1);
      TargetWithinFull(p, t, i, c, move, n - 1);
      NodesOfTargets(p, i, n - 1);
    }
  }

  lemma {:induction false} TargetWithinFull(p: Problem, t: Tables, i: nat, c: Config, move: int, target: nat)
    requires p.Valid() && i < |p.steps| && WellKept(p, t) && c.state < t.used
    requires target < t.used || ((c.state, p.Symbol(i)) !in t.transitions && target == t.used < p.states)
    ensures NodesTarget(p, t, i, c, move, target) <= TargetNodes(p, i)
    decreases |p.steps| - i, 0, 0
  {
    hide WellKept, NodesOf, StepNodes, TargetNodes;
    var u := Targeted(p, t, i, c, target);
    TargetedKept(p, t, i, c, target);
    TargetInUse(p, u, i, c);
    NodesOfStep(p, i);
    NodesWithinFull(p, u, i + 1, Enter(p, i, Config(target, c.counter + move)));
  }

  /** Recording an entry and taking it back, or recording it again, changes nothing. */
  lemma Undone<K, V>(m: map<K, V>, k: K, v: V)
    ensures k !in m ==> m[k := v] - {k} == m
    ensures k in m && m[k] == v ==> m[k := v] == m
  {
  }

  // ----------------------------------------------------------- what success establishes

  /**
   The tables `found` have only grown from `t`, replay the evidence from step `i` on, record
   what comes first of all candidates that fit it, and hold no move that is not made.
   */
  ghost predicate Finds(p: Problem, t: Tables, found: Tables, i: nat, c: Config)
    requires p.Valid()
  {
    && Grows(t, found) && WellKept(p, found) && Replays(p, found, i, c)
    && FirstFit(p, t, found, i, c) && OnlyVisited(p, t, found, i, c)
  }

  /** The same with the move and target of the current cell, first of the candidates that make this move. */
  ghost predicate FindsMoving(p: Problem, t: Tables, found: Tables, i: nat, c: Config, move: int, target: nat)
    requires p.Valid() && i < |p.steps|
  {
    && Grows(t, found) && WellKept(p, found) && Replays(p, found, i, c) && Records(p, found, i, c, move, target)
    && FirstMoving(p, t, found, i, c, move) && OnlyVisited(p, t, found, i, c)
  }

  /** The same, first of the candidates that go to this target. */
  ghost predicate FindsGoing(p: Problem, t: Tables, found: Tables, i: nat, c: Config, move: int, target: nat)
    requires p.Valid() && i < |p.steps|
  {
    && Grows(t, found) && WellKept(p, found) && Replays(p, found, i, c) && Records(p, found, i, c, move, target)
    && FirstGoing(p, t, found, i, c, target) && OnlyVisited(p, t, found, i, c)
  }

  /** What is found yields a candidate of the size tried that fits and follows what is recorded. */
  lemma FoundFits(p: Problem, t: Tables, found: Tables, i: nat, c: Config) returns (m: CounterMachine)
    requires p.Valid() && WellKept(p, t) && c.state < t.used
    requires Grows(t, found) && WellKept(p, found) && Replays(p, found, i, c)
    ensures Candidate(p, m, t) && Extends(m, found) && c.state < m.StateCount() && Fits(p, m, i, c)
  {
    hide Replays, Fits, FromCells, CounterMachine.Valid;
    FromCellsFits(p, found);
    ReplayFits(p, found, FromCells(p, found), i, c);
    m := Enlarge(p, FromCells(p, found), p.states, i, c);
    EnlargedExtends(FromCells(p, found), m, found);
    GrownExtends(m, t, found);
  }

  lemma EnlargedExtends(m: CounterMachine, r: CounterMachine, t: Tables)
    requires m.Valid() && r.Valid() && Extends(m, t) && m.symbolCount == r.symbolCount
    requires m.transitions <= r.transitions && m.increments <= r.increments && m.outputs <= r.outputs
    ensures Extends(r, t)
  {
    assert forall s :: 0 <= s < m.StateCount() ==>
      r.transitions[s] == m.transitions[s] && r.increments[s] == m.increments[s] && r.outputs[s] == m.outputs[s];
  }

  lemma GrownExtends(m: CounterMachine, t: Tables, u: Tables)
    requires m.Valid() && Grows(t, u) && Extends(m, u)
    ensures Extends(m, t)
  {
  }

  lemma FoundRefutesMoving(p: Problem, t: Tables, found: Tables, i: nat, c: Config, move: int, target: nat)
    requires p.Valid() && i < |p.steps| && WellKept(p, t) && c.state < t.used
    requires FindsMoving(p, t, found, i, c, move, target)
    ensures !NoneFitsMoving(p, t, i, c, move)
  {
    hide WellKept, Grows, Replays, Fits, FirstMoving, OnlyVisited;
    var m := FoundFits(p, t, found, i, c);
    assert m.increments[c.state][p.Symbol(i)] == move;
  }

  lemma FoundRefutesGoing(p: Problem, t: Tables, found: Tables, i: nat, c: Config, move: int, target: nat)
    requires p.Valid() && i < |p.steps| && WellKept(p, t) && c.state < t.used
    requires FindsGoing(p, t, found, i, c, move, target)
    ensures !NoneFitsGoing(p, t, i, c, target)
  {
    hide WellKept, Grows, Replays, Fits, FirstGoing, OnlyVisited;
    var m := FoundFits(p, t, found, i, c);
    assert m.transitions[c.state][p.Symbol(i)] == target;
  }

  lemma NothingLeft(p: Problem, t: Tables, c: Config)
    requires p.Valid() && WellKept(p, t)
    ensures Finds(p, t, t, |p.steps|, c)
  {
    hide WellKept;
  }

  lemma GoingFinds(p: Problem, t: Tables, i: nat, c: Config, move: int, target: nat, found: Tables)
    requires p.Valid() && i < |p.steps| && c.state < t.used && WellKept(p, Moved(p, t, i, c, move))
    requires var k, here := (c.state, p.Symbol(i)), Moved(p, t, i, c, move);
      k in here.transitions ==> here.transitions[k] == target
    requires Finds(p, Targeted(p, Moved(p, t, i, c, move), i, c, target), found, i + 1,
      Enter(p, i, Config(target, c.counter + move)))
    ensures FindsGoing(p, Moved(p, t, i, c, move), found, i, c, move, target)
  {
    hide Grows, WellKept, Replays, FirstFit, FirstGoing, OnlyVisited, Records, Moved, Targeted;
    var here := Moved(p, t, i, c, move);
    TargetedGrows(p, here, i, c, target);
    GrowsTransitive(here, Targeted(p, here, i, c, target), found);
    ReplayHere(p, t, i, c, move, target, found);
    GrownRecords(p, t, i, c, move, target, found);
    GoingFirst(p, t, i, c, move, target, found);
    VisitedNext(p, here, i, c, move, target, found);
  }

  lemma TargetsFind(p: Problem, t: Tables, i: nat, c: Config, move: int, target: nat, found: Tables)
    requires p.Valid() && i < |p.steps| && FindsGoing(p, t, found, i, c, move, target)
    requires (c.state, p.Symbol(i)) in t.increments && t.increments[(c.state, p.Symbol(i))] == move
    requires var k := (c.state, p.Symbol(i));
      if k in t.transitions then t.transitions[k] == target
      else forall s: nat :: s < target ==> NoneFitsGoing(p, t, i, c, s)
    ensures Finds(p, t, found, i, c) && Records(p, found, i, c, move, target)
  {
    hide Grows, WellKept, Replays, FirstFit, FirstGoing, OnlyVisited, Records, NoneFitsGoing;
    TargetsFirst(p, t, i, c, move, target, found);
  }

  lemma MovingFinds(p: Problem, t: Tables, i: nat, c: Config, move: int, target: nat, found: Tables)
    requires p.Valid() && i < |p.steps| && WellKept(p, t) && c.state < t.used && Grows(t, Moved(p, t, i, c, move))
    requires Finds(p, Moved(p, t, i, c, move), found, i, c) && Records(p, found, i, c, move, target)
    ensures FindsMoving(p, t, found, i, c, move, target)
  {
    hide Grows, WellKept, Replays, FirstFit, FirstMoving, OnlyVisited, Records, Moved;
    GrowsTransitive(t, Moved(p, t, i, c, move), found);
    MovingFirst(p, t, i, c, move, found);
    MovedVisited(p, t, i, c, move, target, found);
  }

  lemma StepFinds(p: Problem, t: Tables, i: nat, c: Config, move: int, target: nat, found: Tables)
    requires p.Valid() && i < |p.steps| && WellKept(p, t) && c.state < t.used && -1 <= move <= 1
    requires FindsMoving(p, t, found, i, c, move, target)
    requires var k := (c.state, p.Symbol(i));
      if k in t.increments then t.increments[k] == move
      else forall other: int :: -1 <= other <= 1 && Rank(other) < Rank(move) ==> NoneFitsMoving(p, t, i, c, other)
    ensures Finds(p, t, found, i, c)
  {
    hide Grows, WellKept, Replays, FirstFit, FirstMoving, OnlyVisited, Records, NoneFitsMoving;
    StepFirst(p, t, i, c, move, target, found);
  }

  /** What recording a move changes, and that taking the new entries back restores the tables. */
  lemma MoveUndone(p: Problem, t: Tables, i: nat, c: Config, move: int)
    requires p.Valid() && i < |p.steps| && !Contradicts(p, t, i, c, move)
    requires var k := (c.state, p.Symbol(i)); k in t.increments ==> t.increments[k] == move
    ensures
      var k, g, want := (c.state, p.Symbol(i)), (c.state, p.Symbol(i), Sign(c.counter + move)), p.Want(i);
      var moved := Moved(p, t, i, c, move);
      && moved.transitions == t.transitions && moved.used == t.used && moved.increments == t.increments[k := move]
      && moved.outputs == (if want.Some? && g !in t.outputs then t.outputs[g := want.value] else t.outputs)
      && t.increments == (if k in t.increments then moved.increments else moved.increments - {k})
      && t.outputs == (if want.Some? && g !in t.outputs then moved.outputs - {g} else moved.outputs)
  {
    var k, g := (c.state, p.Symbol(i)), (c.state, p.Symbol(i), Sign(c.counter + move));
    Undone(t.increments, k, move);
    if p.Want(i).Some? {
      Undone(t.outputs, g, p.Want(i).value);
    }
  }

  class Search {
    const problem: Problem
    const nodeBudget: nat
    var transitions: map<Cell, nat>
    var increments: map<Cell, int>
    var outputs: map<SignedCell, nat>
    var used: nat
    var visited: nat

    /** The shared tables as one value. */
    function Snapshot(): Tables
      reads this
    {
      Tables(transitions, increments, outputs, used)
    }

    constructor (problem: Problem, nodeBudget: nat)
      ensures this.problem == problem && this.nodeBudget == nodeBudget
      ensures Snapshot() == Tables(map[], map[], map[], 1) && visited == 0
    {
      this.problem, this.nodeBudget := problem, nodeBudget;
      transitions, increments, outputs := map[], map[], map[];
      used, visited := 1, 0;
    }

    /** These nodes, and no more, were visited within the budget; or they exceed it. */
    ghost predicate Counted(o: Outcome, before: nat, nodes: nat)
      reads this
    {
      if o == OutOfBudget then nodeBudget < before + nodes else visited == before + nodes <= nodeBudget
    }

    /** What a call must be given. */
    ghost predicate Ready(i: nat, c: Config)
      reads this
    {
      && problem.Valid() && i <= |problem.steps| && WellKept(problem, Snapshot()) && c.state < used
      && visited <= nodeBudget
    }

    /**
     `walk`. Found: the tables have only grown, replay the rest of the evidence, record what
     comes first, in the order moves and targets are tried, of all that fits it, and hold no
     move that is not made.
     Failed: the tables are exactly as they were, and no machine of this size that
     agrees with them fits the rest. OutOfBudget: the search for this size is given up.
     */
    method Walk(i: nat, state: nat, counter: int) returns (o: Outcome)
      requires Ready(i, Config(state, counter))
      modifies this
      ensures o == Found ==> Finds(problem, old(Snapshot()), Snapshot(), i, Config(state, counter))
      ensures o == Failed ==> Snapshot() == old(Snapshot())
      ensures o == Failed ==> NoneFits(problem, Snapshot(), i, Config(state, counter))
      ensures Counted(o, old(visited), NodesOf(problem, old(Snapshot()), i, Config(state, counter)))
      decreases |problem.steps| - i, 3
    {
      hide WellKept, NoneFits, NoneFitsMoving, NodesMove, Finds, FindsMoving;
      if i == |problem.steps| {
        NothingLeft(problem, Snapshot(), Config(state, counter));
        return Found;
      }
      visited := visited + 1;
      if visited > nodeBudget {
        return OutOfBudget;
      }
      ghost var before := Snapshot();
      var c := Config(state, counter);
      var k := (state, problem.Symbol(i));
      if k in increments {
        KeptBounds(problem, before);
        ghost var target;
        o, target := TryMove(i, c, increments[k]);
        if o == Found {
          StepFinds(problem, before, i, c, before.increments[k], target, Snapshot());
        }
        if o != Failed {
          return;
        }
      } else {
        ghost var target;
        o, target := TryMove(i, c, 0);
        if o == Found {
          StepFinds(problem, before, i, c, 0, target, Snapshot());
          FoundRefutesMoving(problem, before, Snapshot(), i, c, 0, target);
        }
        if o != Failed {
          return;
        }
        o, target := TryMove(i, c, 1);
        if o == Found {
          StepFinds(problem, before, i, c, 1, target, Snapshot());
          FoundRefutesMoving(problem, before, Snapshot(), i, c, 1, target);
        }
        if o != Failed {
          return;
        }
        o, target := TryMove(i, c, -1);
        if o == Found {
          StepFinds(problem, before, i, c, -1, target, Snapshot());
        }
        if o != Failed {
          return;
        }
      }
      StepFails(problem, before, i, c);
    }

    /** One pass of the loop over counter moves. */
    method TryMove(i: nat, c: Config, move: int) returns (o: Outcome, ghost target: nat)
      requires Ready(i, c) && i < |problem.steps| && -1 <= move <= 1
      requires (c.state, problem.Symbol(i)) in increments ==> increments[(c.state, problem.Symbol(i))] == move
      modifies this
      ensures o == Found ==> FindsMoving(problem, old(Snapshot()), Snapshot(), i, c, move, target)
      ensures o == Failed ==> Snapshot() == old(Snapshot())
      ensures o == Failed ==> NoneFitsMoving(problem, Snapshot(), i, c, move)
      ensures Counted(o, old(visited), NodesMove(problem, old(Snapshot()), i, c, move))
      decreases |problem.steps| - i, 2
    {
      hide NodesMove, NodesTargets, WellKept, Grows, NoneFitsMoving, NoneFitsGoing;
      hide Finds, FindsMoving, Records, Sign, Moved;
      ghost var before := Snapshot();
      NodesOfMove(problem, before, i, c, move);
      target := 0;
      var k := (c.state, problem.Symbol(i));
      var g := (c.state, problem.Symbol(i), Sign(c.counter + move));
      var want := problem.Want(i);
      var freshMove := k !in increments;
      increments := increments[k := move];
      var recorded := g in outputs;
      if want.Some? {
        if !recorded {
          outputs := outputs[g := want.value];
        } else if outputs[g] != want.value {
          ContradictionFails(problem, before, i, c, move);
          if freshMove {
            increments := increments - {k};
          }
          Undone(before.increments, k, move);
          return Failed, target;
        }
      }
      var freshCell := want.Some? && !recorded;
      ghost var moved := Moved(problem, before, i, c, move);
      MoveUndone(problem, before, i, c, move);
      assert Snapshot() == moved;
      MovedKept(problem, before, i, c, move);
      MovedGrows(problem, before, i, c, move);
      o, target := TryTargets(i, c, move, before);
      if o == Found {
        MovingFinds(problem, before, i, c, move, target, Snapshot());
        return;
      }
      if o == OutOfBudget {
        return;
      }
      MoveFails(problem, before, i, c, move);
      if freshCell {
        outputs := outputs - {g};
      }
      if freshMove {
        increments := increments - {k};
      }
    }

    /** The loop over targets: the recorded one, or every used state and then one fresh state. */
    method TryTargets(i: nat, c: Config, move: int, ghost before: Tables) returns (o: Outcome, ghost chosen: nat)
      requires Ready(i, c) && i < |problem.steps|
      requires Snapshot() == Moved(problem, before, i, c, move)
      modifies this
      ensures o == Found ==>
        Finds(problem, old(Snapshot()), Snapshot(), i, c) && Records(problem, Snapshot(), i, c, move, chosen)
      ensures o == Failed ==> Snapshot() == old(Snapshot())
      ensures o == Failed ==> forall target: nat :: target < problem.states ==>
        NoneFitsGoing(problem, Snapshot(), i, c, target)
      ensures Counted(o, old(visited), NodesTargets(problem, old(Snapshot()), i, c, move))
      decreases |problem.steps| - i, 1
    {
      hide WellKept, NoneFitsGoing, NodesTarget, Finds, FindsGoing, Records;
      ghost var here := Snapshot();
      chosen := 0;
      KeptBounds(problem, here);
      var k := (c.state, problem.Symbol(i));
      if k in transitions {
        var target := transitions[k];
        TargetInUse(problem, here, i, c);
        chosen := target;
        o := TryTarget(i, c, move, target, before);
        if o == Failed {
          OnlyRecordedTarget(problem, here, i, c);
        }
        if o == Found {
          TargetsFind(problem, here, i, c, move, target, Snapshot());
        }
        return;
      }
      var states := used;
      for target := 0 to states
        invariant Snapshot() == here
        invariant Counted(Failed, old(visited), NodesUpTo(problem, here, i, c, move, target))
        invariant NoneGoesBelow(problem, here, i, c, target)
      {
        chosen := target;
        o := TryTarget(i, c, move, target, before);
        NodesUpToGrows(problem, here, i, c, move, target + 1, Offered(problem, here));
        if o == Found {
          TargetsFind(problem, here, i, c, move, target, Snapshot());
          FoundRefutesGoing(problem, here, Snapshot(), i, c, move, target);
          NodesStop(problem, here, i, c, move, target, Offered(problem, here));
        }
        if o != Failed {
          return;
        }
      }
      if used < problem.states {
        chosen := used;
        o := TryTarget(i, c, move, used, before);
        if o == Found {
          TargetsFind(problem, here, i, c, move, chosen, Snapshot());
        }
        if o != Failed {
          return;
        }
        forall target: nat | used <= target < problem.states
          ensures NoneFitsGoing(problem, here, i, c, target)
        {
          UnusedTargetsAlike(problem, here, i, c, target);
        }
      }
      return Failed, chosen;
    }

    /** One target: record it, walk on, and undo on failure. */
    method TryTarget(i: nat, c: Config, move: int, target: nat, ghost before: Tables) returns (o: Outcome)
      requires Ready(i, c) && i < |problem.steps|
      requires Snapshot() == Moved(problem, before, i, c, move)
      requires target < used || ((c.state, problem.Symbol(i)) !in transitions && target == used < problem.states)
      requires (c.state, problem.Symbol(i)) in transitions ==> transitions[(c.state, problem.Symbol(i))] == target
      modifies this
      ensures o == Found ==> FindsGoing(problem, old(Snapshot()), Snapshot(), i, c, move, target)
      ensures o == Failed ==> Snapshot() == old(Snapshot())
      ensures o == Failed ==> NoneFitsGoing(problem, Snapshot(), i, c, target)
      ensures Counted(o, old(visited), NodesTarget(problem, old(Snapshot()), i, c, move, target))
      decreases |problem.steps| - i, 0
    {
      hide NodesOf, NodesTarget, WellKept, NoneFitsGoing, NoneFits, Finds, FindsGoing;
      ghost var here := Snapshot();
      var k := (c.state, problem.Symbol(i));
      var freshTarget := k !in transitions;
      transitions := transitions[k := target];
      var grew := freshTarget && target == used;
      if grew {
        used := used + 1;
      }
      ghost var targeted := Targeted(problem, here, i, c, target);
      assert Snapshot() == targeted;
      TargetedKept(problem, here, i, c, target);
      var value := c.counter + move;
      var restart := problem.RestartAfter(i);
      TargetInUse(problem, targeted, i, c);
      NodesOfTarget(problem, here, i, c, move, target);
      o := Walk(i + 1, if restart then 0 else target, if restart then 0 else value);
      if o == Found {
        GoingFinds(problem, before, i, c, move, target, Snapshot());
        return;
      }
      if o == OutOfBudget {
        return;
      }
      TargetFails(problem, here, i, c, target, value);
      if grew {
        used := used - 1;
      }
      if freshTarget {
        transitions := transitions - {k};
      }
      assert transitions == here.transitions;
    }
  }

  lemma TargetInUse(p: Problem, t: Tables, i: nat, c: Config)
    requires p.Valid() && i < |p.steps| && WellKept(p, t) && (c.state, p.Symbol(i)) in t.transitions
    ensures t.transitions[(c.state, p.Symbol(i))] < t.used && 0 < t.used
  {
  }

  lemma KeptBounds(p: Problem, t: Tables)
    requires WellKept(p, t)
    ensures t.used <= p.states
    ensures forall k :: k in t.increments ==> -1 <= t.increments[k] <= 1
  {
  }

  /** A recorded cell leaves candidates no other target. */
  lemma OnlyRecordedTarget(p: Problem, t: Tables, i: nat, c: Config)
    requires p.Valid() && i < |p.steps|
    requires (c.state, p.Symbol(i)) in t.transitions
    requires NoneFitsGoing(p, t, i, c, t.transitions[(c.state, p.Symbol(i))])
    ensures forall target: nat :: target < p.states ==> NoneFitsGoing(p, t, i, c, target)
  {
    var k := (c.state, p.Symbol(i));
    forall target: nat | target < p.states
      ensures NoneFitsGoing(p, t, i, c, target)
    {
      forall m | Candidate(p, m, t) && c.state < m.StateCount() && m.transitions[c.state][p.Symbol(i)] == target
        ensures !Fits(p, m, i, c)
      {
        assert m.transitions[k.0][k.1] == t.transitions[k];
      }
    }
  }

  // --------------------------------------------------------------------- one size

  lemma EmptyTables(p: Problem)
    requires p.Valid()
    ensures WellKept(p, Tables(map[], map[], map[], 1))
    ensures forall m: CounterMachine :: m.Valid() ==> Extends(m, Tables(map[], map[], map[], 1))
  {
  }

  /** Along the evidence from step `i`, what `r` chooses is not after what `m` chooses. */
  ghost predicate NotAfter(p: Problem, r: CounterMachine, m: CounterMachine, i: nat, c: Config)
    requires p.Valid() && r.Valid() && m.Valid() && r.symbolCount == m.symbolCount == p.symbolCount
    requires c.state < r.StateCount() && c.state < m.StateCount()
    decreases |p.steps| - i
  {
    i < |p.steps| ==>
      var s, y := c.state, p.Symbol(i);
      || Rank(r.increments[s][y]) < Rank(m.increments[s][y])
      || (r.increments[s][y] == m.increments[s][y]
          && (r.transitions[s][y] < m.transitions[s][y]
              || (r.transitions[s][y] == m.transitions[s][y] && NotAfter(p, r, m, i + 1, Enter(p, i, Next(m, c, y))))))
  }

  /** No fitting machine of the size tried chooses before `r` along the evidence. */
  ghost predicate FoundFirst(p: Problem, r: CounterMachine)
    requires p.Valid()
  {
    && r.Valid() && r.symbolCount == p.symbolCount
    && forall m: CounterMachine ::
      m.Valid() && m.StateCount() == p.states && m.symbolCount == p.symbolCount && Fits(p, m, 0, Config(0, 0)) ==>
      NotAfter(p, r, m, 0, Config(0, 0))
  }

  lemma {:induction false} RecordedNotAfter(p: Problem, r: CounterMachine, m: CounterMachine, t: Tables, i: nat,
      c: Config)
    requires p.Valid() && r.Valid() && m.Valid() && r.symbolCount == m.symbolCount == p.symbolCount
    requires c.state < r.StateCount() && c.state < m.StateCount()
    requires Extends(r, t) && NotBefore(p, m, t, i, c)
    ensures NotAfter(p, r, m, i, c)
    decreases |p.steps| - i
  {
    if i < |p.steps| {
      var k := (c.state, p.Symbol(i));
      assert r.increments[k.0][k.1] == t.increments[k] && r.transitions[k.0][k.1] == t.transitions[k];
      if t.increments[k] == m.increments[k.0][k.1] && t.transitions[k] == m.transitions[k.0][k.1] {
        RecordedNotAfter(p, r, m, t, i + 1, Enter(p, i, Next(m, c, p.Symbol(i))));
      }
    }
  }

  lemma FirstFound(p: Problem, r: CounterMachine, t: Tables)
    requires p.Valid() && r.Valid() && r.symbolCount == p.symbolCount && Extends(r, t)
    requires FirstFit(p, Tables(map[], map[], map[], 1), t, 0, Config(0, 0))
    ensures FoundFirst(p, r)
  {
    hide Fits, NotBefore, NotAfter;
    EmptyTables(p);
    forall m: CounterMachine | m.Valid() && m.StateCount() == p.states && m.symbolCount == p.symbolCount
      && Fits(p, m, 0, Config(0, 0))
      ensures NotAfter(p, r, m, 0, Config(0, 0))
    {
      assert Candidate(p, m, Tables(map[], map[], map[], 1));
      RecordedNotAfter(p, r, m, t, 0, Config(0, 0));
    }
  }

  /** Running from step `i`, the machine comes through this cell. */
  ghost predicate Meets(p: Problem, m: CounterMachine, i: nat, c: Config, k: Cell)
    requires p.Valid() && m.Valid() && m.symbolCount == p.symbolCount && c.state < m.StateCount()
    decreases |p.steps| - i
  {
    && i < |p.steps|
    && (k == (c.state, p.Symbol(i)) || Meets(p, m, i + 1, Enter(p, i, Next(m, c, p.Symbol(i))), k))
  }

  /** The machine has no move it does not make on the evidence. */
  ghost predicate MovesSeen(p: Problem, m: CounterMachine)
    requires p.Valid()
  {
    && m.Valid() && m.symbolCount == p.symbolCount
    && forall s, y :: 0 <= s < m.StateCount() && 0 <= y < m.symbolCount && m.increments[s][y] != 0 ==>
      Meets(p, m, 0, Config(0, 0), (s, y))
  }

  /** Running from step `i`, the machine reads this output at a scored step. */
  ghost predicate Answers(p: Problem, m: CounterMachine, i: nat, c: Config, g: SignedCell)
    requires p.Valid() && m.Valid() && m.symbolCount == p.symbolCount && c.state < m.StateCount()
    decreases |p.steps| - i
  {
    && i < |p.steps|
    && (|| (p.Want(i).Some? && g == (c.state, p.Symbol(i), Sign(Next(m, c, p.Symbol(i)).counter)))
        || Answers(p, m, i + 1, Enter(p, i, Next(m, c, p.Symbol(i))), g))
  }

  /**
   What the evidence does not call for is left at its default: cells it does not come through
   stay put and do not move the counter, outputs it does not score are 0, and every state but
   the first is the target of a cell it comes through.
   */
  ghost predicate NothingIdle(p: Problem, m: CounterMachine)
    requires p.Valid()
  {
    && m.Valid() && m.symbolCount == p.symbolCount
    && (forall s, y :: 0 <= s < m.StateCount() && 0 <= y < m.symbolCount ==>
      Meets(p, m, 0, Config(0, 0), (s, y)) || (m.transitions[s][y] == s && m.increments[s][y] == 0))
    && (forall s, y, g :: 0 <= s < m.StateCount() && 0 <= y < m.symbolCount && 0 <= g < 3 ==>
      Answers(p, m, 0, Config(0, 0), (s, y, g)) || m.outputs[s][y][g] == 0)
    && forall s :: 0 < s < m.StateCount() ==> Entered(p, m, s)
  }

  ghost predicate Entered(p: Problem, m: CounterMachine, s: nat)
    requires p.Valid() && m.Valid() && m.symbolCount == p.symbolCount
  {
    exists k: Cell :: k.0 < m.StateCount() && k.1 < m.symbolCount && m.transitions[k.0][k.1] == s
      && Meets(p, m, 0, Config(0, 0), k)
  }

  lemma {:induction false} ScoresAnswers(p: Problem, m: CounterMachine, t: Tables, i: nat, c: Config, g: SignedCell)
    requires p.Valid() && m.Valid() && m.symbolCount == p.symbolCount && c.state < m.StateCount()
    requires Extends(m, t) && Scores(p, t, i, c, g)
    ensures Answers(p, m, i, c, g)
    decreases |p.steps| - i
  {
    var here := (c.state, p.Symbol(i));
    assert m.increments[here.0][here.1] == t.increments[here] && m.transitions[here.0][here.1] == t.transitions[here];
    if !(p.Want(i).Some? && g == (c.state, p.Symbol(i), Sign(Next(m, c, p.Symbol(i)).counter))) {
      ScoresAnswers(p, m, t, i + 1, Enter(p, i, Next(m, c, p.Symbol(i))), g);
    }
  }

  lemma {:induction false} VisitsMeets(p: Problem, m: CounterMachine, t: Tables, i: nat, c: Config, k: Cell)
    requires p.Valid() && m.Valid() && m.symbolCount == p.symbolCount && c.state < m.StateCount()
    requires Extends(m, t) && Visits(p, t, i, c, k)
    ensures Meets(p, m, i, c, k)
    decreases |p.steps| - i
  {
    var here := (c.state, p.Symbol(i));
    if k != here {
      assert m.increments[here.0][here.1] == t.increments[here] && m.transitions[here.0][here.1] == t.transitions[here];
      VisitsMeets(p, m, t, i + 1, Enter(p, i, Next(m, c, p.Symbol(i))), k);
    }
  }

  lemma RecordedMovesSeen(p: Problem, t: Tables)
    requires p.Valid() && WellKept(p, t) && OnlyVisited(p, Tables(map[], map[], map[], 1), t, 0, Config(0, 0))
    ensures MovesSeen(p, FromCells(p, t))
  {
    hide FromCells, Visits, Meets, Extends;
    FromCellsFits(p, t);
    var m := FromCells(p, t);
    forall s, y | 0 <= s < m.StateCount() && 0 <= y < m.symbolCount && m.increments[s][y] != 0
      ensures Meets(p, m, 0, Config(0, 0), (s, y))
    {
      FromCellsEntries(p, t, s, y);
      VisitsMeets(p, m, t, 0, Config(0, 0), (s, y));
    }
  }

  lemma TablesUsed(p: Problem, t: Tables)
    requires p.Valid() && WellKept(p, t) && OnlyVisited(p, Tables(map[], map[], map[], 1), t, 0, Config(0, 0))
    ensures NothingIdle(p, FromCells(p, t))
  {
    hide FromCells, Visits, Meets, Extends, Scores, Answers, WellKept;
    FromCellsFits(p, t);
    var m, c := FromCells(p, t), Config(0, 0);
    forall s: nat, y: nat | s < m.StateCount() && y < m.symbolCount && !Meets(p, m, 0, c, (s, y))
      ensures m.transitions[s][y] == s && m.increments[s][y] == 0
    {
      FromCellsEntries(p, t, s, y);
      if (s, y) in t.transitions || (s, y) in t.increments {
        VisitsMeets(p, m, t, 0, c, (s, y));
      }
    }
    forall s: nat, y: nat, g: nat | s < m.StateCount() && y < m.symbolCount && g < 3 && !Answers(p, m, 0, c, (s, y, g))
      ensures m.outputs[s][y][g] == 0
    {
      FromCellsEntries(p, t, s, y);
      if (s, y, g) in t.outputs {
        ScoresAnswers(p, m, t, 0, c, (s, y, g));
      }
    }
    forall s: nat | 0 < s < m.StateCount()
      ensures Entered(p, m, s)
    {
      assert Targets(t, s);
      var k :| k in t.transitions && t.transitions[k] == s;
      VisitsMeets(p, m, t, 0, c, k);
      KeptCell(p, t, k);
      FromCellsEntries(p, t, k.0, k.1);
    }
  }

  lemma KeptCell(p: Problem, t: Tables, k: Cell)
    requires WellKept(p, t) && k in t.transitions
    ensures k.0 < t.used && k.1 < p.symbolCount
  {
  }

  // ---------------------------------------------------------- what is found is determined

  /** From step `i` on, both machines choose the same moves and targets along the evidence. */
  ghost predicate Together(p: Problem, a: CounterMachine, b: CounterMachine, i: nat, c: Config)
    requires p.Valid() && a.Valid() && b.Valid() && a.symbolCount == b.symbolCount == p.symbolCount
    requires c.state < a.StateCount() && c.state < b.StateCount()
    decreases |p.steps| - i
  {
    i < |p.steps| ==>
      var s, y := c.state, p.Symbol(i);
      && a.increments[s][y] == b.increments[s][y] && a.transitions[s][y] == b.transitions[s][y]
      && Together(p, a, b, i + 1, Enter(p, i, Next(a, c, y)))
  }

  /** Neither chooses after the other, each taken with idle states added. */
  lemma {:induction false} SameChoices(p: Problem, a: CounterMachine, b: CounterMachine, largeA: CounterMachine,
      largeB: CounterMachine, i: nat, c: Config)
    requires p.Valid() && a.Valid() && b.Valid() && largeA.Valid() && largeB.Valid()
    requires a.symbolCount == b.symbolCount == largeA.symbolCount == largeB.symbolCount == p.symbolCount
    requires a.transitions <= largeA.transitions && a.increments <= largeA.increments
    requires b.transitions <= largeB.transitions && b.increments <= largeB.increments
    requires c.state < a.StateCount() && c.state < b.StateCount()
    requires NotAfter(p, a, largeB, i, c) && NotAfter(p, b, largeA, i, c)
    ensures Together(p, a, b, i, c)
    decreases |p.steps| - i
  {
    if i < |p.steps| {
      var s, y := c.state, p.Symbol(i);
      assert a.transitions[s][y] < a.StateCount() && b.transitions[s][y] < b.StateCount();
      assert -1 <= a.increments[s][y] <= 1 && -1 <= b.increments[s][y] <= 1;
      assert largeA.increments[s] == a.increments[s] && largeA.transitions[s] == a.transitions[s];
      assert largeB.increments[s] == b.increments[s] && largeB.transitions[s] == b.transitions[s];
      SameChoices(p, a, b, largeA, largeB, i + 1, Enter(p, i, Next(a, c, y)));
    }
  }

  lemma {:induction false} TogetherSwapped(p: Problem, a: CounterMachine, b: CounterMachine, i: nat, c: Config)
    requires p.Valid() && a.Valid() && b.Valid() && a.symbolCount == b.symbolCount == p.symbolCount
    requires c.state < a.StateCount() && c.state < b.StateCount() && Together(p, a, b, i, c)
    ensures Together(p, b, a, i, c)
    decreases |p.steps| - i
  {
    if i < |p.steps| {
      TogetherSwapped(p, a, b, i + 1, Enter(p, i, Next(a, c, p.Symbol(i))));
    }
  }

  lemma {:induction false} MeetsAlike(p: Problem, a: CounterMachine, b: CounterMachine, i: nat, c: Config, k: Cell)
    requires p.Valid() && a.Valid() && b.Valid() && a.symbolCount == b.symbolCount == p.symbolCount
    requires c.state < a.StateCount() && c.state < b.StateCount() && Together(p, a, b, i, c) && Meets(p, a, i, c, k)
    ensures k.0 < a.StateCount() && k.0 < b.StateCount() && k.1 < p.symbolCount && Meets(p, b, i, c, k)
    ensures a.transitions[k.0][k.1] == b.transitions[k.0][k.1] && a.increments[k.0][k.1] == b.increments[k.0][k.1]
    decreases |p.steps| - i
  {
    if k != (c.state, p.Symbol(i)) {
      MeetsAlike(p, a, b, i + 1, Enter(p, i, Next(a, c, p.Symbol(i))), k);
    }
  }

  /** Where both fit, a scored output is the label in both. */
  lemma {:induction false} AnswersAlike(p: Problem, a: CounterMachine, b: CounterMachine, i: nat, c: Config,
      g: SignedCell)
    requires p.Valid() && a.Valid() && b.Valid() && a.symbolCount == b.symbolCount == p.symbolCount
    requires c.state < a.StateCount() && c.state < b.StateCount() && Together(p, a, b, i, c)
    requires Fits(p, a, i, c) && Fits(p, b, i, c) && Answers(p, a, i, c, g)
    ensures g.0 < a.StateCount() && g.0 < b.StateCount() && g.1 < p.symbolCount && g.2 < 3 && Answers(p, b, i, c, g)
    ensures a.outputs[g.0][g.1][g.2] == b.outputs[g.0][g.1][g.2]
    decreases |p.steps| - i
  {
    var y := p.Symbol(i);
    if p.Want(i).Some? && g == (c.state, y, Sign(Next(a, c, y).counter)) {
      assert Output(a, c, y) == Output(b, c, y) == p.Want(i).value;
    } else {
      AnswersAlike(p, a, b, i + 1, Enter(p, i, Next(a, c, y)), g);
    }
  }

  /** What the search of one size may find. */
  ghost predicate Finding(p: Problem, m: CounterMachine)
    requires p.Valid()
  {
    && FoundFirst(p, m) && NothingIdle(p, m) && m.StateCount() <= p.states && Fits(p, m, 0, Config(0, 0))
  }

  lemma FindingsTogether(p: Problem, a: CounterMachine, b: CounterMachine)
    requires p.Valid() && Finding(p, a) && Finding(p, b)
    ensures Together(p, a, b, 0, Config(0, 0)) && Together(p, b, a, 0, Config(0, 0))
  {
    hide Fits, NotAfter, NothingIdle, Together;
    var largeA := Enlarge(p, a, p.states, 0, Config(0, 0));
    var largeB := Enlarge(p, b, p.states, 0, Config(0, 0));
    assert NotAfter(p, a, largeB, 0, Config(0, 0)) && NotAfter(p, b, largeA, 0, Config(0, 0));
    SameChoices(p, a, b, largeA, largeB, 0, Config(0, 0));
    TogetherSwapped(p, a, b, 0, Config(0, 0));
  }

  lemma NotMoreStates(p: Problem, a: CounterMachine, b: CounterMachine)
    requires p.Valid() && NothingIdle(p, a) && b.Valid() && b.symbolCount == p.symbolCount
    requires Together(p, a, b, 0, Config(0, 0))
    ensures a.StateCount() <= b.StateCount()
  {
    hide Meets, Together, Answers;
    if b.StateCount() < a.StateCount() {
      assert Entered(p, a, b.StateCount());
      var k: Cell :| k.0 < a.StateCount() && k.1 < a.symbolCount && a.transitions[k.0][k.1] == b.StateCount()
        && Meets(p, a, 0, Config(0, 0), k);
      MeetsAlike(p, a, b, 0, Config(0, 0), k);
    }
  }

  lemma SameCell(p: Problem, a: CounterMachine, b: CounterMachine, s: nat, y: nat)
    requires p.Valid() && Finding(p, a) && Finding(p, b) && a.StateCount() == b.StateCount()
    requires Together(p, a, b, 0, Config(0, 0)) && Together(p, b, a, 0, Config(0, 0))
    requires s < a.StateCount() && y < p.symbolCount
    ensures a.transitions[s][y] == b.transitions[s][y] && a.increments[s][y] == b.increments[s][y]
    ensures a.outputs[s][y] == b.outputs[s][y]
  {
    hide Meets, Together, Answers, Fits, FoundFirst, Entered;
    var c := Config(0, 0);
    if Meets(p, a, 0, c, (s, y)) {
      MeetsAlike(p, a, b, 0, c, (s, y));
    } else if Meets(p, b, 0, c, (s, y)) {
      MeetsAlike(p, b, a, 0, c, (s, y));
    }
    forall g: nat | g < 3
      ensures a.outputs[s][y][g] == b.outputs[s][y][g]
    {
      if Answers(p, a, 0, c, (s, y, g)) {
        AnswersAlike(p, a, b, 0, c, (s, y, g));
      } else if Answers(p, b, 0, c, (s, y, g)) {
        AnswersAlike(p, b, a, 0, c, (s, y, g));
      }
    }
  }

  /** Evidence and size determine the machine: nothing else can be found. */
  lemma FoundOnce(p: Problem, a: CounterMachine, b: CounterMachine)
    requires p.Valid() && Finding(p, a) && Finding(p, b)
    ensures a == b
  {
    hide Fits, FoundFirst, NothingIdle, Together;
    FindingsTogether(p, a, b);
    ValidFindings(p, a, b);
    NotMoreStates(p, a, b);
    NotMoreStates(p, b, a);
    forall s | 0 <= s < a.StateCount()
      ensures a.transitions[s] == b.transitions[s] && a.increments[s] == b.increments[s] && a.outputs[s] == b.outputs[s]
    {
      forall y | 0 <= y < p.symbolCount
        ensures a.transitions[s][y] == b.transitions[s][y] && a.increments[s][y] == b.increments[s][y]
          && a.outputs[s][y] == b.outputs[s][y]
      {
        SameCell(p, a, b, s, y);
      }
    }
    assert a.transitions == b.transitions && a.increments == b.increments && a.outputs == b.outputs;
  }

  lemma ValidFindings(p: Problem, a: CounterMachine, b: CounterMachine)
    requires p.Valid() && Finding(p, a) && Finding(p, b)
    ensures a.Valid() && b.Valid() && a.symbolCount == b.symbolCount == p.symbolCount
  {
    hide Fits;
  }

  /** The machine on the first `n` symbols of its alphabet. */
  function Narrowed(m: CounterMachine, n: nat): CounterMachine {
    CounterMachine(
      n,
      seq(|m.transitions|, s requires 0 <= s < |m.transitions| => First(m.transitions[s], n)),
      seq(|m.increments|, s requires 0 <= s < |m.increments| => First(m.increments[s], n)),
      seq(|m.outputs|, s requires 0 <= s < |m.outputs| => First(m.outputs[s], n)))
  }

  function First<T>(row: seq<T>, n: nat): (r: seq<T>)
    ensures n <= |row| ==> |r| == n && forall y :: 0 <= y < n ==> r[y] == row[y]
  {
    if n <= |row| then row[..n] else row
  }

  lemma NarrowedValid(m: CounterMachine, n: nat)
    requires m.Valid() && n <= m.symbolCount
    ensures Narrowed(m, n).Valid() && Narrowed(m, n).StateCount() == m.StateCount() && Narrowed(m, n).symbolCount == n
    ensures n == m.symbolCount ==> Narrowed(m, n) == m
  {
    var r := Narrowed(m, n);
    if n == m.symbolCount {
      assert forall s :: 0 <= s < |m.transitions| ==>
        r.transitions[s] == m.transitions[s] && r.increments[s] == m.increments[s] && r.outputs[s] == m.outputs[s];
      assert r.transitions == m.transitions && r.increments == m.increments && r.outputs == m.outputs;
    }
  }

  lemma NarrowedSizes(m: CounterMachine, n: nat)
    ensures var r := Narrowed(m, n);
      && r.symbolCount == n && |r.transitions| == |m.transitions| && |r.increments| == |m.increments|
      && |r.outputs| == |m.outputs|
      && (forall s :: 0 <= s < |m.transitions| ==> r.transitions[s] == First(m.transitions[s], n))
      && (forall s :: 0 <= s < |m.increments| ==> r.increments[s] == First(m.increments[s], n))
      && (forall s :: 0 <= s < |m.outputs| ==> r.outputs[s] == First(m.outputs[s], n))
  {
  }

  /** Reading the cells of fewer symbols gives the narrowed machine. */
  lemma FromCellsNarrowed(p: Problem, t: Tables, n: nat)
    requires n <= p.symbolCount
    ensures FromCells(p.(symbolCount := n), t) == Narrowed(FromCells(p, t), n)
  {
    hide FromCells, Narrowed;
    var a, b := FromCells(p.(symbolCount := n), t), Narrowed(FromCells(p, t), n);
    NarrowedSizes(FromCells(p, t), n);
    FromCellsSizes(p, t);
    FromCellsSizes(p.(symbolCount := n), t);
    forall s | 0 <= s < t.used
      ensures a.transitions[s] == b.transitions[s] && a.increments[s] == b.increments[s] && a.outputs[s] == b.outputs[s]
    {
      forall y | 0 <= y < n
        ensures a.transitions[s][y] == b.transitions[s][y] && a.increments[s][y] == b.increments[s][y]
          && a.outputs[s][y] == b.outputs[s][y]
      {
        FromCellsEntries(p, t, s, y);
        FromCellsEntries(p.(symbolCount := n), t, s, y);
      }
    }
    assert a.transitions == b.transitions && a.increments == b.increments && a.outputs == b.outputs;
  }

  /** The nodes the search of one size visits, and the worst case over all evidence of that length. */
  ghost function SizeNodes(p: Problem): (n: nat)
    requires p.Valid()
    ensures n <= SearchNodes(|p.steps|, p.states)
  {
    EmptyTables(p);
    NodesWithinFull(p, Tables(map[], map[], map[], 1), 0, Config(0, 0));
    NodesOf(p, Tables(map[], map[], map[], 1), 0, Config(0, 0))
  }

  /** What one size's search may report. */
  datatype SizeResult = Machine(machine: CounterMachine) | NoMachine | GaveUp

  /**
   `_search_counter` for one number of states: a machine that reproduces every label,
   or the certainty that none of exactly this size does, or an exceeded node budget, which it
   reports exactly when the nodes of the search are more than the budget. The
   machine is the first of all that fit, in the order moves and targets are tried. `whole`
   reads every symbol of the evidence; the machine returned is its part on the first
   `symbolCount` symbols.
   */
  method SearchSize(problem: Problem, symbolCount: nat, nodeBudget: nat)
    returns (r: SizeResult, ghost whole: CounterMachine)
    requires problem.Valid() && symbolCount <= problem.symbolCount
    ensures r.Machine? ==>
      && whole.Valid() && whole.symbolCount == problem.symbolCount && whole.StateCount() <= problem.states
      && Fits(problem, whole, 0, Config(0, 0)) && FoundFirst(problem, whole) && MovesSeen(problem, whole)
      && NothingIdle(problem, whole)
      && r.machine == Narrowed(whole, symbolCount)
    ensures r.NoMachine? ==> forall m: CounterMachine ::
      m.Valid() && m.StateCount() == problem.states && m.symbolCount == problem.symbolCount ==>
        !Fits(problem, m, 0, Config(0, 0))
    ensures r.GaveUp? <==> nodeBudget < SizeNodes(problem)
  {
    hide NodesOf, Fits, Replays, WellKept, Extends, FirstFit, FoundFirst, OnlyVisited, MovesSeen, NothingIdle;
    whole := CounterMachine(0, [], [], []);
    EmptyTables(problem);
    var search := new Search(problem, nodeBudget);
    var outcome := search.Walk(0, 0, 0);
    match outcome
    case Found =>
      var tables := search.Snapshot();
      FromCellsFits(problem, tables);
      KeptBounds(problem, tables);
      ReplayFits(problem, tables, FromCells(problem, tables), 0, Config(0, 0));
      FirstFound(problem, FromCells(problem, tables), tables);
      RecordedMovesSeen(problem, tables);
      TablesUsed(problem, tables);
      whole := FromCells(problem, tables);
      FromCellsNarrowed(problem, tables, symbolCount);
      return Machine(FromCells(problem.(symbolCount := symbolCount), tables)), whole;
    case Failed =>
      return NoMachine, whole;
    case OutOfBudget =>
      return GaveUp, whole;
  }

  // -------------------------------------------------------------------- all sizes

  /** One more state, never entered. */
  function Padded(m: CounterMachine): CounterMachine
    requires m.Valid()
  {
    var n := m.StateCount();
    CounterMachine(
      m.symbolCount,
      m.transitions + [seq(m.symbolCount, y requires 0 <= y < m.symbolCount => n)],
      m.increments + [seq(m.symbolCount, y requires 0 <= y < m.symbolCount => 0)],
      m.outputs + [seq(m.symbolCount, y requires 0 <= y < m.symbolCount => [0, 0, 0])])
  }

  lemma PaddedValid(m: CounterMachine)
    requires m.Valid()
    ensures Padded(m).Valid() && Padded(m).StateCount() == m.StateCount() + 1 && Padded(m).symbolCount == m.symbolCount
  {
    var r := Padded(m);
    forall s, y | 0 <= s < |r.transitions| && 0 <= y < r.symbolCount
      ensures r.transitions[s][y] < |r.transitions| && -1 <= r.increments[s][y] <= 1 && |r.outputs[s][y]| == 3
    {
      if s < m.StateCount() {
        assert m.transitions[s][y] < m.StateCount();
      }
    }
  }

  lemma {:induction false} PaddedFits(p: Problem, m: CounterMachine, i: nat, c: Config)
    requires p.Valid() && m.Valid() && Padded(m).Valid() && m.symbolCount == p.symbolCount && c.state < m.StateCount()
    requires Fits(p, m, i, c)
    ensures Fits(p, Padded(m), i, c)
    decreases |p.steps| - i
  {
    if i < |p.steps| {
      var d := Next(m, c, p.Symbol(i));
      assert Next(Padded(m), c, p.Symbol(i)) == d;
      assert Output(Padded(m), c, p.Symbol(i)) == Output(m, c, p.Symbol(i));
      PaddedFits(p, m, i + 1, Enter(p, i, d));
    }
  }

  /** A fitting machine yields a fitting machine of every larger size. */
  lemma {:induction false} Enlarge(p: Problem, m: CounterMachine, size: nat, i: nat, c: Config)
    returns (r: CounterMachine)
    requires p.Valid() && m.Valid() && m.symbolCount == p.symbolCount && c.state < m.StateCount() <= size
    requires Fits(p, m, i, c)
    ensures r.Valid() && r.symbolCount == p.symbolCount && r.StateCount() == size && Fits(p, r, i, c)
    ensures m.transitions <= r.transitions && m.increments <= r.increments && m.outputs <= r.outputs
    ensures forall s, y :: m.StateCount() <= s < size && 0 <= y < r.symbolCount ==> r.increments[s][y] == 0
    decreases size - m.StateCount()
  {
    if m.StateCount() == size {
      r := m;
    } else {
      PaddedValid(m);
      PaddedFits(p, m, i, c);
      r := Enlarge(p, Padded(m), size, i, c);
    }
  }

  /** No machine of the class with fewer than `size` states reproduces the episodes. */
  ghost predicate NoneBelow(traces: seq<Trace>, symbolCount: nat, size: nat) {
    forall m: CounterMachine :: m.Valid() && m.symbolCount == symbolCount && m.StateCount() < size ==>
      !FitsTraces(m, traces)
  }

  /** One more than the largest symbol. */
  function WordWidth(w: Word): (n: nat)
    ensures InAlphabet(w, n)
  {
    if w == [] then 0 else Max(WordWidth(w[..|w| - 1]), w[|w| - 1] + 1)
  }

  lemma {:induction false} WordWidthLeast(w: Word, n: nat)
    requires InAlphabet(w, n)
    ensures WordWidth(w) <= n
  {
    if w != [] {
      WordWidthLeast(w[..|w| - 1], n);
    }
  }

  /** The symbols that occur in the first `k` episodes lie below this number. */
  function SeenWidth(traces: seq<Trace>, k: nat): (n: nat)
    requires k <= |traces|
    ensures forall j :: 0 <= j < k ==> InAlphabet(traces[j].symbols, n)
  {
    if k == 0 then 0 else Max(SeenWidth(traces, k - 1), WordWidth(traces[k - 1].symbols))
  }

  lemma {:induction false} SeenWidthLeast(traces: seq<Trace>, k: nat, n: nat)
    requires k <= |traces| && ReadableBy(traces, n)
    ensures SeenWidth(traces, k) <= n
    decreases k
  {
    if k > 0 {
      SeenWidthLeast(traces, k - 1, n);
      WordWidthLeast(traces[k - 1].symbols, n);
    }
  }

  /**
   The alphabet a machine needs to read every episode: the largest declared one, or more if
   larger symbols occur.
   */
  function Width(traces: seq<Trace>): (n: nat)
    ensures ReadableBy(traces, n) && MaxSymbolCount(traces) <= n
  {
    Max(MaxSymbolCount(traces), SeenWidth(traces, |traces|))
  }

  lemma WidthDeclared(traces: seq<Trace>)
    ensures AllReadable(traces) <==> Width(traces) == MaxSymbolCount(traces)
  {
    if AllReadable(traces) {
      SeenWidthLeast(traces, |traces|, MaxSymbolCount(traces));
    }
  }

  /** The evidence as one size's search sees it. */
  function ProblemOf(traces: seq<Trace>, size: nat): Problem {
    Problem(traces, StepsOf(traces, |traces|), size, Width(traces))
  }

  lemma ProblemValid(traces: seq<Trace>, size: nat)
    requires size >= 1
    ensures ProblemOf(traces, size).Valid() && ReadableBy(traces, Width(traces))
  {
    StepsOrdered(traces, |traces|);
  }

  /** `whole` is what the search of this size finds. */
  ghost predicate Induced(traces: seq<Trace>, size: nat, whole: CounterMachine) {
    && ProblemOf(traces, size).Valid()
    && whole.Valid() && whole.symbolCount == Width(traces) && whole.StateCount() <= size
    && FitsTraces(whole, traces) && Fits(ProblemOf(traces, size), whole, 0, Config(0, 0))
    && FoundFirst(ProblemOf(traces, size), whole) && MovesSeen(ProblemOf(traces, size), whole)
    && NothingIdle(ProblemOf(traces, size), whole)
  }

  /** The search of this size runs over the node budget. */
  ghost predicate OverBudget(traces: seq<Trace>, size: nat, nodeBudget: nat) {
    ProblemOf(traces, size).Valid() && nodeBudget < SizeNodes(ProblemOf(traces, size))
  }

  /** Some machine of exactly this size reproduces the episodes. */
  ghost predicate Achievable(traces: seq<Trace>, size: nat) {
    exists m: CounterMachine ::
      m.Valid() && m.symbolCount == Width(traces) && m.StateCount() == size && FitsTraces(m, traces)
  }

  /** The search of this size finds a machine: there is one, and the budget suffices. */
  ghost predicate Findable(traces: seq<Trace>, size: nat, nodeBudget: nat) {
    Achievable(traces, size) && !OverBudget(traces, size, nodeBudget)
  }

  /** No search of fewer than `size` states finds a machine. */
  ghost predicate NothingBefore(traces: seq<Trace>, size: nat, nodeBudget: nat) {
    forall s :: 1 <= s < size ==> !Findable(traces, s, nodeBudget)
  }

  /** Some search of fewer than `size` states runs over the node budget. */
  ghost predicate OverBefore(traces: seq<Trace>, size: nat, nodeBudget: nat) {
    exists s :: 1 <= s < size && OverBudget(traces, s, nodeBudget)
  }

  /** No such size, or the largest of them was searched within the budget. */
  ghost predicate LastWithin(traces: seq<Trace>, size: nat, nodeBudget: nat) {
    size >= 1 && (size == 1 || !OverBudget(traces, size - 1, nodeBudget))
  }

  /**
   `induce_counter_machine`: the smallest consistent machine. A returned machine
   reproduces every label, and is the first to do so, in the order moves and targets are
   tried, among the machines of the size it was found at. That is the least size whose
   search finds one: a machine of exactly that size exists, and the nodes of its search are
   within the budget. None, on episodes with at least one symbol, means there is no such
   size. When the last size before was searched within the budget, whatever the ones before
   it did, the machine has the least possible number of states, and None means no machine
   with at most `states` states exists. What reproduces the labels is `whole`, which reads
   every symbol that occurs; the machine returned is its part on the largest declared
   alphabet, and the whole of it when no larger symbol occurs.
   */
  method InduceCounterMachine(traces: seq<Trace>, states: nat, nodeBudget: nat)
    returns (r: Option<CounterMachine>, ghost whole: CounterMachine, ghost gaveUp: bool, ghost found: nat)
    ensures StepsOf(traces, |traces|) == [] ==> r == None
    ensures r.Some? ==>
      && r.value.Valid() && r.value.symbolCount == MaxSymbolCount(traces) && r.value.StateCount() <= states
      && (AllReadable(traces) ==> FitsTraces(r.value, traces))
    ensures r.Some? ==>
      && 1 <= found <= states && Induced(traces, found, whole)
      && r.value == Narrowed(whole, MaxSymbolCount(traces)) && (AllReadable(traces) ==> r.value == whole)
    ensures r.Some? ==> LargestDeclared(traces, r.value.symbolCount)
    ensures r.Some? ==> Findable(traces, found, nodeBudget) && NothingBefore(traces, found, nodeBudget)
    ensures r.None? && StepsOf(traces, |traces|) != [] ==> NothingBefore(traces, states + 1, nodeBudget)
    ensures StepsOf(traces, |traces|) != [] ==>
      gaveUp == OverBefore(traces, if r.Some? then found else states + 1, nodeBudget)
    ensures gaveUp ==> nodeBudget < SearchNodes(|StepsOf(traces, |traces|)|, states)
    ensures r.Some? && (!gaveUp || LastWithin(traces, found, nodeBudget)) ==>
      r.value.StateCount() == whole.StateCount() == found && NoneBelow(traces, Width(traces), found)
    ensures r.None? && (!gaveUp || LastWithin(traces, states + 1, nodeBudget)) && StepsOf(traces, |traces|) != [] ==>
      NoneBelow(traces, Width(traces), states + 1)
  {
    hide FitsTraces, Fits, NoneBelow, FoundFirst, MovesSeen, NothingIdle, Narrowed, Width, AllReadable, Findable,
      NothingBefore, OverBefore, LastWithin, LargestDeclared;
    r, whole, gaveUp, found := None, CounterMachine(0, [], [], []), false, 0;
    var steps := StepsOf(traces, |traces|);
    if traces == [] || steps == [] {
      return;
    }
    WidthDeclared(traces);
    MaxIsDeclared(traces);
    NothingBeforeOne(traces, nodeBudget);
    for size := 1 to states + 1
      invariant r == None
      invariant NothingBefore(traces, size, nodeBudget)
      invariant gaveUp == OverBefore(traces, size, nodeBudget)
      invariant gaveUp ==> nodeBudget < SearchNodes(|steps|, states)
    {
      var problem := ProblemOf(traces, size);
      ProblemValid(traces, size);
      found := size;
      var result;
      result, whole := SearchSize(problem, MaxSymbolCount(traces), nodeBudget);
      OneMoreSize(traces, size, nodeBudget);
      match result {
        case Machine(m) =>
          FitsIsFitsTraces(problem, whole);
          Attained(traces, size, whole, nodeBudget);
          LeastFills(traces, size, whole, nodeBudget);
          NarrowedValid(whole, MaxSymbolCount(traces));
          r := Some(m);
          return;
        case NoMachine =>
          NotAttained(traces, size, nodeBudget);
        case GaveUp =>
          gaveUp := true;
          MoreStatesMoreNodes(|steps|, size, states);
      }
    }
    LeastSettled(traces, states + 1, nodeBudget);
  }

  /** Where something fits, the search goes through every step at least once. */
  lemma {:induction false} EveryStepVisited(p: Problem, t: Tables, i: nat, c: Config)
    requires p.Valid() && i <= |p.steps| && WellKept(p, t) && c.state < t.used && !NoneFits(p, t, i, c)
    ensures |p.steps| - i <= NodesOf(p, t, i, c)
    decreases |p.steps| - i, 2
  {
    hide WellKept, NoneFits, NoneFitsMoving, NodesMove;
    if i < |p.steps| {
      KeptBounds(p, t);
      var k := (c.state, p.Symbol(i));
      if k in t.increments {
        if NoneFitsMoving(p, t, i, c, t.increments[k]) {
          StepFails(p, t, i, c);
        }
        MoveVisited(p, t, i, c, t.increments[k]);
      } else if !NoneFitsMoving(p, t, i, c, 0) {
        MoveVisited(p, t, i, c, 0);
      } else if !NoneFitsMoving(p, t, i, c, 1) {
        MoveVisited(p, t, i, c, 1);
      } else {
        if NoneFitsMoving(p, t, i, c, -1) {
          StepFails(p, t, i, c);
        }
        MoveVisited(p, t, i, c, -1);
      }
    }
  }

  lemma {:induction false} MoveVisited(p: Problem, t: Tables, i: nat, c: Config, move: int)
    requires p.Valid() && i < |p.steps| && WellKept(p, t) && c.state < t.used && -1 <= move <= 1
    requires !NoneFitsMoving(p, t, i, c, move)
    ensures |p.steps| - i - 1 <= NodesMove(p, t, i, c, move)
    decreases |p.steps| - i, 1
  {
    hide WellKept, NoneFitsMoving, NoneFitsGoing, Contradicts, NodesTarget, NodesMove, NodesUpTo;
    var u := Moved(p, t, i, c, move);
    MovedKept(p, t, i, c, move);
    if Contradicts(p, t, i, c, move) {
      ContradictionFails(p, t, i, c, move);
    }
    NodesOfMove(p, t, i, c, move);
    var target := FirstTarget(p, t, i, c, move);
    TargetVisited(p, u, i, c, move, target);
    if (c.state, p.Symbol(i)) !in u.transitions {
      NodesUpToGrows(p, u, i, c, move, target + 1, Offered(p, u));
      NodesUpToTarget(p, u, i, c, move, target);
    }
  }

  /** The first target on offer that some machine making this move goes to. */
  lemma FirstTarget(p: Problem, t: Tables, i: nat, c: Config, move: int) returns (target: nat)
    requires p.Valid() && i < |p.steps| && WellKept(p, t) && c.state < t.used && -1 <= move <= 1
    requires !NoneFitsMoving(p, t, i, c, move)
    ensures var u, k := Moved(p, t, i, c, move), (c.state, p.Symbol(i));
      && !NoneFitsGoing(p, u, i, c, target)
      && if k in u.transitions then target == u.transitions[k] < u.used
         else target < Offered(p, u) <= p.states && NoneGoesBelow(p, u, i, c, target)
  {
    hide WellKept, NoneFitsMoving, NoneFitsGoing;
    var u, k := Moved(p, t, i, c, move), (c.state, p.Symbol(i));
    MovedKept(p, t, i, c, move);
    KeptBounds(p, u);
    if forall s: nat :: s < p.states ==> NoneFitsGoing(p, u, i, c, s) {
      MoveFails(p, t, i, c, move);
    }
    if k in u.transitions {
      target := u.transitions[k];
      TargetInUse(p, u, i, c);
      if NoneFitsGoing(p, u, i, c, target) {
        OnlyRecordedTarget(p, u, i, c);
      }
    } else {
      var s: nat :| s < p.states && !NoneFitsGoing(p, u, i, c, s);
      if u.used <= s && NoneFitsGoing(p, u, i, c, u.used) {
        UnusedTargetsAlike(p, u, i, c, s);
      }
      target := LeastGoing(p, u, i, c, Min(s, u.used));
    }
  }

  lemma {:induction false} LeastGoing(p: Problem, t: Tables, i: nat, c: Config, s: nat) returns (target: nat)
    requires p.Valid() && i < |p.steps| && !NoneFitsGoing(p, t, i, c, s)
    ensures target <= s && !NoneFitsGoing(p, t, i, c, target) && NoneGoesBelow(p, t, i, c, target)
  {
    hide NoneFitsGoing;
    if r: nat :| r < s && !NoneFitsGoing(p, t, i, c, r) {
      target := LeastGoing(p, t, i, c, r);
    } else {
      target := s;
    }
  }

  lemma NodesUpToTarget(p: Problem, t: Tables, i: nat, c: Config, move: int, target: nat)
    requires p.Valid() && i < |p.steps| && NoneGoesBelow(p, t, i, c, target)
    ensures NodesTarget(p, t, i, c, move, target) <= NodesUpTo(p, t, i, c, move, target + 1)
  {
  }

  lemma {:induction false} TargetVisited(p: Problem, t: Tables, i: nat, c: Config, move: int, target: nat)
    requires p.Valid() && i < |p.steps| && WellKept(p, t) && c.state < t.used && !NoneFitsGoing(p, t, i, c, target)
    requires target < t.used || ((c.state, p.Symbol(i)) !in t.transitions && target == t.used < p.states)
    requires (c.state, p.Symbol(i)) in t.increments && t.increments[(c.state, p.Symbol(i))] == move
    ensures |p.steps| - i - 1 <= NodesTarget(p, t, i, c, move, target)
    decreases |p.steps| - i, 0
  {
    hide WellKept, NodesOf, NodesTarget, NoneFits, NoneFitsGoing;
    var u, d := Targeted(p, t, i, c, target), Enter(p, i, Config(target, c.counter + move));
    TargetedKept(p, t, i, c, target);
    TargetInUse(p, u, i, c);
    NodesOfTarget(p, t, i, c, move, target);
    if NoneFits(p, u, i + 1, d) {
      TargetFails(p, t, i, c, target, c.counter + move);
    }
    EveryStepVisited(p, u, i + 1, d);
  }

  /**
   What a budget is good for: below the number of steps no search finds anything, and from
   the nodes of the full search on every search finds what there is.
   */
  lemma BudgetNeeded(traces: seq<Trace>, size: nat, nodeBudget: nat)
    requires size >= 1
    ensures Findable(traces, size, nodeBudget) ==> |StepsOf(traces, |traces|)| <= nodeBudget
    ensures SearchNodes(|StepsOf(traces, |traces|)|, size) <= nodeBudget ==>
      (Findable(traces, size, nodeBudget) <==> Achievable(traces, size))
  {
    hide Fits, FitsTraces, Width, NodesOf, WellKept, Extends;
    ProblemValid(traces, size);
    var p, t := ProblemOf(traces, size), Tables(map[], map[], map[], 1);
    EmptyTables(p);
    if Findable(traces, size, nodeBudget) {
      var m: CounterMachine :|
        m.Valid() && m.symbolCount == Width(traces) && m.StateCount() == size && FitsTraces(m, traces);
      FitsIsFitsTraces(p, m);
      assert Candidate(p, m, t) && Fits(p, m, 0, Config(0, 0));
      EveryStepVisited(p, t, 0, Config(0, 0));
    }
  }

  lemma NothingBeforeOne(traces: seq<Trace>, nodeBudget: nat)
    ensures NothingBefore(traces, 1, nodeBudget) && !OverBefore(traces, 1, nodeBudget)
  {
  }

  lemma OneMoreSize(traces: seq<Trace>, size: nat, nodeBudget: nat)
    requires size >= 1 && ProblemOf(traces, size).Valid()
    ensures OverBefore(traces, size + 1, nodeBudget) <==>
      OverBefore(traces, size, nodeBudget) || nodeBudget < SizeNodes(ProblemOf(traces, size))
    ensures NothingBefore(traces, size + 1, nodeBudget) <==>
      NothingBefore(traces, size, nodeBudget) && !Findable(traces, size, nodeBudget)
    ensures nodeBudget < SizeNodes(ProblemOf(traces, size)) ==> !Findable(traces, size, nodeBudget)
  {
    hide Achievable, Width;
    assert OverBudget(traces, size, nodeBudget) <==> nodeBudget < SizeNodes(ProblemOf(traces, size));
  }

  /** The machine `induce_counter_machine` returns is a function of the evidence and the size. */
  lemma InducedOnce(traces: seq<Trace>, size: nat, a: CounterMachine, b: CounterMachine)
    requires Induced(traces, size, a) && Induced(traces, size, b)
    ensures a == b
  {
    hide Fits, FitsTraces, FoundFirst, MovesSeen, NothingIdle, Width;
    FoundOnce(ProblemOf(traces, size), a, b);
  }

  /** A machine found at a size can be enlarged to it. */
  lemma Attained(traces: seq<Trace>, size: nat, m: CounterMachine, nodeBudget: nat)
    requires ProblemOf(traces, size).Valid() && m.Valid() && m.symbolCount == Width(traces) && m.StateCount() <= size
    requires Fits(ProblemOf(traces, size), m, 0, Config(0, 0))
    requires SizeNodes(ProblemOf(traces, size)) <= nodeBudget
    ensures Findable(traces, size, nodeBudget)
  {
    hide Fits, FitsTraces, Width;
    var r := Enlarge(ProblemOf(traces, size), m, size, 0, Config(0, 0));
    FitsIsFitsTraces(ProblemOf(traces, size), r);
  }

  lemma NotAttained(traces: seq<Trace>, size: nat, nodeBudget: nat)
    requires ProblemOf(traces, size).Valid()
    requires forall m: CounterMachine :: m.Valid() && m.StateCount() == size && m.symbolCount == Width(traces) ==>
      !Fits(ProblemOf(traces, size), m, 0, Config(0, 0))
    ensures !Findable(traces, size, nodeBudget)
  {
    hide Fits, FitsTraces, Width;
    forall m: CounterMachine | m.Valid() && m.symbolCount == Width(traces) && m.StateCount() == size
      ensures !FitsTraces(m, traces)
    {
      FitsIsFitsTraces(ProblemOf(traces, size), m);
    }
  }

  /** Where no machine of exactly this size fits, no smaller one does. */
  lemma NoneSmaller(traces: seq<Trace>, size: nat)
    requires size >= 1 && !Achievable(traces, size)
    ensures NoneBelow(traces, Width(traces), size + 1)
  {
    hide Fits, FitsTraces, Width;
    ProblemValid(traces, size);
    var p := ProblemOf(traces, size);
    forall m: CounterMachine | m.Valid() && m.symbolCount == Width(traces) && m.StateCount() < size + 1
      ensures !FitsTraces(m, traces)
    {
      FitsIsFitsTraces(p, m);
      if Fits(p, m, 0, Config(0, 0)) {
        var r := Enlarge(p, m, size, 0, Config(0, 0));
        FitsIsFitsTraces(p, r);
      }
    }
  }

  /** What one size's search settles within the budget, it settles for all smaller sizes too. */
  lemma LeastSettled(traces: seq<Trace>, size: nat, nodeBudget: nat)
    requires size >= 1 && NothingBefore(traces, size, nodeBudget)
    ensures !OverBefore(traces, size, nodeBudget) || LastWithin(traces, size, nodeBudget) ==>
      NoneBelow(traces, Width(traces), size)
  {
    hide Achievable, OverBudget, FitsTraces, Width;
    if size > 1 && !OverBudget(traces, size - 1, nodeBudget) {
      assert !Findable(traces, size - 1, nodeBudget);
      NoneSmaller(traces, size - 1);
    }
  }

  lemma LeastFills(traces: seq<Trace>, size: nat, m: CounterMachine, nodeBudget: nat)
    requires size >= 1 && NothingBefore(traces, size, nodeBudget)
    requires m.Valid() && m.symbolCount == Width(traces) && m.StateCount() <= size && FitsTraces(m, traces)
    ensures !OverBefore(traces, size, nodeBudget) || LastWithin(traces, size, nodeBudget) ==>
      m.StateCount() == size && NoneBelow(traces, Width(traces), size)
  {
    hide NothingBefore, OverBefore, LastWithin, FitsTraces, Width;
    LeastSettled(traces, size, nodeBudget);
  }

  lemma {:induction false} MoreStatesMoreNodes(steps: nat, few: nat, many: nat)
    requires few <= many
    ensures SearchNodes(steps, few) <= SearchNodes(steps, many)
    decreases steps
  {
    if steps > 0 {
      MoreStatesMoreNodes(steps - 1, few, many);
      ProductOrdered(few, many, SearchNodes(steps - 1, few));
      SecondOrdered(many, SearchNodes(steps - 1, few), SearchNodes(steps - 1, many));
    }
  }

  lemma SecondOrdered(n: nat, a: nat, b: nat)
    requires a <= b
    ensures n * a <= n * b
  {
  }
}
