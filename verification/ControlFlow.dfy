/**
 The external counter-machine format and its bounded, fail-closed executor
 (src/neural_computer/control_flow.py).
 */
module ControlFlow {
  import opened Prelude

  datatype Instruction =
    | Inc(counter: nat)
    | Dec(counter: nat)
    | Jump(target: nat)
    | JumpIfZero(counter: nat, target: nat)
    | JumpIfNonzero(counter: nat, target: nat)
    | Halt
  {
    predicate Valid(counterCount: nat, programLength: nat) {
      match this
      case Inc(c) => c < counterCount
      case Dec(c) => c < counterCount
      case Jump(t) => t < programLength
      case JumpIfZero(c, t) => c < counterCount && t < programLength
      case JumpIfNonzero(c, t) => c < counterCount && t < programLength
      case Halt => true
    }

    /** The same instruction aimed elsewhere; instructions without a target are unchanged. */
    function Retarget(t: nat): Instruction {
      match this
      case Jump(_) => Jump(t)
      case JumpIfZero(c, _) => JumpIfZero(c, t)
      case JumpIfNonzero(c, _) => JumpIfNonzero(c, t)
      case _ => this
    }
  }

  datatype Program = Program(counterCount: nat, instructions: seq<Instruction>) {
    predicate Valid() {
      && counterCount >= 2
      && |instructions| > 0
      && (forall i :: 0 <= i < |instructions| ==> instructions[i].Valid(counterCount, |instructions|))
      && instructions[|instructions| - 1] == Halt
    }
  }

  /** What `validate` raises on: too few counters, no instruction, a missing counter or target, no final halt. */
  lemma InvalidExactly(p: Program)
    ensures !p.Valid() <==>
      || p.counterCount < 2 || p.instructions == [] || p.instructions[|p.instructions| - 1] != Halt
      || (exists c: nat :: c >= p.counterCount && (Inc(c) in p.instructions || Dec(c) in p.instructions))
      || (exists c: nat, t: nat :: (c >= p.counterCount || t >= |p.instructions|)
            && (JumpIfZero(c, t) in p.instructions || JumpIfNonzero(c, t) in p.instructions))
      || exists t: nat :: t >= |p.instructions| && Jump(t) in p.instructions
  {
    if !p.Valid() && p.counterCount >= 2 && p.instructions != [] && p.instructions[|p.instructions| - 1] == Halt {
      var i :| 0 <= i < |p.instructions| && !p.instructions[i].Valid(p.counterCount, |p.instructions|);
      assert p.instructions[i] in p.instructions;
    }
  }

  datatype Status = Halted | StepBudgetExhausted | CounterLimit | CounterUnderflow

  datatype Execution = Execution(counters: seq<nat>, pointer: nat, steps: nat, status: Status)

  const MAX_COUNTER: nat := 1_000_000

  /** What one instruction does: go on from a new configuration, or stop. */
  datatype Outcome = Go(counters: seq<nat>, pointer: nat) | Stop(counters: seq<nat>, status: Status)

  function Step(p: Program, counters: seq<nat>, pointer: nat): (o: Outcome)
    requires p.Valid() && |counters| == p.counterCount && pointer < |p.instructions|
    ensures |o.counters| == p.counterCount
    ensures o.Go? ==> o.pointer < |p.instructions|
  {
    match p.instructions[pointer]
    case Halt => Stop(counters, Halted)
    case Inc(c) =>
      var bumped := counters[c := counters[c] + 1];
      if counters[c] + 1 > MAX_COUNTER then Stop(bumped, CounterLimit) else Go(bumped, pointer + 1)
    case Dec(c) =>
      if counters[c] == 0 then Stop(counters, CounterUnderflow)
      else Go(counters[c := counters[c] - 1], pointer + 1)
    case Jump(t) => Go(counters, t)
    case JumpIfZero(c, t) => Go(counters, if counters[c] == 0 then t else pointer + 1)
    case JumpIfNonzero(c, t) => Go(counters, if counters[c] != 0 then t else pointer + 1)
  }

  /** The execution that has already spent `done` steps and may spend `budget` more. */
  function Run(p: Program, counters: seq<nat>, pointer: nat, done: nat, budget: nat): (e: Execution)
    requires p.Valid() && |counters| == p.counterCount && pointer < |p.instructions|
    ensures |e.counters| == p.counterCount
    decreases budget
  {
    if budget == 0 then Execution(counters, pointer, done, StepBudgetExhausted)
    else match Step(p, counters, pointer)
      case Stop(after, status) => Execution(after, pointer, done + 1, status)
      case Go(after, next) => Run(p, after, next, done + 1, budget - 1)
  }

  /** `execute`, with the default counter limit and no recorded trace. */
  method Execute(p: Program, counters: seq<nat>, maxSteps: nat) returns (r: Result<Execution>)
    ensures r.Success? <==> p.Valid() && |counters| == p.counterCount && maxSteps >= 1
    ensures r.Success? ==> r.value == Run(p, counters, 0, 0, maxSteps)
  {
    if !p.Valid() {
      return Failure("invalid control-flow program");
    }
    if |counters| != p.counterCount {
      return Failure("initial counters are invalid");
    }
    if maxSteps < 1 {
      return Failure("execution bounds must be positive");
    }
    var state, pointer: nat := counters, 0;
    for steps := 0 to maxSteps
      invariant |state| == p.counterCount && pointer < |p.instructions|
      invariant Run(p, counters, 0, 0, maxSteps) == Run(p, state, pointer, steps, maxSteps - steps)
    {
      match p.instructions[pointer]
      case Halt =>
        return Success(Execution(state, pointer, steps + 1, Halted));
      case Inc(c) =>
        state := state[c := state[c] + 1];
        if state[c] > MAX_COUNTER {
          return Success(Execution(state, pointer, steps + 1, CounterLimit));
        }
        pointer := pointer + 1;
      case Dec(c) =>
        if state[c] == 0 {
          return Success(Execution(state, pointer, steps + 1, CounterUnderflow));
        }
        state := state[c := state[c] - 1];
        pointer := pointer + 1;
      case Jump(t) =>
        pointer := t;
      case JumpIfZero(c, t) =>
        pointer := if state[c] == 0 then t else pointer + 1;
      case JumpIfNonzero(c, t) =>
        pointer := if state[c] != 0 then t else pointer + 1;
    }
    return Success(Execution(state, pointer, maxSteps, StepBudgetExhausted));
  }

  /** Exactly `n` instructions lead from one configuration to the other, none of them stopping. */
  ghost predicate Reaches(p: Program, c: seq<nat>, pc: nat, n: nat, c': seq<nat>, pc': nat)
    decreases n
  {
    && p.Valid() && |c| == p.counterCount && pc < |p.instructions|
    && if n == 0 then c == c' && pc == pc'
       else
         var o := Step(p, c, pc);
         o.Go? && Reaches(p, o.counters, o.pointer, n - 1, c', pc')
  }

  lemma ReachesHere(p: Program, c: seq<nat>, pc: nat)
    requires p.Valid() && |c| == p.counterCount && pc < |p.instructions|
    ensures Reaches(p, c, pc, 0, c, pc)
  {
  }

  lemma {:induction false} ReachesCompose(p: Program, c0: seq<nat>, pc0: nat, n: nat, c1: seq<nat>, pc1: nat, m: nat,
      c2: seq<nat>, pc2: nat)
    requires Reaches(p, c0, pc0, n, c1, pc1) && Reaches(p, c1, pc1, m, c2, pc2)
    ensures Reaches(p, c0, pc0, n + m, c2, pc2)
    decreases n
  {
    if n > 0 {
      var o := Step(p, c0, pc0);
      ReachesCompose(p, o.counters, o.pointer, n - 1, c1, pc1, m, c2, pc2);
    }
  }

  /** Reaching a halt after `n` instructions decides the run for every budget. */
  lemma {:induction false} RunToHalt(p: Program, c: seq<nat>, pc: nat, n: nat, c': seq<nat>, pc': nat, done: nat,
      budget: nat)
    requires p.Valid() && |c| == p.counterCount && pc < |p.instructions|
    requires pc' < |p.instructions| && p.instructions[pc'] == Halt
    requires Reaches(p, c, pc, n, c', pc')
    ensures n < budget ==> Run(p, c, pc, done, budget) == Execution(c', pc', done + n + 1, Halted)
    ensures budget <= n ==> Run(p, c, pc, done, budget).status == StepBudgetExhausted
    decreases n
  {
    if n > 0 && budget > 0 {
      var o := Step(p, c, pc);
      RunToHalt(p, o.counters, o.pointer, n - 1, c', pc', done + 1, budget - 1);
    }
  }
}
