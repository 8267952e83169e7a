/**
 The shape both rule compilers emit, and how they emit it.

 A program evaluates one guarded block per (state, symbol) cell, clears the
 one-hot state counters with loops, moves the next-state counters into them with
 loops, and halts. `Assembler` builds such programs the way the compilers do:
 instructions with placeholder targets, labels, and a back-patching pass.
 `Assemble` ends with exactly the row-by-row layout, and `AssembledValid` says when
 that layout is a valid program.
 */
module CounterAssembly {
  import opened Prelude
  import opened ControlFlow

  // ------------------------------------------------------------------ assembling

  datatype Label =
    | BlockEnd(state: nat, symbol: nat)
    | Clear(state: nat)
    | Cleared(state: nat)
    | Move(state: nat)
    | Moved(state: nat)

  type Patch = (nat, Label)

  ghost function Patched(instructions: seq<Instruction>, patches: seq<Patch>,
      address: Label -> nat): (r: seq<Instruction>)
    requires forall k :: 0 <= k < |patches| ==> patches[k].0 < |instructions|
    ensures |r| == |instructions|
    decreases |patches|
  {
    if patches == [] then instructions
    else
      var before := Patched(instructions, patches[..|patches| - 1], address);
      var patch := patches[|patches| - 1];
      before[patch.0 := before[patch.0].Retarget(address(patch.1))]
  }

  lemma {:induction false} PatchedAppend(instructions: seq<Instruction>, patches: seq<Patch>, address: Label -> nat,
      more: Instruction)
    requires forall k :: 0 <= k < |patches| ==> patches[k].0 < |instructions|
    ensures Patched(instructions + [more], patches, address) == Patched(instructions, patches, address) + [more]
    decreases |patches|
  {
    if patches != [] {
      PatchedAppend(instructions, patches[..|patches| - 1], address, more);
    }
  }

  /** The `instructions`, `patches` and `labels` a compiler fills, with its `emit`. */
  class Assembler {
    var instructions: seq<Instruction>
    var patches: seq<Patch>
    var labels: map<Label, nat>
    /** Where each label will end up; the compilers know this in advance, the program does not store it. */
    ghost const address: Label -> nat

    /** The instructions as they will read once patched. */
    ghost var code: seq<Instruction>

    ghost predicate Valid()
      reads this
    {
      && |code| == |instructions|
      && (forall k :: 0 <= k < |patches| ==> patches[k].0 < |instructions|)
      && (forall l :: l in labels ==> labels[l] == address(l))
      && code == Patched(instructions, patches, address)
    }

    ghost predicate Resolvable()
      reads this
    {
      forall k :: 0 <= k < |patches| ==> patches[k].1 in labels
    }

    constructor (ghost address: Label -> nat)
      ensures Valid() && Resolvable() && code == [] && labels == map[] && this.address == address
    {
      instructions, patches, labels, code := [], [], map[], [];
      this.address := address;
    }

    method Emit(instruction: Instruction)
      requires Valid()
      modifies this
      ensures Valid() && code == old(code) + [instruction]
      ensures patches == old(patches) && labels == old(labels)
    {
      PatchedAppend(instructions, patches, address, instruction);
      instructions := instructions + [instruction];
      code := code + [instruction];
    }

    method EmitJump(instruction: Instruction, name: Label)
      requires Valid()
      modifies this
      ensures Valid() && code == old(code) + [instruction.Retarget(address(name))]
      ensures patches == old(patches) + [(old(|instructions|), name)] && labels == old(labels)
    {
      PatchedAppend(instructions, patches, address, instruction);
      instructions := instructions + [instruction];
      patches := patches + [(|instructions| - 1, name)];
      assert patches[..|patches| - 1] == old(patches);
      code := code + [instruction.Retarget(address(name))];
    }

    method Mark(name: Label)
      requires Valid() && address(name) == |instructions|
      modifies this`labels
      ensures Valid() && code == old(code)
      ensures labels == old(labels)[name := |instructions|]
    {
      labels := labels[name := |instructions|];
    }

    /** The back-patching pass. */
    method Resolve() returns (resolved: seq<Instruction>)
      requires Valid() && Resolvable()
      ensures resolved == code
    {
      resolved := instructions;
      for k := 0 to |patches|
        invariant |resolved| == |instructions|
        invariant resolved == Patched(instructions, patches[..k], address)
      {
        var (position, name) := patches[k];
        assert patches[..k + 1][..k] == patches[..k];
        resolved := resolved[position := resolved[position].Retarget(labels[name])];
      }
      assert patches[..|patches|] == patches;
    }
  }

  // ------------------------------------------------------------ the program shape

  /** One guarded block, in terms of counters. */
  datatype Cell = Cell(state: nat, input: nat, emit: Option<nat>, next: nat) {
    function Size(): nat {
      if emit.Some? then 4 else 3
    }

    function Code(at: nat): (code: seq<Instruction>)
      ensures |code| == Size()
    {
      [JumpIfZero(state, at + Size()), JumpIfZero(input, at + Size())]
      + (if emit.Some? then [Inc(emit.value)] else [])
      + [Inc(next)]
    }
  }

  /**
   A rule laid out on counters: one-hot state at `working`, one-hot next state
   right after it, `input[y]` the counter that is positive on symbol y,
   `emit[s][y]` the counter the cell raises, if any.
   */
  datatype Plan = Plan(working: nat, input: seq<nat>, emit: seq<seq<Option<nat>>>, next: seq<seq<nat>>) {
    function States(): nat {
      |next|
    }

    function Symbols(): nat {
      |input|
    }

    function CounterCount(): nat {
      working + 2 * States()
    }

    predicate Shaped() {
      && States() > 0
      && |emit| == |next|
      && (forall s :: 0 <= s < |next| ==> |next[s]| == Symbols() && |emit[s]| == Symbols())
      && (forall s, y :: 0 <= s < |next| && 0 <= y < Symbols() ==> next[s][y] < States())
    }

    /** Answers and inputs live below the state counters, and answers are not inputs. */
    predicate Separated()
      requires Shaped()
    {
      && (forall y :: 0 <= y < Symbols() ==> input[y] < working)
      && (forall s, y :: 0 <= s < States() && 0 <= y < Symbols() && emit[s][y].Some? ==>
            emit[s][y].value < working && emit[s][y].value !in input)
    }

    function At(s: nat, y: nat): Cell
      requires Shaped() && s < States() && y < Symbols()
    {
      Cell(working + s, input[y], emit[s][y], working + States() + next[s][y])
    }
  }

  function RowCode(plan: Plan, s: nat, n: nat, at: nat): seq<Instruction>
    requires plan.Shaped() && s < plan.States() && n <= plan.Symbols()
  {
    if n == 0 then []
    else
      var before := RowCode(plan, s, n - 1, at);
      before + plan.At(s, n - 1).Code(at + |before|)
  }

  function RowsCode(plan: Plan, rows: nat): seq<Instruction>
    requires plan.Shaped() && rows <= plan.States()
  {
    if rows == 0 then []
    else
      var before := RowsCode(plan, rows - 1);
      before + RowCode(plan, rows - 1, plan.Symbols(), |before|)
  }

  function ClearCode(counter: nat, at: nat): seq<Instruction> {
    [JumpIfZero(counter, at + 3), Dec(counter), Jump(at)]
  }

  function ClearsCode(first: nat, n: nat, at: nat): (code: seq<Instruction>)
    ensures |code| == 3 * n
  {
    if n == 0 then [] else ClearsCode(first, n - 1, at) + ClearCode(first + n - 1, at + 3 * (n - 1))
  }

  function MoveCode(from: nat, to: nat, at: nat): seq<Instruction> {
    [JumpIfZero(from, at + 4), Dec(from), Inc(to), Jump(at)]
  }

  function MovesCode(from: nat, to: nat, n: nat, at: nat): (code: seq<Instruction>)
    ensures |code| == 4 * n
  {
    if n == 0 then [] else MovesCode(from, to, n - 1, at) + MoveCode(from + n - 1, to + n - 1, at + 4 * (n - 1))
  }

  /** The cells, then the state swap, then the halt. */
  function TailCode(plan: Plan, at: nat): seq<Instruction>
    requires plan.Shaped()
  {
    var n := plan.States();
    ClearsCode(plan.working, n, at) + MovesCode(plan.working + n, plan.working, n, at + 3 * n) + [Halt]
  }

  function Assembled(plan: Plan): Program
    requires plan.Shaped()
  {
    var blocks := RowsCode(plan, plan.States());
    Program(plan.CounterCount(), blocks + TailCode(plan, |blocks|))
  }

  ghost function Address(plan: Plan, name: Label): nat
    requires plan.Shaped()
  {
    var blocks := |RowsCode(plan, plan.States())|;
    match name
    case BlockEnd(s, y) =>
      if s < plan.States() && y < plan.Symbols()
      then |RowsCode(plan, s)| + |RowCode(plan, s, y + 1, |RowsCode(plan, s)|)|
      else 0
    case Clear(s) => blocks + 3 * s
    case Cleared(s) => blocks + 3 * s + 3
    case Move(s) => blocks + 3 * plan.States() + 4 * s
    case Moved(s) => blocks + 3 * plan.States() + 4 * s + 4
  }

  /** Count a state counter down to zero. */
  method EmitClear(asm: Assembler, s: nat, counter: nat)
    requires asm.Valid() && asm.Resolvable()
    requires asm.address(Clear(s)) == |asm.code| && asm.address(Cleared(s)) == |asm.code| + 3
    modifies asm
    ensures asm.Valid() && asm.Resolvable()
    ensures asm.code == old(asm.code) + ClearCode(counter, |old(asm.code)|)
  {
    hide Patched;
    ghost var before := asm.code;
    asm.Mark(Clear(s));
    asm.EmitJump(JumpIfZero(counter, 0), Cleared(s));
    asm.Emit(Dec(counter));
    asm.EmitJump(Jump(0), Clear(s));
    assert asm.code == before + ClearCode(counter, |before|);
    asm.Mark(Cleared(s));
  }

  /** Move a next-state counter onto its state counter, one unit at a time. */
  method EmitMove(asm: Assembler, s: nat, from: nat, to: nat)
    requires asm.Valid() && asm.Resolvable()
    requires asm.address(Move(s)) == |asm.code| && asm.address(Moved(s)) == |asm.code| + 4
    modifies asm
    ensures asm.Valid() && asm.Resolvable()
    ensures asm.code == old(asm.code) + MoveCode(from, to, |old(asm.code)|)
  {
    hide Patched;
    ghost var before := asm.code;
    asm.Mark(Move(s));
    asm.EmitJump(JumpIfZero(from, 0), Moved(s));
    asm.Emit(Dec(from));
    asm.Emit(Inc(to));
    asm.EmitJump(Jump(0), Move(s));
    assert asm.code == before + MoveCode(from, to, |before|);
    asm.Mark(Moved(s));
  }

  method EmitClears(asm: Assembler, first: nat, n: nat)
    requires asm.Valid() && asm.Resolvable()
    requires forall s {:trigger Clear(s)} :: 0 <= s < n ==> asm.address(Clear(s)) == |asm.code| + 3 * s
    requires forall s {:trigger Cleared(s)} :: 0 <= s < n ==> asm.address(Cleared(s)) == |asm.code| + 3 * s + 3
    modifies asm
    ensures asm.Valid() && asm.Resolvable()
    ensures asm.code == old(asm.code) + ClearsCode(first, n, |old(asm.code)|)
  {
    ghost var blocks := asm.code;
    for s := 0 to n
      invariant asm.Valid() && asm.Resolvable()
      invariant asm.code == blocks + ClearsCode(first, s, |blocks|)
    {
      EmitClear(asm, s, first + s);
    }
  }

  method EmitMoves(asm: Assembler, from: nat, to: nat, n: nat)
    requires asm.Valid() && asm.Resolvable()
    requires forall s {:trigger Move(s)} :: 0 <= s < n ==> asm.address(Move(s)) == |asm.code| + 4 * s
    requires forall s {:trigger Moved(s)} :: 0 <= s < n ==> asm.address(Moved(s)) == |asm.code| + 4 * s + 4
    modifies asm
    ensures asm.Valid() && asm.Resolvable()
    ensures asm.code == old(asm.code) + MovesCode(from, to, n, |old(asm.code)|)
  {
    ghost var before := asm.code;
    for s := 0 to n
      invariant asm.Valid() && asm.Resolvable()
      invariant asm.code == before + MovesCode(from, to, s, |before|)
    {
      EmitMove(asm, s, from + s, to + s);
    }
  }

  /** One guarded block, its end marked. */
  method EmitBlock(asm: Assembler, name: Label, cell: Cell)
    requires asm.Valid() && asm.Resolvable()
    requires asm.address(name) == |asm.code| + cell.Size()
    modifies asm
    ensures asm.Valid() && asm.Resolvable()
    ensures asm.code == old(asm.code) + cell.Code(|old(asm.code)|)
  {
    hide Patched;
    ghost var before, end := asm.code, asm.address(name);
    asm.EmitJump(JumpIfZero(cell.state, 0), name);
    asm.EmitJump(JumpIfZero(cell.input, 0), name);
    if cell.emit.Some? {
      asm.Emit(Inc(cell.emit.value));
    }
    asm.Emit(Inc(cell.next));
    assert asm.code == before + cell.Code(|before|);
    asm.Mark(name);
  }

  /** Where the labels of the state swap must be when its code starts at `at`. */
  ghost predicate SwapAddresses(address: Label -> nat, at: nat, states: nat) {
    && (forall s {:trigger Clear(s)} :: 0 <= s < states ==> address(Clear(s)) == at + 3 * s)
    && (forall s {:trigger Cleared(s)} :: 0 <= s < states ==> address(Cleared(s)) == at + 3 * s + 3)
    && (forall s {:trigger Move(s)} :: 0 <= s < states ==> address(Move(s)) == at + 3 * states + 4 * s)
    && (forall s {:trigger Moved(s)} :: 0 <= s < states ==> address(Moved(s)) == at + 3 * states + 4 * s + 4)
  }

  /** The part both compilers share: clear loops, move loops, halt. */
  method EmitTail(asm: Assembler, working: nat, states: nat, ghost plan: Plan)
    requires plan.Shaped() && plan.working == working && plan.States() == states
    requires asm.Valid() && asm.Resolvable()
    requires SwapAddresses(asm.address, |asm.code|, states)
    modifies asm
    ensures asm.Valid() && asm.Resolvable()
    ensures asm.code == old(asm.code) + TailCode(plan, |old(asm.code)|)
  {
    EmitClears(asm, working, states);
    EmitMoves(asm, working + states, working, states);
    asm.Emit(Halt);
  }

  /** Where block (s, y) starts. */
  function Start(plan: Plan, s: nat, y: nat): nat
    requires plan.Shaped() && s < plan.States() && y <= plan.Symbols()
  {
    |RowsCode(plan, s)| + |RowCode(plan, s, y, |RowsCode(plan, s)|)|
  }

  ghost predicate BlockAddresses(address: Label -> nat, plan: Plan)
    requires plan.Shaped()
  {
    forall s, y {:trigger BlockEnd(s, y)} :: 0 <= s < plan.States() && 0 <= y < plan.Symbols() ==>
      address(BlockEnd(s, y)) == Start(plan, s, y + 1)
  }

  lemma AddressFacts(plan: Plan, address: Label -> nat)
    requires plan.Shaped() && forall l :: address(l) == Address(plan, l)
    ensures SwapAddresses(address, |RowsCode(plan, plan.States())|, plan.States())
    ensures BlockAddresses(address, plan)
  {
  }

  /** The block of one more symbol, and where its end label must be. */
  lemma NextBlock(address: Label -> nat, plan: Plan, state: nat, symbol: nat)
    requires plan.Shaped() && state < plan.States() && symbol < plan.Symbols()
    requires BlockAddresses(address, plan)
    ensures var code := RowsCode(plan, state);
      var reached := code + RowCode(plan, state, symbol, |code|);
      var cell := plan.At(state, symbol);
      && address(BlockEnd(state, symbol)) == |reached| + cell.Size()
      && code + RowCode(plan, state, symbol + 1, |code|) == reached + cell.Code(|reached|)
  {
    assert address(BlockEnd(state, symbol)) == Start(plan, state, symbol + 1);
  }

  /** The blocks of one state, symbol by symbol. */
  method EmitRow(asm: Assembler, plan: Plan, state: nat)
    requires plan.Shaped() && state < plan.States()
    requires asm.Valid() && asm.Resolvable() && BlockAddresses(asm.address, plan)
    requires asm.code == RowsCode(plan, state)
    modifies asm
    ensures asm.Valid() && asm.Resolvable()
    ensures asm.code == RowsCode(plan, state + 1)
  {
    hide Assembler.Valid, Assembler.Resolvable, BlockAddresses, Cell.Code, Cell.Size;
    ghost var before := asm.code;
    for symbol := 0 to plan.Symbols()
      invariant asm.Valid() && asm.Resolvable()
      invariant asm.code == before + RowCode(plan, state, symbol, |before|)
    {
      NextBlock(asm.address, plan, state, symbol);
      EmitBlock(asm, BlockEnd(state, symbol), plan.At(state, symbol));
    }
  }

  /** The whole compilation: blocks row by row, the state swap, the halt, then back-patching. */
  method Assemble(plan: Plan) returns (p: Program)
    requires plan.Shaped()
    ensures p == Assembled(plan)
  {
    hide Assembler.Valid, Assembler.Resolvable, Address, BlockAddresses, SwapAddresses, Patched, RowCode, TailCode;
    var asm := new Assembler(l => Address(plan, l));
    AddressFacts(plan, asm.address);
    for state := 0 to plan.States()
      invariant asm.Valid() && asm.Resolvable()
      invariant asm.code == RowsCode(plan, state)
    {
      EmitRow(asm, plan, state);
    }
    EmitTail(asm, plan.working, plan.States(), plan);
    var resolved := asm.Resolve();
    return Program(plan.CounterCount(), resolved);
  }

  // ----------------------------------------------------------- well-formed programs

  /** Every counter a plan's blocks mention exists. */
  predicate InRange(plan: Plan)
    requires plan.Shaped()
  {
    && (forall y :: 0 <= y < plan.Symbols() ==> plan.input[y] < plan.CounterCount())
    && (forall s, y :: 0 <= s < plan.States() && 0 <= y < plan.Symbols() && plan.emit[s][y].Some? ==>
          plan.emit[s][y].value < plan.CounterCount())
  }

  predicate AllValid(code: seq<Instruction>, counterCount: nat, length: nat) {
    forall i :: 0 <= i < |code| ==> code[i].Valid(counterCount, length)
  }

  lemma {:induction false} RowCodeValid(plan: Plan, s: nat, n: nat, at: nat, length: nat)
    requires plan.Shaped() && InRange(plan) && s < plan.States() && n <= plan.Symbols()
    requires at + |RowCode(plan, s, n, at)| < length
    ensures AllValid(RowCode(plan, s, n, at), plan.CounterCount(), length)
    decreases n
  {
    if n > 0 {
      RowCodeValid(plan, s, n - 1, at, length);
    }
  }

  lemma {:induction false} RowsCodeValid(plan: Plan, rows: nat, length: nat)
    requires plan.Shaped() && InRange(plan) && rows <= plan.States()
    requires |RowsCode(plan, rows)| < length
    ensures AllValid(RowsCode(plan, rows), plan.CounterCount(), length)
    decreases rows
  {
    if rows > 0 {
      RowsCodeValid(plan, rows - 1, length);
      RowCodeValid(plan, rows - 1, plan.Symbols(), |RowsCode(plan, rows - 1)|, length);
    }
  }

  lemma {:induction false} ClearsCodeValid(first: nat, n: nat, at: nat, counterCount: nat, length: nat)
    requires first + n <= counterCount && at + 3 * n < length
    ensures AllValid(ClearsCode(first, n, at), counterCount, length)
    decreases n
  {
    if n > 0 {
      ClearsCodeValid(first, n - 1, at, counterCount, length);
    }
  }

  lemma {:induction false} MovesCodeValid(from: nat, to: nat, n: nat, at: nat, counterCount: nat, length: nat)
    requires from + n <= counterCount && to + n <= counterCount && at + 4 * n < length
    ensures AllValid(MovesCode(from, to, n, at), counterCount, length)
    decreases n
  {
    if n > 0 {
      MovesCodeValid(from, to, n - 1, at, counterCount, length);
    }
  }

  /** Every counter exists and every back-patched target lies inside the program. */
  lemma AssembledValid(plan: Plan)
    requires plan.Shaped() && InRange(plan)
    ensures Assembled(plan).Valid()
  {
    var blocks := RowsCode(plan, plan.States());
    var n, w, length := plan.States(), plan.working, |Assembled(plan).instructions|;
    RowsCodeValid(plan, n, length);
    ClearsCodeValid(w, n, |blocks|, plan.CounterCount(), length);
    MovesCodeValid(w + n, w, n, |blocks| + 3 * n, plan.CounterCount(), length);
  }
}
