/**
 One tick of a compiled rule, proved on the instructions themselves: which block
 fires, what the clear and move loops leave behind, and how many instructions the
 whole tick takes.
 */
module TickSimulation {
  import opened Prelude
  import opened ControlFlow
  import opened CounterAssembly

  /** `code` sits at address `at` of the program. */
  ghost predicate Has(p: Program, at: nat, code: seq<Instruction>) {
    && at + |code| <= |p.instructions|
    && p.instructions[at..at + |code|] == code
  }

  lemma HasAll(p: Program)
    ensures Has(p, 0, p.instructions)
  {
  }

  lemma HasAt(p: Program, at: nat, code: seq<Instruction>, k: nat)
    requires Has(p, at, code) && k < |code|
    ensures p.instructions[at + k] == code[k]
  {
    assert p.instructions[at..at + |code|][k] == code[k];
  }

  lemma HasPart(p: Program, at: nat, left: seq<Instruction>, right: seq<Instruction>)
    requires Has(p, at, left + right)
    ensures Has(p, at, left) && Has(p, at + |left|, right)
  {
    var whole := p.instructions[at..at + |left + right|];
    assert whole == left + right;
    assert p.instructions[at..at + |left|] == whole[..|left|];
    assert p.instructions[at + |left|..at + |left| + |right|] == whole[|left|..];
  }

  /** Room left below the executor's counter limit. */
  predicate Small(c: seq<nat>) {
    forall i :: 0 <= i < |c| ==> c[i] + 2 <= MAX_COUNTER
  }

  // -------------------------------------------------------------------- one block

  predicate Fires(cell: Cell, c: seq<nat>) {
    cell.state < |c| && cell.input < |c| && c[cell.state] > 0 && c[cell.input] > 0
  }

  function Bump(c: seq<nat>, i: nat): (r: seq<nat>)
    ensures |r| == |c|
  {
    if i < |c| then c[i := c[i] + 1] else c
  }

  function Fire(cell: Cell, c: seq<nat>): (r: seq<nat>)
    ensures |r| == |c|
  {
    Bump(if cell.emit.Some? then Bump(c, cell.emit.value) else c, cell.next)
  }

  lemma CellSkips(p: Program, cell: Cell, at: nat, c: seq<nat>)
    requires p.Valid() && |c| == p.counterCount && Has(p, at, cell.Code(at)) && at + cell.Size() < |p.instructions|
    requires cell.state < |c| && cell.input < |c| && !Fires(cell, c)
    ensures Reaches(p, c, at, if c[cell.state] == 0 then 1 else 2, c, at + cell.Size())
  {
    HasAt(p, at, cell.Code(at), 0);
    HasAt(p, at, cell.Code(at), 1);
    if c[cell.state] != 0 {
      assert Reaches(p, c, at + 1, 1, c, at + cell.Size());
    }
  }

  lemma CellFires(p: Program, cell: Cell, at: nat, c: seq<nat>)
    requires p.Valid() && |c| == p.counterCount && Has(p, at, cell.Code(at)) && at + cell.Size() < |p.instructions|
    requires Fires(cell, c) && Small(c)
    ensures Reaches(p, c, at, cell.Size(), Fire(cell, c), at + cell.Size())
  {
    hide Reaches, Has, Program.Valid;
    HasAt(p, at, cell.Code(at), 0);
    HasAt(p, at, cell.Code(at), 1);
    HasAt(p, at, cell.Code(at), 2);
    GuardPasses(p, at, c);
    GuardPasses(p, at + 1, c);
    ReachesCompose(p, c, at, 1, c, at + 1, 1, c, at + 2);
    if cell.emit.Some? {
      HasAt(p, at, cell.Code(at), 3);
      var emitted := Bump(c, cell.emit.value);
      IncRuns(p, at + 2, c);
      IncRuns(p, at + 3, emitted);
      ReachesCompose(p, c, at, 2, c, at + 2, 1, emitted, at + 3);
      ReachesCompose(p, c, at, 3, emitted, at + 3, 1, Fire(cell, c), at + 4);
    } else {
      IncRuns(p, at + 2, c);
      ReachesCompose(p, c, at, 2, c, at + 2, 1, Fire(cell, c), at + 3);
    }
  }

  /** A conditional jump over a positive counter falls through. */
  lemma GuardPasses(p: Program, at: nat, c: seq<nat>)
    requires p.Valid() && |c| == p.counterCount && at + 1 < |p.instructions|
    requires p.instructions[at].JumpIfZero? && p.instructions[at].counter < |c| && c[p.instructions[at].counter] > 0
    ensures Reaches(p, c, at, 1, c, at + 1)
  {
    assert Reaches(p, c, at + 1, 0, c, at + 1);
  }

  lemma IncRuns(p: Program, at: nat, c: seq<nat>)
    requires p.Valid() && |c| == p.counterCount && at + 1 < |p.instructions|
    requires p.instructions[at].Inc? && forall i :: 0 <= i < |c| ==> c[i] < MAX_COUNTER
    ensures Reaches(p, c, at, 1, Bump(c, p.instructions[at].counter), at + 1)
  {
    assert p.instructions[at].Valid(p.counterCount, |p.instructions|);
    assert Reaches(p, Bump(c, p.instructions[at].counter), at + 1, 0, Bump(c, p.instructions[at].counter), at + 1);
  }

  // -------------------------------------------------------------------- the loops

  lemma {:induction false} ClearLoop(p: Program, counter: nat, at: nat, c: seq<nat>)
    requires p.Valid() && |c| == p.counterCount && Has(p, at, ClearCode(counter, at)) && at + 3 < |p.instructions|
    requires counter < |c|
    ensures Reaches(p, c, at, 3 * c[counter] + 1, c[counter := 0], at + 3)
    decreases c[counter]
  {
    HasAt(p, at, ClearCode(counter, at), 0);
    HasAt(p, at, ClearCode(counter, at), 1);
    HasAt(p, at, ClearCode(counter, at), 2);
    if c[counter] == 0 {
      assert c[counter := 0] == c;
      assert Reaches(p, c, at + 3, 0, c, at + 3);
    } else {
      var less := c[counter := c[counter] - 1];
      ClearLoop(p, counter, at, less);
      assert less[counter := 0] == c[counter := 0];
      var n := 3 * less[counter] + 1;
      assert Reaches(p, less, at + 2, n + 1, c[counter := 0], at + 3);
      assert Reaches(p, c, at + 1, n + 2, c[counter := 0], at + 3);
    }
  }

  function MovedOne(c: seq<nat>, from: nat, to: nat): (r: seq<nat>)
    requires from < |c| && to < |c|
    ensures |r| == |c|
  {
    c[to := c[to] + c[from]][from := 0]
  }

  lemma {:induction false} MoveLoop(p: Program, from: nat, to: nat, at: nat, c: seq<nat>)
    requires p.Valid() && |c| == p.counterCount && Has(p, at, MoveCode(from, to, at)) && at + 4 < |p.instructions|
    requires from < |c| && to < |c| && from != to && c[from] + c[to] <= MAX_COUNTER
    ensures Reaches(p, c, at, 4 * c[from] + 1, MovedOne(c, from, to), at + 4)
    decreases c[from]
  {
    HasAt(p, at, MoveCode(from, to, at), 0);
    HasAt(p, at, MoveCode(from, to, at), 1);
    HasAt(p, at, MoveCode(from, to, at), 2);
    HasAt(p, at, MoveCode(from, to, at), 3);
    var done := MovedOne(c, from, to);
    if c[from] == 0 {
      assert done == c;
      assert Reaches(p, c, at + 4, 0, c, at + 4);
    } else {
      var taken := c[from := c[from] - 1];
      var given := taken[to := taken[to] + 1];
      MoveLoop(p, from, to, at, given);
      assert MovedOne(given, from, to) == done;
      var n := 4 * given[from] + 1;
      assert Reaches(p, given, at + 3, n + 1, done, at + 4);
      assert Reaches(p, taken, at + 2, n + 2, done, at + 4);
      assert Reaches(p, c, at + 1, n + 3, done, at + 4);
    }
  }

  /** The counters with `n` of them from `first` on emptied. */
  function Zeroed(c: seq<nat>, first: nat, n: nat): (r: seq<nat>)
    ensures |r| == |c|
  {
    seq(|c|, i requires 0 <= i < |c| => if first <= i < first + n then 0 else c[i])
  }

  /** The counters with `n` of them from `from` on moved onto those from `to` on. */
  function Shifted(c: seq<nat>, from: nat, to: nat, n: nat): (r: seq<nat>)
    requires to + n <= from && from + n <= |c|
    ensures |r| == |c|
  {
    seq(|c|, i requires 0 <= i < |c| =>
      if to <= i < to + n then c[i] + c[from + (i - to)]
      else if from <= i < from + n then 0
      else c[i])
  }

  /** Instructions spent by `n` loops that cost `unit` per unit counted and one test each. */
  function LoopCost(c: seq<nat>, first: nat, n: nat, unit: nat): nat
    requires first + n <= |c|
  {
    if n == 0 then 0 else LoopCost(c, first, n - 1, unit) + unit * c[first + n - 1] + 1
  }

  lemma {:induction false} ClearLoops(p: Program, first: nat, n: nat, at: nat, c: seq<nat>)
    requires p.Valid() && |c| == p.counterCount && first + n <= |c|
    requires Has(p, at, ClearsCode(first, n, at)) && at + 3 * n < |p.instructions|
    ensures Reaches(p, c, at, LoopCost(c, first, n, 3), Zeroed(c, first, n), at + 3 * n)
    decreases n
  {
    hide Reaches, Has;
    if n == 0 {
      assert Zeroed(c, first, 0) == c;
      ReachesHere(p, c, at);
    } else {
      var here := at + 3 * (n - 1);
      HasPart(p, at, ClearsCode(first, n - 1, at), ClearCode(first + n - 1, here));
      ClearLoops(p, first, n - 1, at, c);
      var before := Zeroed(c, first, n - 1);
      ClearLoop(p, first + n - 1, here, before);
      assert before[first + n - 1 := 0] == Zeroed(c, first, n);
      ReachesCompose(p, c, at, LoopCost(c, first, n - 1, 3), before, here, 3 * c[first + n - 1] + 1,
        Zeroed(c, first, n), at + 3 * n);
    }
  }

  lemma ShiftedStep(c: seq<nat>, from: nat, to: nat, n: nat)
    requires 0 < n && to + n <= from && from + n <= |c|
    ensures var before := Shifted(c, from, to, n - 1);
      && before[from + n - 1] == c[from + n - 1]
      && before[to + n - 1] == c[to + n - 1]
      && MovedOne(before, from + n - 1, to + n - 1) == Shifted(c, from, to, n)
  {
  }

  lemma {:induction false} MoveLoops(p: Program, from: nat, to: nat, n: nat, at: nat, c: seq<nat>)
    requires p.Valid() && |c| == p.counterCount && to + n <= from && from + n <= |c|
    requires forall i :: to <= i < to + n ==> c[i] + c[i + (from - to)] <= MAX_COUNTER
    requires Has(p, at, MovesCode(from, to, n, at)) && at + 4 * n < |p.instructions|
    ensures Reaches(p, c, at, LoopCost(c, from, n, 4), Shifted(c, from, to, n), at + 4 * n)
    decreases n
  {
    hide Reaches, Has;
    if n == 0 {
      assert Shifted(c, from, to, 0) == c;
      ReachesHere(p, c, at);
    } else {
      var here := at + 4 * (n - 1);
      HasPart(p, at, MovesCode(from, to, n - 1, at), MoveCode(from + n - 1, to + n - 1, here));
      MoveLoops(p, from, to, n - 1, at, c);
      var before, after := Shifted(c, from, to, n - 1), Shifted(c, from, to, n);
      ShiftedStep(c, from, to, n);
      assert c[to + n - 1] + c[to + n - 1 + (from - to)] <= MAX_COUNTER;
      hide Shifted, MovedOne, MovesCode;
      MoveLoop(p, from + n - 1, to + n - 1, here, before);
      ReachesCompose(p, c, at, LoopCost(c, from, n - 1, 4), before, here, 4 * c[from + n - 1] + 1, after, at + 4 * n);
    }
  }

  // ------------------------------------------------------------ one-hot configurations

  /** Of the `n` counters from `first` on, number `hot` is 1 and the others are 0. */
  predicate Hot(c: seq<nat>, first: nat, n: nat, hot: nat)
    requires first + n <= |c|
  {
    forall i :: first <= i < first + n ==> c[i] == (if i == first + hot then 1 else 0)
  }

  predicate AllZero(c: seq<nat>, first: nat, n: nat)
    requires first + n <= |c|
  {
    forall i :: first <= i < first + n ==> c[i] == 0
  }

  /** Exactly one state counter is 1, the rest and all next-state counters are 0. */
  predicate OneHot(plan: Plan, c: seq<nat>, active: nat)
    requires plan.Shaped()
  {
    && |c| == plan.CounterCount()
    && active < plan.States()
    && Hot(c, plan.working, plan.States(), active)
    && AllZero(c, plan.working + plan.States(), plan.States())
  }

  /** Of the input counters exactly the one of symbol `y` is raised. */
  predicate Reading(plan: Plan, c: seq<nat>, y: nat)
    requires plan.Shaped() && |c| == plan.CounterCount()
  {
    && y < plan.Symbols()
    && (forall z :: 0 <= z < plan.Symbols() ==> plan.input[z] < |c|)
    && (forall z :: 0 <= z < plan.Symbols() ==> (c[plan.input[z]] > 0 <==> z == y))
  }

  lemma LoopCostOneHot(c: seq<nat>, first: nat, n: nat, unit: nat, hot: nat)
    requires first + n <= |c|
    requires Hot(c, first, n, hot)
    ensures LoopCost(c, first, n, unit) == n + (if hot < n then unit else 0)
  {
  }

  // ------------------------------------------------------------------- all the blocks

  lemma {:induction false} HasRow(p: Program, plan: Plan, rows: nat, s: nat)
    requires plan.Shaped() && s < rows <= plan.States() && Has(p, 0, RowsCode(plan, rows))
    ensures Has(p, |RowsCode(plan, s)|, RowCode(plan, s, plan.Symbols(), |RowsCode(plan, s)|))
    ensures |RowsCode(plan, s + 1)| <= |RowsCode(plan, rows)|
    decreases rows
  {
    var before := RowsCode(plan, rows - 1);
    HasPart(p, 0, before, RowCode(plan, rows - 1, plan.Symbols(), |before|));
    if s < rows - 1 {
      HasRow(p, plan, rows - 1, s);
    }
  }

  lemma {:induction false} HasCell(p: Program, plan: Plan, s: nat, n: nat, y: nat, at: nat)
    requires plan.Shaped() && s < plan.States() && y < n <= plan.Symbols() && Has(p, at, RowCode(plan, s, n, at))
    ensures Has(p, at + |RowCode(plan, s, y, at)|, plan.At(s, y).Code(at + |RowCode(plan, s, y, at)|))
    ensures |RowCode(plan, s, y + 1, at)| <= |RowCode(plan, s, n, at)|
    decreases n
  {
    var before := RowCode(plan, s, n - 1, at);
    HasPart(p, at, before, plan.At(s, n - 1).Code(at + |before|));
    if y < n - 1 {
      HasCell(p, plan, s, n - 1, y, at);
    }
  }

  lemma RowsEnd(plan: Plan, s: nat)
    requires plan.Shaped() && s < plan.States()
    ensures |RowsCode(plan, s + 1)| == |RowsCode(plan, s)| + |RowCode(plan, s, plan.Symbols(), |RowsCode(plan, s)|)|
  {
  }

  lemma RowEnd(plan: Plan, s: nat, y: nat)
    requires plan.Shaped() && s < plan.States() && y < plan.Symbols()
    ensures Start(plan, s, y + 1) == Start(plan, s, y) + plan.At(s, y).Size()
  {
  }

  lemma BlockPlaced(p: Program, plan: Plan, s: nat, y: nat)
    requires plan.Shaped() && s < plan.States() && y < plan.Symbols()
    requires Has(p, 0, RowsCode(plan, plan.States())) && |RowsCode(plan, plan.States())| < |p.instructions|
    ensures Has(p, Start(plan, s, y), plan.At(s, y).Code(Start(plan, s, y)))
    ensures Start(plan, s, y) + plan.At(s, y).Size() == Start(plan, s, y + 1) < |p.instructions|
  {
    hide Has, RowsCode, RowCode, Cell.Code, Plan.Shaped, Plan.At;
    RowsEnd(plan, s);
    RowEnd(plan, s, y);
    HasRow(p, plan, plan.States(), s);
    var at := |RowsCode(plan, s)|;
    HasCell(p, plan, s, plan.Symbols(), y, at);
  }

  /** The counters when block (s, y) is about to run: fired or not yet. */
  function Midway(plan: Plan, c: seq<nat>, active: nat, read: nat, s: nat, y: nat): seq<nat>
    requires plan.Shaped() && active < plan.States() && read < plan.Symbols()
  {
    if s < active || (s == active && y <= read) then c else Fire(plan.At(active, read), c)
  }

  function RowCost(plan: Plan, active: nat, read: nat, s: nat, y: nat): nat
    requires plan.Shaped() && active < plan.States() && read < plan.Symbols()
  {
    if s != active then y
    else if y <= read then 2 * y
    else 2 * (y - 1) + plan.At(active, read).Size()
  }

  /** Firing the active block leaves every guard as it was. */
  lemma FireKeepsGuards(plan: Plan, c: seq<nat>, active: nat, read: nat, s: nat, y: nat)
    requires plan.Shaped() && plan.Separated() && OneHot(plan, c, active) && read < plan.Symbols()
    requires s < plan.States() && y < plan.Symbols()
    ensures var d := Fire(plan.At(active, read), c);
      d[plan.working + s] == c[plan.working + s] && d[plan.input[y]] == c[plan.input[y]]
  {
    assert plan.input[y] in plan.input;
  }

  /** The program holds the plan's blocks, and the counters are one-hot and reading one symbol. */
  ghost predicate Setup(p: Program, plan: Plan, c: seq<nat>, active: nat, read: nat)
    requires plan.Shaped()
  {
    && p.Valid() && plan.Separated() && p.counterCount == plan.CounterCount()
    && Has(p, 0, RowsCode(plan, plan.States())) && |RowsCode(plan, plan.States())| < |p.instructions|
    && OneHot(plan, c, active) && Reading(plan, c, read) && Small(c)
  }

  /** One block of one row. */
  lemma BlockRuns(p: Program, plan: Plan, c: seq<nat>, active: nat, read: nat, s: nat, y: nat)
    requires plan.Shaped() && Setup(p, plan, c, active, read)
    requires s < plan.States() && y < plan.Symbols()
    ensures Start(plan, s, y) < |p.instructions| && Start(plan, s, y + 1) < |p.instructions|
    ensures Reaches(p, Midway(plan, c, active, read, s, y), Start(plan, s, y),
      RowCost(plan, active, read, s, y + 1) - RowCost(plan, active, read, s, y),
      Midway(plan, c, active, read, s, y + 1), Start(plan, s, y + 1))
  {
    hide Reaches, Has, RowsCode, RowCode, Start, Fire;
    BlockPlaced(p, plan, s, y);
    FireKeepsGuards(plan, c, active, read, s, y);
    var cell := plan.At(s, y);
    if s == active && y == read {
      CellFires(p, cell, Start(plan, s, y), c);
    } else {
      CellSkips(p, cell, Start(plan, s, y), Midway(plan, c, active, read, s, y));
    }
  }

  lemma SetupFacts(p: Program, plan: Plan, c: seq<nat>, active: nat, read: nat)
    requires plan.Shaped() && Setup(p, plan, c, active, read)
    ensures p.Valid() && active < plan.States() && read < plan.Symbols() && |c| == p.counterCount
    ensures forall s, y :: 0 <= s < plan.States() && 0 <= y <= plan.Symbols() ==>
      |Midway(plan, c, active, read, s, y)| == p.counterCount
  {
  }

  lemma {:induction false} RowRuns(p: Program, plan: Plan, c: seq<nat>, active: nat, read: nat, s: nat, y: nat)
    requires plan.Shaped() && Setup(p, plan, c, active, read)
    requires s < plan.States() && y <= plan.Symbols() && Start(plan, s, 0) < |p.instructions|
    ensures Reaches(p, Midway(plan, c, active, read, s, 0), Start(plan, s, 0),
      RowCost(plan, active, read, s, y), Midway(plan, c, active, read, s, y), Start(plan, s, y))
    decreases y
  {
    hide Reaches, Has, Midway, OneHot, Reading, Setup, Start, Plan.Shaped;
    SetupFacts(p, plan, c, active, read);
    if y == 0 {
      ReachesHere(p, Midway(plan, c, active, read, s, 0), Start(plan, s, 0));
    } else {
      RowRuns(p, plan, c, active, read, s, y - 1);
      BlockRuns(p, plan, c, active, read, s, y - 1);
      ReachesCompose(p, Midway(plan, c, active, read, s, 0), Start(plan, s, 0), RowCost(plan, active, read, s, y - 1),
        Midway(plan, c, active, read, s, y - 1), Start(plan, s, y - 1),
        RowCost(plan, active, read, s, y) - RowCost(plan, active, read, s, y - 1),
        Midway(plan, c, active, read, s, y), Start(plan, s, y));
    }
  }

  /** Instructions spent on the first `rows` rows of blocks. */
  function RowsCost(plan: Plan, active: nat, read: nat, rows: nat): nat
    requires plan.Shaped() && active < plan.States() && read < plan.Symbols()
  {
    if rows == 0 then 0
    else RowsCost(plan, active, read, rows - 1) + RowCost(plan, active, read, rows - 1, plan.Symbols())
  }

  lemma RowsOrigin(plan: Plan, c: seq<nat>, active: nat, read: nat)
    requires plan.Shaped() && active < plan.States() && read < plan.Symbols()
    ensures RowsCode(plan, 0) == [] && Midway(plan, c, active, read, 0, 0) == c
  {
  }

  /** Row `s` starts where the rows before it end, and leaves off where the next one starts. */
  lemma SetupRow(p: Program, plan: Plan, c: seq<nat>, active: nat, read: nat, s: nat)
    requires plan.Shaped() && Setup(p, plan, c, active, read) && active < plan.States() && read < plan.Symbols()
      && s < plan.States()
    ensures Start(plan, s, 0) == |RowsCode(plan, s)|
    ensures Start(plan, s, plan.Symbols())
      == |RowsCode(plan, s + 1)| <= |RowsCode(plan, plan.States())| < |p.instructions|
    ensures Start(plan, s, 0) < |p.instructions|
    ensures Midway(plan, c, active, read, s, plan.Symbols()) == Midway(plan, c, active, read, s + 1, 0)
  {
    hide Has, OneHot, Reading;
    HasRow(p, plan, plan.States(), s);
    RowsEnd(plan, s);
  }

  lemma {:induction false} RowsRun(p: Program, plan: Plan, c: seq<nat>, active: nat, read: nat, rows: nat)
    requires plan.Shaped() && Setup(p, plan, c, active, read)
    requires rows <= plan.States()
    ensures |RowsCode(plan, rows)| <= |RowsCode(plan, plan.States())|
    ensures Reaches(p, c, 0, RowsCost(plan, active, read, rows), Midway(plan, c, active, read, rows, 0),
      |RowsCode(plan, rows)|)
    decreases rows
  {
    hide Reaches, Has, Midway, OneHot, Reading, Setup, Start, RowsCode, RowCode, RowCost, Plan.Shaped;
    SetupFacts(p, plan, c, active, read);
    RowsOrigin(plan, c, active, read);
    if rows == 0 {
      ReachesHere(p, c, 0);
    } else {
      var s := rows - 1;
      RowsRun(p, plan, c, active, read, s);
      SetupRow(p, plan, c, active, read, s);
      RowRuns(p, plan, c, active, read, s, plan.Symbols());
      ReachesCompose(p, c, 0, RowsCost(plan, active, read, s), Midway(plan, c, active, read, s, 0), |RowsCode(plan, s)|,
        RowCost(plan, active, read, s, plan.Symbols()), Midway(plan, c, active, read, rows, 0), |RowsCode(plan, rows)|);
    }
  }

  lemma {:induction false} RowsCostClosed(plan: Plan, active: nat, read: nat, rows: nat)
    requires plan.Shaped() && active < plan.States() && read < plan.Symbols() && rows <= plan.States()
    ensures RowsCost(plan, active, read, rows)
      == rows * plan.Symbols() + (if active < rows then plan.Symbols() - 2 + plan.At(active, read).Size() else 0)
    decreases rows
  {
    if rows > 0 {
      RowsCostClosed(plan, active, read, rows - 1);
      assert rows * plan.Symbols() == (rows - 1) * plan.Symbols() + plan.Symbols();
    }
  }

  // ---------------------------------------------------------------------- one tick

  /** Instructions a tick executes, the final halt included. */
  function TickSteps(plan: Plan, active: nat, read: nat): nat
    requires plan.Shaped() && active < plan.States() && read < plan.Symbols()
  {
    plan.States() * plan.Symbols() + plan.Symbols() + 2 * plan.States() + 6 + plan.At(active, read).Size()
  }

  /** Counters after a tick: the answer raised, the inputs kept, one-hot in the next state. */
  ghost predicate Ticked(plan: Plan, c: seq<nat>, active: nat, read: nat, d: seq<nat>)
    requires plan.Shaped() && OneHot(plan, c, active) && read < plan.Symbols()
  {
    && OneHot(plan, d, plan.next[active][read])
    && (forall i :: 0 <= i < plan.working ==>
          d[i] == c[i] + (if plan.emit[active][read] == Some(i) then 1 else 0))
  }

  /** What the clear and move loops make of the fired configuration. */
  function Swapped(plan: Plan, d: seq<nat>): (e: seq<nat>)
    requires plan.Shaped() && |d| == plan.CounterCount()
  {
    var n := plan.States();
    Shifted(Zeroed(d, plan.working, n), plan.working + n, plan.working, n)
  }

  lemma SwapTicks(plan: Plan, c: seq<nat>, active: nat, read: nat)
    requires plan.Shaped() && plan.Separated() && OneHot(plan, c, active) && read < plan.Symbols()
    ensures Ticked(plan, c, active, read, Swapped(plan, Fire(plan.At(active, read), c)))
  {
  }

  lemma TailPlaced(p: Program, plan: Plan, at: nat)
    requires plan.Shaped() && Has(p, at, TailCode(plan, at)) && at + |TailCode(plan, at)| == |p.instructions|
    ensures var n, w := plan.States(), plan.working;
      && Has(p, at, ClearsCode(w, n, at))
      && Has(p, at + 3 * n, MovesCode(w + n, w, n, at + 3 * n))
      && at + 7 * n + 1 == |p.instructions|
      && p.instructions[at + 7 * n] == Halt
  {
    hide Has, ClearsCode, MovesCode, Plan.Shaped;
    var n, w := plan.States(), plan.working;
    var clears, moves := ClearsCode(w, n, at), MovesCode(w + n, w, n, at + 3 * n);
    assert TailCode(plan, at) == clears + (moves + [Halt]);
    HasPart(p, at, clears, moves + [Halt]);
    HasPart(p, at + 3 * n, moves, [Halt]);
    HasAt(p, at + 7 * n, [Halt], 0);
  }

  lemma ClearsRun(p: Program, w: nat, n: nat, at: nat, d: seq<nat>, active: nat)
    requires p.Valid() && |d| == p.counterCount && w + n <= |d|
    requires Has(p, at, ClearsCode(w, n, at)) && at + 3 * n < |p.instructions|
    requires active < n && Hot(d, w, n, active)
    ensures Reaches(p, d, at, n + 3, Zeroed(d, w, n), at + 3 * n)
  {
    ClearLoops(p, w, n, at, d);
    LoopCostOneHot(d, w, n, 3, active);
  }

  lemma MovesRun(p: Program, w: nat, n: nat, at: nat, z: seq<nat>, next: nat)
    requires p.Valid() && |z| == p.counterCount && w + 2 * n <= |z|
    requires Has(p, at, MovesCode(w + n, w, n, at)) && at + 4 * n < |p.instructions|
    requires next < n && AllZero(z, w, n) && Hot(z, w + n, n, next)
    ensures Reaches(p, z, at, n + 4, Shifted(z, w + n, w, n), at + 4 * n)
  {
    hide Program.Valid, Has, Reaches, Shifted, MovesCode;
    MoveLoops(p, w + n, w, n, at, z);
    LoopCostOneHot(z, w + n, n, 4, next);
  }

  lemma ZeroedKeepsNext(d: seq<nat>, w: nat, n: nat, next: nat)
    requires w + 2 * n <= |d| && Hot(d, w + n, n, next)
    ensures AllZero(Zeroed(d, w, n), w, n) && Hot(Zeroed(d, w, n), w + n, n, next)
  {
  }

  lemma TailRuns(p: Program, plan: Plan, at: nat, d: seq<nat>, active: nat, next: nat)
    requires p.Valid() && plan.Shaped() && p.counterCount == plan.CounterCount() == |d|
    requires Has(p, at, TailCode(plan, at)) && at + |TailCode(plan, at)| == |p.instructions|
    requires active < plan.States() && next < plan.States()
    requires Hot(d, plan.working, plan.States(), active)
    requires Hot(d, plan.working + plan.States(), plan.States(), next)
    ensures Reaches(p, d, at, 2 * plan.States() + 7, Swapped(plan, d), |p.instructions| - 1)
    ensures p.instructions[|p.instructions| - 1] == Halt
  {
    hide Reaches, Has, Shifted, Zeroed, Hot, AllZero, TailCode, ClearsCode, MovesCode, Program.Valid, Plan.Shaped;
    var n, w := plan.States(), plan.working;
    TailPlaced(p, plan, at);
    ClearsRun(p, w, n, at, d, active);
    ZeroedKeepsNext(d, w, n, next);
    var z := Zeroed(d, w, n);
    MovesRun(p, w, n, at + 3 * n, z, next);
    ReachesCompose(p, d, at, n + 3, z, at + 3 * n, n + 4, Shifted(z, w + n, w, n), at + 7 * n);
  }

  lemma ReadyToTick(p: Program, plan: Plan, c: seq<nat>, active: nat, read: nat)
    requires plan.Shaped() && plan.Separated() && p == Assembled(plan) && p.Valid()
    requires OneHot(plan, c, active) && Reading(plan, c, read) && Small(c)
    ensures Setup(p, plan, c, active, read)
    ensures p.counterCount == plan.CounterCount() == |c| && active < plan.States() && read < plan.Symbols()
    ensures var at := |RowsCode(plan, plan.States())|;
      Has(p, at, TailCode(plan, at)) && at + |TailCode(plan, at)| == |p.instructions|
    ensures active < |plan.next| && read < |plan.next[active]| && plan.next[active][read] < plan.States()
  {
    hide Has, OneHot, Reading, Small, RowsCode, Program.Valid;
    var blocks := RowsCode(plan, plan.States());
    HasAll(p);
    HasPart(p, 0, blocks, TailCode(plan, |blocks|));
    OneHotFacts(plan, c, active, read);
  }

  lemma OneHotFacts(plan: Plan, c: seq<nat>, active: nat, read: nat)
    requires plan.Shaped() && OneHot(plan, c, active) && Reading(plan, c, read)
    ensures |c| == plan.CounterCount() && active < plan.States() && read < plan.Symbols()
  {
  }

  /** The fired configuration still has its state counter, and now its next-state counter, raised. */
  lemma FiredState(plan: Plan, c: seq<nat>, active: nat, read: nat)
    requires plan.Shaped() && plan.Separated() && OneHot(plan, c, active) && read < plan.Symbols()
    ensures var fired := Fire(plan.At(active, read), c);
      && Midway(plan, c, active, read, plan.States(), 0) == fired
      && Hot(fired, plan.working, plan.States(), active)
      && Hot(fired, plan.working + plan.States(), plan.States(), plan.next[active][read])
  {
  }

  /**
   The simulation step. From a one-hot configuration reading one symbol, every
   budget of at least `TickSteps` halts after exactly that many instructions with
   the answer raised and the state advanced; every smaller budget is exhausted.
   Neither an underflow nor the counter limit can occur.
   */
  lemma TickRun(p: Program, plan: Plan, c: seq<nat>, active: nat, read: nat, budget: nat)
    requires plan.Shaped() && plan.Separated() && p == Assembled(plan) && p.Valid()
    requires OneHot(plan, c, active) && Reading(plan, c, read) && Small(c)
    ensures TickSteps(plan, active, read) <= budget ==>
      var e := Run(p, c, 0, 0, budget);
      && e.status == Halted && e.steps == TickSteps(plan, active, read)
      && Ticked(plan, c, active, read, e.counters)
    ensures budget < TickSteps(plan, active, read) ==> Run(p, c, 0, 0, budget).status == StepBudgetExhausted
  {
    hide Reaches, Has, Run, OneHot, Reading, Small, Swapped, Fire, Midway, Ticked, Hot, RowsCode, TailCode,
      Program.Valid, Plan.Shaped, Plan.Separated;
    var at := |RowsCode(plan, plan.States())|;
    ReadyToTick(p, plan, c, active, read);
    var fired := Fire(plan.At(active, read), c);
    FiredState(plan, c, active, read);
    RowsRun(p, plan, c, active, read, plan.States());
    RowsCostClosed(plan, active, read, plan.States());
    TailRuns(p, plan, at, fired, active, plan.next[active][read]);
    var n := RowsCost(plan, active, read, plan.States());
    ReachesCompose(p, c, 0, n, fired, at, 2 * plan.States() + 7, Swapped(plan, fired), |p.instructions| - 1);
    RunToHalt(p, c, 0, n + (2 * plan.States() + 7), Swapped(plan, fired), |p.instructions| - 1, 0, budget);
    SwapTicks(plan, c, active, read);
  }
}
