/**
 From consistency to accuracy (choice_induction.py, `implied_accuracy`), over exact
 rationals, and the probe under which the conversion is exact: every action chosen once
 at every scored step.
 */
module ImpliedAccuracies {
  import opened Prelude
  import opened RuleAutomata
  import opened ChoiceInduction
  import opened ChoiceAgreement

  /** `implied_accuracy`: no trials first, then the action check, then the clipped inverse and its weight. */
  function ImpliedAccuracy(consistent: int, trials: int, actionCount: int): (r: Result<(real, int)>)
    ensures r.Failure? <==> trials > 0 && actionCount < 2
    ensures r.Success? ==> 0.0 <= r.value.0 <= 1.0
    ensures trials <= 0 ==> r == Success((0.0, 0))
    ensures r.Success? && trials > 0 ==> r.value.1 >= 1
  {
    if trials <= 0 then Success((0.0, 0))
    else if actionCount < 2 then Failure("an implied accuracy needs at least two actions")
    else
      var rate := consistent as real / trials as real;
      var accuracy := (rate * actionCount as real - (actionCount - 2) as real) / 2.0;
      var inflation := (actionCount as real / 2.0) * (actionCount as real / 2.0);
      Success((Clip(accuracy), Max(1, (trials as real / inflation).Floor)))
  }

  function Clip(x: real): real {
    if x < 0.0 then 0.0 else if x > 1.0 then 1.0 else x
  }

  /** At two actions it is the consistency rate itself, at full weight. */
  lemma TwoActionsIsIdentity(consistent: nat, trials: nat)
    requires 0 < trials && consistent <= trials
    ensures ImpliedAccuracy(consistent, trials, 2) == Success((consistent as real / trials as real, trials as int))
  {
    RateIsFraction(consistent, trials);
    assert (2 as real / 2.0) * (2 as real / 2.0) == 1.0;
    assert trials as real / 1.0 == trials as real;
  }

  lemma RateIsFraction(h: nat, n: nat)
    requires h <= n && n > 0
    ensures 0.0 <= h as real / n as real <= 1.0
  {
    assert h as real / n as real * n as real == h as real;
  }

  /** More consistent outcomes never lower the implied accuracy. */
  lemma ImpliedAccuracyMonotone(less: int, more: int, trials: int, actionCount: int)
    requires less <= more && trials > 0 && actionCount >= 2
    ensures ImpliedAccuracy(less, trials, actionCount).value.0 <= ImpliedAccuracy(more, trials, actionCount).value.0
  {
    var n, k := trials as real, actionCount as real;
    var a, b := less as real / n, more as real / n;
    DivideOrdered(less as real, more as real, n);
    ScaleOrdered(a, b, k);
  }

  lemma DivideOrdered(x: real, y: real, n: real)
    requires x <= y && n > 0.0
    ensures x / n <= y / n
  {
  }

  lemma ScaleOrdered(x: real, y: real, k: real)
    requires x <= y && k > 0.0
    ensures x * k <= y * k
  {
  }

  /** The weight is the largest whole number `w` with `w * k * k <= 4 * trials`, but at least one. */
  lemma WeightIsScaledTrials(consistent: int, trials: int, actionCount: int)
    requires trials > 0 && actionCount >= 2
    ensures ImpliedAccuracy(consistent, trials, actionCount).value.1 == Max(1, 4 * trials / (actionCount * actionCount))
  {
    var square := actionCount * actionCount;
    SquareAtLeastFour(actionCount);
    SquareOfHalf(actionCount);
    QuarterDivision(trials as real, square as real);
    FloorOfQuotient(4 * trials, square);
  }

  lemma SquareOfHalf(k: int)
    ensures (k as real / 2.0) * (k as real / 2.0) == (k * k) as real / 4.0
  {
    assert (k * k) as real == k as real * k as real;
  }

  lemma SquareAtLeastFour(k: int)
    requires k >= 2
    ensures k * k >= 4
  {
  }

  lemma QuarterDivision(n: real, q: real)
    requires q > 0.0
    ensures n / (q / 4.0) == (4.0 * n) / q
  {
    var x := n / (q / 4.0);
    assert x * (q / 4.0) == n;
    assert x * q == 4.0 * n;
  }

  lemma QuotientBetween(x: real, b: real, lo: real, bottom: real, middle: real, top: real)
    requires b > 0.0 && bottom == lo * b && middle == x * b && top == (lo + 1.0) * b && bottom <= middle < top
    ensures lo <= x < lo + 1.0
  {
    if x < lo {
      PositiveProduct(lo - x, b);
    }
    if x >= lo + 1.0 {
      ScaleOrdered(lo + 1.0, x, b);
    }
  }

  lemma PositiveProduct(x: real, y: real)
    requires x > 0.0 && y > 0.0
    ensures x * y > 0.0
  {
  }

  lemma CastProduct(x: int, y: int)
    ensures (x * y) as real == x as real * y as real
  {
  }

  lemma QuotientBounds(a: nat, b: nat)
    requires b > 0
    ensures a / b * b <= a < (a / b + 1) * b
  {
  }

  lemma QuotientTimes(a: real, b: real)
    requires b > 0.0
    ensures a / b * b == a
  {
  }

  lemma FloorFromBounds(a: int, b: int, q: int, x: real)
    requires b > 0 && q * b <= a < (q + 1) * b && x * b as real == a as real
    ensures x.Floor == q
  {
    var low, high := q * b, (q + 1) * b;
    assert low as real <= a as real < high as real;
    CastProduct(q, b);
    CastProduct(q + 1, b);
    QuotientBetween(x, b as real, q as real, low as real, a as real, high as real);
  }

  lemma FloorOfQuotient(a: nat, b: nat)
    requires b > 0
    ensures (a as real / b as real).Floor == a / b
  {
    QuotientBounds(a, b);
    QuotientTimes(a as real, b as real);
    FloorFromBounds(a, b, a / b, a as real / b as real);
  }

  /** Consistent outcomes earned by right and wrong answers when `k` actions are each tried once. */
  function Tally(k: nat, right: nat, wrong: nat): int {
    k * right + (k - 2) * wrong
  }

  lemma TallyGrows(k: nat, right: nat, wrong: nat)
    ensures Tally(k, 0, 0) == 0
    ensures Tally(k, right + 1, wrong) == Tally(k, right, wrong) + k
    ensures Tally(k, right, wrong + 1) == Tally(k, right, wrong) + k - 2
  {
  }

  lemma TallySplit(h: nat, n: nat, k: nat)
    requires h <= n && n > 0 && k >= 2
    ensures Tally(k, h, n - h) == 2 * h + (k - 2) * n && k * n > 0
  {
    assert (k - 2) * (n - h) == (k - 2) * n - (k - 2) * h;
    assert k * h - (k - 2) * h == 2 * h;
  }

  /** `h` right answers out of `n`, each action tried once at each step, are recovered exactly. */
  lemma ImpliedAccuracyInverts(h: nat, n: nat, k: nat)
    requires h <= n && n > 0 && k >= 2
    ensures ImpliedAccuracy(Tally(k, h, n - h), k * n, k).Success?
    ensures ImpliedAccuracy(Tally(k, h, n - h), k * n, k).value.0 == h as real / n as real
  {
    var consistent, trials := Tally(k, h, n - h), k * n;
    hide Tally;
    TallySplit(h, n, k);
    var rate := consistent as real / trials as real;
    RateTimesActions(consistent, n, k);
    assert rate * k as real == consistent as real / n as real;
    SplitQuotient(h, n, k);
    RateIsFraction(h, n);
  }

  lemma RateTimesActions(c: int, n: nat, k: nat)
    requires n > 0 && k > 0
    ensures k * n > 0
    ensures c as real / (k * n) as real * k as real == c as real / n as real
  {
    assert k * n > 0;
    var x := c as real / (k * n) as real;
    assert x * (k * n) as real == c as real;
    assert (k * n) as real == k as real * n as real;
    assert (x * k as real) * n as real == c as real;
  }

  lemma SplitQuotient(h: nat, n: nat, k: nat)
    requires n > 0 && k >= 2
    ensures (2 * h + (k - 2) * n) as real / n as real == 2.0 * (h as real / n as real) + (k - 2) as real
  {
    var m := n as real;
    assert ((k - 2) * n) as real == (k - 2) as real * m;
    assert (2.0 * (h as real / m) + (k - 2) as real) * m == 2.0 * h as real + (k - 2) as real * m;
  }

  // --------------------------------------------------------------- the exhaustive probe

  /** How many of the first `j` episodes chose `a` at step `i`. */
  function Tried(traces: seq<ChoiceTrace>, i: nat, a: nat, j: nat): nat
    requires j <= |traces| && forall x :: 0 <= x < |traces| ==> i < |traces[x].actions|
  {
    if j == 0 then 0 else Tried(traces, i, a, j - 1) + if traces[j - 1].actions[i] == a then 1 else 0
  }

  /** Same stream, same scored steps, rewards given by `truth`. */
  predicate Parallel(m: RuleAutomaton, truth: RuleAutomaton, traces: seq<ChoiceTrace>, stream: ChoiceTrace) {
    && Readable(m, traces) && ReadsTrace(m, stream) && ReadsTrace(truth, stream)
    && forall j :: 0 <= j < |traces| ==>
      traces[j].symbols == stream.symbols && traces[j].eligible == stream.eligible && Generated(truth, traces[j])
  }

  /** Every one of the `k` actions is chosen by exactly one episode at every scored step. */
  ghost predicate Exhaustive(traces: seq<ChoiceTrace>, stream: ChoiceTrace, k: nat) {
    && |traces| == k && stream.Square()
    && (forall j :: 0 <= j < |traces| ==> |traces[j].actions| == |stream.symbols|)
    && forall i, a :: 0 <= i < |stream.symbols| && stream.eligible[i] && 0 <= a < k ==> Tried(traces, i, a, k) == 1
  }

  function RightIn(m: RuleAutomaton, truth: RuleAutomaton, t: ChoiceTrace, n: nat): (h: nat)
    requires ReadsTrace(m, t) && ReadsTrace(truth, t) && n <= |t.symbols|
    ensures h <= ScoredIn(t, n)
  {
    if n == 0 then 0
    else
      RightIn(m, truth, t, n - 1)
      + if t.eligible[n - 1] && Emit(m, t.symbols[..n]) == Emit(truth, t.symbols[..n]) then 1 else 0
  }

  /** Consistent outcomes of the first `j` episodes within the first `n` steps. */
  function Block(m: RuleAutomaton, traces: seq<ChoiceTrace>, j: nat, n: nat): nat
    requires Readable(m, traces) && j <= |traces| && forall x :: 0 <= x < |traces| ==> n <= |traces[x].symbols|
  {
    if j == 0 then 0 else Block(m, traces, j - 1, n) + ConsistentIn(m, traces[j - 1], n)
  }

  /** Consistent outcomes of the first `j` episodes at step `i`. */
  function Column(m: RuleAutomaton, traces: seq<ChoiceTrace>, j: nat, i: nat): nat
    requires Readable(m, traces) && j <= |traces| && forall x :: 0 <= x < |traces| ==> i < |traces[x].symbols|
  {
    if j == 0 then 0
    else Column(m, traces, j - 1, i) + if traces[j - 1].eligible[i] && StepAgrees(m, traces[j - 1], i) then 1 else 0
  }

  lemma {:induction false} BlockAddsColumn(m: RuleAutomaton, traces: seq<ChoiceTrace>, j: nat, n: nat)
    requires Readable(m, traces) && j <= |traces| && n > 0
    requires forall x :: 0 <= x < |traces| ==> n <= |traces[x].symbols|
    ensures Block(m, traces, j, n) == Block(m, traces, j, n - 1) + Column(m, traces, j, n - 1)
    decreases j
  {
    hide StepAgrees;
    if j > 0 {
      BlockAddsColumn(m, traces, j - 1, n);
    }
  }

  lemma {:induction false} BlockIsConsistent(m: RuleAutomaton, traces: seq<ChoiceTrace>, j: nat, n: nat)
    requires Readable(m, traces) && j <= |traces| && forall x :: 0 <= x < |traces| ==> n == |traces[x].symbols|
    ensures Block(m, traces, j, n) == Consistent(m, traces, j)
    ensures forall x :: 0 <= x < |traces| ==> traces[x].Square()
    decreases j
  {
    if j > 0 {
      BlockIsConsistent(m, traces, j - 1, n);
    }
  }

  /** A right answer agrees with every choice; a wrong one misses two: the truth and itself. */
  lemma {:induction false} ColumnCount(m: RuleAutomaton, truth: RuleAutomaton, traces: seq<ChoiceTrace>,
      stream: ChoiceTrace, j: nat, i: nat)
    requires Parallel(m, truth, traces, stream) && j <= |traces| && i < |stream.symbols| && stream.eligible[i]
    ensures forall x :: 0 <= x < |traces| ==> i < |traces[x].symbols| && i < |traces[x].actions|
    ensures var p, t := Emit(m, stream.symbols[..i + 1]), Emit(truth, stream.symbols[..i + 1]);
      Column(m, traces, j, i) == if p == t then j else j - Tried(traces, i, t, j) - Tried(traces, i, p, j)
    decreases j
  {
    if j > 0 {
      ColumnCount(m, truth, traces, stream, j - 1, i);
      assert Generated(truth, traces[j - 1]) && traces[j - 1].eligible[i];
    }
  }

  lemma {:induction false} ColumnUnscored(m: RuleAutomaton, truth: RuleAutomaton, traces: seq<ChoiceTrace>,
      stream: ChoiceTrace, j: nat, i: nat)
    requires Parallel(m, truth, traces, stream) && j <= |traces| && i < |stream.symbols| && !stream.eligible[i]
    ensures forall x :: 0 <= x < |traces| ==> i < |traces[x].symbols|
    ensures Column(m, traces, j, i) == 0
    decreases j
  {
    if j > 0 {
      ColumnUnscored(m, truth, traces, stream, j - 1, i);
      assert traces[j - 1].eligible == stream.eligible;
    }
  }

  /** `k` consistent outcomes for each right answer and `k - 2` for each wrong one. */
  lemma {:induction false} BlockCount(m: RuleAutomaton, truth: RuleAutomaton, traces: seq<ChoiceTrace>,
      stream: ChoiceTrace, k: nat, n: nat)
    requires Parallel(m, truth, traces, stream) && Exhaustive(traces, stream, k)
    requires m.actionCount == k && truth.actionCount == k && n <= |stream.symbols|
    ensures forall x :: 0 <= x < |traces| ==> n <= |traces[x].symbols|
    ensures Block(m, traces, k, n)
      == Tally(k, RightIn(m, truth, stream, n), ScoredIn(stream, n) - RightIn(m, truth, stream, n))
    decreases n
  {
    hide Tally, Block, Column, Parallel, Emit;
    ParallelSizes(m, truth, traces, stream);
    if n == 0 {
      TallyGrows(k, 0, 0);
      BlockEmpty(m, traces, k);
    } else {
      BlockCount(m, truth, traces, stream, k, n - 1);
      BlockAddsColumn(m, traces, k, n);
      TallyGrows(k, RightIn(m, truth, stream, n - 1), ScoredIn(stream, n - 1) - RightIn(m, truth, stream, n - 1));
      if stream.eligible[n - 1] {
        ColumnCount(m, truth, traces, stream, k, n - 1);
      } else {
        ColumnUnscored(m, truth, traces, stream, k, n - 1);
      }
    }
  }

  lemma ParallelSizes(m: RuleAutomaton, truth: RuleAutomaton, traces: seq<ChoiceTrace>, stream: ChoiceTrace)
    requires Parallel(m, truth, traces, stream)
    ensures Readable(m, traces) && ReadsTrace(m, stream) && ReadsTrace(truth, stream)
    ensures |stream.eligible| == |stream.symbols|
    ensures forall x :: 0 <= x < |traces| ==> |traces[x].symbols| == |traces[x].actions| == |stream.symbols|
  {
  }

  lemma ExhaustiveSize(m: RuleAutomaton, traces: seq<ChoiceTrace>, stream: ChoiceTrace, k: nat)
    requires Readable(m, traces) && Exhaustive(traces, stream, k) && m.actionCount == k
    ensures |traces| == k >= 2
  {
  }

  lemma {:induction false} BlockEmpty(m: RuleAutomaton, traces: seq<ChoiceTrace>, j: nat)
    requires Readable(m, traces) && j <= |traces|
    ensures Block(m, traces, j, 0) == 0
    decreases j
  {
    if j > 0 {
      BlockEmpty(m, traces, j - 1);
    }
  }

  lemma {:induction false} TrialsOfParallel(m: RuleAutomaton, truth: RuleAutomaton, traces: seq<ChoiceTrace>,
      stream: ChoiceTrace, j: nat)
    requires Parallel(m, truth, traces, stream) && j <= |traces|
    ensures forall x :: 0 <= x < |traces| ==> traces[x].Square()
    ensures Trials(traces, j) == j * ScoredIn(stream, |stream.symbols|)
    decreases j
  {
    hide Generated, Emit, ScoredIn, RuleAutomaton.Valid;
    if j > 0 {
      TrialsOfParallel(m, truth, traces, stream, j - 1);
      SameScored(traces[j - 1], stream, |stream.symbols|);
    }
  }

  lemma {:induction false} SameScored(t: ChoiceTrace, u: ChoiceTrace, n: nat)
    requires t.eligible == u.eligible && n <= |t.eligible|
    ensures ScoredIn(t, n) == ScoredIn(u, n)
    decreases n
  {
    if n > 0 {
      SameScored(t, u, n - 1);
    }
  }

  /**
   Probing every action once at every scored step, the accuracy implied by `agreement` is
   exactly the fraction of scored steps the machine answers as the truth does.
   */
  lemma ExhaustiveProbeIsExact(m: RuleAutomaton, truth: RuleAutomaton, traces: seq<ChoiceTrace>, stream: ChoiceTrace,
      k: nat)
    requires Parallel(m, truth, traces, stream) && Exhaustive(traces, stream, k)
    requires m.actionCount == k && truth.actionCount == k && ScoredIn(stream, |stream.symbols|) > 0
    ensures forall x :: 0 <= x < |traces| ==> traces[x].Square()
    ensures var r := ImpliedAccuracy(Consistent(m, traces, k), Trials(traces, k), k);
      r.Success? && r.value.0 == RightIn(m, truth, stream, |stream.symbols|) as real / ScoredIn(stream,
        |stream.symbols|) as real
  {
    hide ImpliedAccuracy, Consistent, Trials, RightIn, ScoredIn, Block, Tally, Parallel, Exhaustive, Readable,
      ReadsTrace;
    hide ChoiceTrace.Square, ChoiceTrace.Valid, RuleAutomaton.Valid;
    var n := |stream.symbols|;
    ParallelSizes(m, truth, traces, stream);
    ExhaustiveSize(m, traces, stream, k);
    BlockCount(m, truth, traces, stream, k, n);
    BlockIsConsistent(m, traces, k, n);
    TrialsOfParallel(m, truth, traces, stream, k);
    ImpliedAccuracyInverts(RightIn(m, truth, stream, n), ScoredIn(stream, n), k);
  }
}
