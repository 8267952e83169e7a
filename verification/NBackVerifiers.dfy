/**
 The n-back stream generator and scorer (environment.py, `NBackVerifier`): a batch of
 symbol rows with hidden, exactly balanced target bits, read and scored one position at a
 time. What `randint` and `randperm` return is a parameter.
 */
module NBackVerifiers {
  import opened Prelude

  const NBACK_ACTION_COUNT: nat := 2

  // ------------------------------------------------------------ counting and permuting

  function CountTrue(bits: seq<bool>): (n: nat)
    ensures n <= |bits|
  {
    if bits == [] then 0 else CountTrue(bits[..|bits| - 1]) + if bits[|bits| - 1] then 1 else 0
  }

  function Reorder(bits: seq<bool>, order: seq<nat>): (r: seq<bool>)
    requires IsPermutation(order, |bits|)
    ensures |r| == |bits|
  {
    seq(|bits|, i requires 0 <= i < |bits| => bits[order[i]])
  }

  /** The positions holding `value`. */
  function Where(bits: seq<bool>, value: bool): set<nat> {
    set i: nat | i < |bits| && bits[i] == value
  }

  lemma {:induction false} CountIsCardinality(bits: seq<bool>)
    ensures |Where(bits, true)| == CountTrue(bits)
    ensures |Where(bits, false)| == |bits| - CountTrue(bits)
    decreases |bits|
  {
    if bits == [] {
      assert Where(bits, true) == {} && Where(bits, false) == {};
    } else {
      CountIsCardinality(bits[..|bits| - 1]);
      WhereGrows(bits);
    }
  }

  lemma WhereGrows(bits: seq<bool>)
    requires bits != []
    ensures var last := |bits| - 1;
      && |Where(bits, bits[last])| == |Where(bits[..last], bits[last])| + 1
      && |Where(bits, !bits[last])| == |Where(bits[..last], !bits[last])|
  {
    var last := |bits| - 1;
    assert Where(bits, bits[last]) == Where(bits[..last], bits[last]) + {last};
    assert Where(bits, !bits[last]) == Where(bits[..last], !bits[last]);
  }

  lemma {:induction false} InjectiveImage(order: seq<nat>, n: nat, from: set<nat>, to: set<nat>)
    requires IsPermutation(order, n)
    requires forall i :: i in from ==> i < n && order[i] in to
    ensures |from| <= |to|
    decreases |from|
  {
    if from != {} {
      var i :| i in from;
      InjectiveImage(order, n, from - {i}, to - {order[i]});
    }
  }

  /** Rearranging keeps the number of true bits. */
  lemma ReorderKeepsCount(bits: seq<bool>, order: seq<nat>)
    requires IsPermutation(order, |bits|)
    ensures CountTrue(Reorder(bits, order)) == CountTrue(bits)
  {
    var moved := Reorder(bits, order);
    CountIsCardinality(bits);
    CountIsCardinality(moved);
    InjectiveImage(order, |bits|, Where(moved, true), Where(bits, true));
    InjectiveImage(order, |bits|, Where(moved, false), Where(bits, false));
  }

  /** Alternating bits starting with false. */
  function Alternating(n: nat): (bits: seq<bool>)
    ensures |bits| == n
  {
    seq(n, i requires 0 <= i < n => i % 2 == 1)
  }

  lemma {:induction false} AlternatingBalanced(n: nat)
    ensures CountTrue(Alternating(n)) == n / 2
    decreases n
  {
    if n > 0 {
      AlternatingBalanced(n - 1);
      assert Alternating(n)[..n - 1] == Alternating(n - 1);
    }
  }

  // -------------------------------------------------------------------------- episodes

  /** What one reset draws: leading symbols, target orders, offsets to a different symbol, late shuffles. */
  datatype Draws = Draws(first: seq<seq<nat>>, orders: seq<seq<nat>>, offsets: seq<seq<nat>>, shuffles: seq<seq<nat>>)

  predicate DrawsFit(draws: Draws, batch: nat, nBack: nat, eligible: nat, symbolCount: nat) {
    && |draws.first| == batch && |draws.orders| == batch && |draws.offsets| == batch && |draws.shuffles| == batch
    && (forall r :: 0 <= r < batch ==> |draws.first[r]| == nBack && InAlphabet(draws.first[r], symbolCount))
    && (forall r :: 0 <= r < batch ==>
      IsPermutation(draws.orders[r], eligible) && IsPermutation(draws.shuffles[r], eligible))
    && (forall r :: 0 <= r < batch ==> |draws.offsets[r]| == eligible)
    && (forall r, i :: 0 <= r < batch && 0 <= i < eligible && symbolCount > 1 ==>
      1 <= draws.offsets[r][i] < symbolCount)
  }

  /** Which of the scored positions of a row repeat the symbol `nBack` before them. */
  function Matches(row: seq<nat>, nBack: nat): (bits: seq<bool>)
    requires nBack <= |row|
    ensures |bits| == |row| - nBack
  {
    seq(|row| - nBack, i requires 0 <= i < |row| - nBack => row[i + nBack] == row[i])
  }

  /** The outcome of one position for one row: earned, and whether it was scored. */
  function Outcome(bits: seq<bool>, nBack: nat, cued: bool, position: nat, action: nat): (bool, bool) {
    if cued && position == 0 then (false, false)
    else
      var at := if cued then position - 1 else position;
      if at < nBack || at - nBack >= |bits| then (false, false)
      else (action == (if bits[at - nBack] then 1 else 0), true)
  }

  lemma OutcomeCases(nBack: nat, cued: bool, position: nat)
    ensures cued && position == 0 ==>
      forall bits: seq<bool>, action: nat :: Outcome(bits, nBack, cued, position, action) == (false, false)
    ensures (if cued then position - 1 else position) < nBack ==>
      forall bits: seq<bool>, action: nat :: Outcome(bits, nBack, cued, position, action) == (false, false)
  {
  }

  lemma OutcomeScored(bits: seq<bool>, nBack: nat, cued: bool, position: nat, at: nat, action: nat)
    requires (cued ==> position > 0) && at == (if cued then position - 1 else position) && nBack <= at < nBack + |bits|
    ensures Outcome(bits, nBack, cued, position, action) == (action == (if bits[at - nBack] then 1 else 0), true)
  {
  }

  /** Scored positions among the first `n`. */
  function Scored(bits: seq<bool>, nBack: nat, cued: bool, n: nat): nat {
    if n == 0 then 0 else Scored(bits, nBack, cued, n - 1) + if Outcome(bits, nBack, cued, n - 1, 0).1 then 1 else 0
  }

  /** Rewards of the first `n` positions when `actions` are played. */
  function Earned(bits: seq<bool>, nBack: nat, cued: bool, actions: nat -> nat, n: nat): nat {
    if n == 0 then 0
    else Earned(bits, nBack, cued, actions, n - 1) + if Outcome(bits, nBack, cued, n - 1, actions(n - 1)).0 then 1
      else 0
  }

  /** The position at which the `i`-th scored step of an episode falls. */
  function ScoredAt(nBack: nat, cued: bool, i: nat): nat {
    nBack + i + if cued then 1 else 0
  }

  lemma {:induction false} WarmUp(bits: seq<bool>, nBack: nat, cued: bool, actions: nat -> nat, n: nat)
    requires n <= ScoredAt(nBack, cued, 0)
    ensures Scored(bits, nBack, cued, n) == 0 && Earned(bits, nBack, cued, actions, n) == 0
    decreases n
  {
    if n > 0 {
      WarmUp(bits, nBack, cued, actions, n - 1);
    }
  }

  /** How many of the first `n` target bits the actions meet. */
  function Met(bits: seq<bool>, nBack: nat, cued: bool, actions: nat -> nat, n: nat): nat
    requires n <= |bits|
  {
    if n == 0 then 0
    else
      Met(bits, nBack, cued, actions, n - 1)
      + if actions(ScoredAt(nBack, cued, n - 1)) == (if bits[n - 1] then 1 else 0) then 1 else 0
  }

  lemma NextScored(nBack: nat, cued: bool, i: nat)
    ensures ScoredAt(nBack, cued, i + 1) == ScoredAt(nBack, cued, i) + 1
  {
  }

  lemma ScoredStep(bits: seq<bool>, nBack: nat, cued: bool, i: nat, action: nat)
    requires i < |bits|
    ensures Outcome(bits, nBack, cued, ScoredAt(nBack, cued, i), action) == (action == (if bits[i] then 1 else 0), true)
  {
  }

  /** After the warm-up every position is scored, and earns exactly when it meets its bit. */
  lemma {:induction false} EpisodeTotals(bits: seq<bool>, nBack: nat, cued: bool, actions: nat -> nat, n: nat)
    requires n <= |bits|
    ensures Scored(bits, nBack, cued, ScoredAt(nBack, cued, n)) == n
    ensures Earned(bits, nBack, cued, actions, ScoredAt(nBack, cued, n)) == Met(bits, nBack, cued, actions, n)
    decreases n
  {
    hide Outcome, ScoredAt;
    if n == 0 {
      WarmUp(bits, nBack, cued, actions, ScoredAt(nBack, cued, 0));
    } else {
      EpisodeTotals(bits, nBack, cued, actions, n - 1);
      NextScored(nBack, cued, n - 1);
      ScoredStep(bits, nBack, cued, n - 1, 0);
      ScoredStep(bits, nBack, cued, n - 1, actions(ScoredAt(nBack, cued, n - 1)));
    }
  }

  lemma {:induction false} ConstantMet(bits: seq<bool>, nBack: nat, cued: bool, actions: nat -> nat, n: nat)
    requires n <= |bits|
    ensures (forall p :: actions(p) == 1) ==> Met(bits, nBack, cued, actions, n) == CountTrue(bits[..n])
    ensures (forall p :: actions(p) == 0) ==> Met(bits, nBack, cued, actions, n) == n - CountTrue(bits[..n])
    decreases n
  {
    if n > 0 {
      ConstantMet(bits, nBack, cued, actions, n - 1);
      assert bits[..n][..n - 1] == bits[..n - 1];
    }
  }

  /**
   A full episode over balanced bits, cued or not, scores exactly its target positions;
   always pressing earns half of them rounded down, never pressing the other half.
   */
  lemma ConstantAnswerEarnsHalf(bits: seq<bool>, nBack: nat, cued: bool, actions: nat -> nat)
    requires CountTrue(bits) == |bits| / 2
    ensures var steps := nBack + |bits| + if cued then 1 else 0;
      && Scored(bits, nBack, cued, steps) == |bits|
      && ((forall p :: actions(p) == 1) ==> Earned(bits, nBack, cued, actions, steps) == |bits| / 2)
      && ((forall p :: actions(p) == 0) ==> Earned(bits, nBack, cued, actions, steps) == |bits| - |bits| / 2)
  {
    EpisodeTotals(bits, nBack, cued, actions, |bits|);
    ConstantMet(bits, nBack, cued, actions, |bits|);
    assert bits[..|bits|] == bits;
  }

  lemma {:induction false} AllMet(bits: seq<bool>, nBack: nat, cued: bool, actions: nat -> nat, n: nat)
    requires n <= |bits|
    requires forall i :: 0 <= i < n ==> actions(ScoredAt(nBack, cued, i)) == if bits[i] then 1 else 0
    ensures Met(bits, nBack, cued, actions, n) == n
    decreases n
  {
    if n > 0 {
      AllMet(bits, nBack, cued, actions, n - 1);
    }
  }

  /** Answering the n-back relation itself earns every scored step of an unshuffled row. */
  lemma RelationEarnsAll(row: seq<nat>, nBack: nat, cued: bool, actions: nat -> nat)
    requires nBack <= |row|
    requires forall i :: 0 <= i < |row| - nBack ==>
      actions(ScoredAt(nBack, cued, i)) == if row[i + nBack] == row[i] then 1 else 0
    ensures Earned(Matches(row, nBack), nBack, cued, actions, |row| + if cued then 1 else 0) == |row| - nBack
  {
    var bits := Matches(row, nBack);
    EpisodeTotals(bits, nBack, cued, actions, |bits|);
    AllMet(bits, nBack, cued, actions, |bits|);
  }

  /** A non-zero offset modulo the alphabet never gives the same symbol. */
  lemma DifferentSymbol(reference: nat, offset: nat, symbolCount: nat)
    requires reference < symbolCount && 1 <= offset < symbolCount
    ensures (reference + offset) % symbolCount != reference && (reference + offset) % symbolCount < symbolCount
  {
    if reference + offset < symbolCount {
      assert (reference + offset) % symbolCount == reference + offset;
    } else {
      assert (reference + offset) % symbolCount == reference + offset - symbolCount;
    }
  }

  // ----------------------------------------------------------------------- the verifier

  /** One row of a batch. */
  ghost function RowOf<T>(a: array2<T>, r: nat): (row: seq<T>)
    requires r < a.Length0
    reads a
    ensures |row| == a.Length1
    ensures forall i :: 0 <= i < a.Length1 ==> row[i] == a[r, i]
  {
    seq(a.Length1, i requires 0 <= i < a.Length1 reads a => a[r, i])
  }

  /** One row of target bits rearranged in place. */
  method ReorderRow(bits: array2<bool>, r: nat, order: seq<nat>)
    requires r < bits.Length0 && IsPermutation(order, bits.Length1)
    modifies bits
    ensures RowOf(bits, r) == Reorder(old(RowOf(bits, r)), order)
    ensures forall q :: 0 <= q < bits.Length0 && q != r ==> RowOf(bits, q) == old(RowOf(bits, q))
  {
    ghost var row := RowOf(bits, r);
    forall i | 0 <= i < bits.Length1 {
      bits[r, i] := bits[r, order[i]];
    }
    assert RowOf(bits, r) == Reorder(row, order);
    forall q | 0 <= q < bits.Length0 && q != r
      ensures RowOf(bits, q) == old(RowOf(bits, q))
    {
    }
  }

  /** The bits of row `r` say which positions repeat; with `shuffled` they say it in a drawn order. */
  ghost predicate Targeted(row: seq<nat>, bits: seq<bool>, nBack: nat, symbolCount: nat, shuffled: bool,
      shuffle: seq<nat>)
  {
    && nBack <= |row| && InAlphabet(row, symbolCount)
    && CountTrue(Matches(row, nBack)) == (|row| - nBack) / 2
    && CountTrue(bits) == (|row| - nBack) / 2
    && if shuffled then IsPermutation(shuffle, |row| - nBack)
      && bits == Reorder(Matches(row, nBack), shuffle) else bits == Matches(row, nBack)
  }

  /**
   The row one reset draws: the leading symbols, and then, where an odd number was drawn for a
   position, the symbol `nBack` before it again, and elsewhere the one its offset further on.
   */
  ghost predicate DrawnRow(row: seq<nat>, first: seq<nat>, order: seq<nat>, offsets: seq<nat>, nBack: nat,
      symbolCount: nat)
  {
    && |first| == nBack && |order| == |offsets| && |row| == nBack + |order| && symbolCount > 0
    && row[..nBack] == first
    && forall i :: 0 <= i < |order| ==>
      row[i + nBack] == if order[i] % 2 == 1 then row[i] else (row[i] + offsets[i]) % symbolCount
  }

  /** A position is a target where the number drawn for it, or for the place it is shuffled to, is odd. */
  ghost predicate BitsDrawn(bits: array2<bool>, draws: Draws, batch: nat, nBack: nat, eligible: nat, symbolCount: nat,
      shuffled: bool)
    requires DrawsFit(draws, batch, nBack, eligible, symbolCount)
    reads bits
  {
    && bits.Length0 == batch && bits.Length1 == eligible
    && forall r, i :: 0 <= r < batch && 0 <= i < eligible ==>
      bits[r, i] == (draws.orders[r][if shuffled then draws.shuffles[r][i] else i] % 2 == 1)
  }

  class NBackVerifier {
    const batchSize: nat
    const nBack: nat
    const symbolSteps: nat
    const symbolCount: nat
    const cueSymbol: Option<nat>
    const timeShuffle: bool
    var symbols: array2<nat>
    var targetBits: array2<bool>
    var position: nat

    /** `__init__`, once its checks have passed. */
    constructor (batchSize: nat, nBack: nat, symbolSteps: nat, symbolCount: nat, timeShuffle: bool,
        cueSymbol: Option<nat>)
      requires batchSize >= 1 && nBack >= 1 && symbolCount >= 1 && symbolSteps > nBack
      requires cueSymbol.Some? ==> cueSymbol.value >= symbolCount
      ensures Valid() && !WasReset() && position == 0
      ensures this.batchSize == batchSize && this.nBack == nBack && this.symbolSteps == symbolSteps
      ensures this.symbolCount == symbolCount && this.timeShuffle == timeShuffle && this.cueSymbol == cueSymbol
    {
      this.batchSize := batchSize;
      this.nBack := nBack;
      this.symbolSteps := symbolSteps;
      this.symbolCount := symbolCount;
      this.timeShuffle := timeShuffle;
      this.cueSymbol := cueSymbol;
      symbols := new nat[0, 0];
      targetBits := new bool[0, 0];
      position := 0;
    }

    function Steps(): nat {
      symbolSteps + if cueSymbol.Some? then 1 else 0
    }

    function EligibleTrials(): nat {
      if symbolSteps > nBack then symbolSteps - nBack else 0
    }

    predicate Shuffled() {
      timeShuffle && EligibleTrials() > 1
    }

    ghost predicate WasReset()
      reads this
    {
      symbols.Length0 > 0
    }

    ghost predicate Valid()
      reads this
    {
      && batchSize >= 1 && nBack >= 1 && symbolCount >= 1 && symbolSteps > nBack
      && (cueSymbol.Some? ==> cueSymbol.value >= symbolCount)
      && position <= Steps()
      && (symbols.Length0 == 0 || (symbols.Length0 == batchSize && symbols.Length1 == symbolSteps))
      && (symbols.Length0 > 0 ==> targetBits.Length0 == batchSize && targetBits.Length1 == EligibleTrials())
    }

    /** Every row repeats at exactly half its scored positions, rounded down, and its bits record where. */
    ghost predicate Balanced(shuffles: seq<seq<nat>>)
      requires Valid() && WasReset() && |shuffles| == batchSize
      reads this, symbols, targetBits
    {
      forall r :: 0 <= r < batchSize ==> RowTargeted(shuffles, r)
    }

    ghost predicate RowTargeted(shuffles: seq<seq<nat>>, r: nat)
      requires Valid() && WasReset() && |shuffles| == batchSize && r < batchSize
      reads this, symbols, targetBits
    {
      Targeted(RowOf(symbols, r), RowOf(targetBits, r), nBack, symbolCount, Shuffled(), shuffles[r])
    }

    /**
     `reset`: fails exactly when there is only one symbol, since no different symbol can be
     drawn; otherwise a fresh episode that is balanced whatever was drawn. Its rows and bits
     are those the drawn numbers say.
     */
    method Reset(draws: Draws) returns (r: Result<()>)
      requires Valid() && DrawsFit(draws, batchSize, nBack, EligibleTrials(), symbolCount)
      modifies this
      ensures Valid() && WasReset() && fresh(symbols) && fresh(targetBits)
      ensures r.Success? <==> symbolCount >= 2
      ensures r.Success? ==> position == 0 && Balanced(draws.shuffles)
      ensures r.Success? ==> forall q :: 0 <= q < batchSize ==>
        DrawnRow(RowOf(symbols, q), draws.first[q], draws.orders[q], draws.offsets[q], nBack, symbolCount)
      ensures BitsDrawn(targetBits, draws, batchSize, nBack, EligibleTrials(), symbolCount, r.Success? && timeShuffle)
      ensures r.Failure? ==> position == old(position)
    {
      hide DrawnRow, BitsDrawn, Targeted, Reorder, Alternating, Matches;
      var drawn := new nat[batchSize, symbolSteps];
      symbols := drawn;
      forall q, c | 0 <= q < batchSize && 0 <= c < nBack {
        drawn[q, c] := draws.first[q][c];
      }
      var eligible := EligibleTrials();
      var bits := new bool[batchSize, eligible]((q, i) => i % 2 == 1);
      targetBits := bits;
      OrderTargets(bits, draws.orders, eligible);
      OddIsTarget(bits, draws, batchSize, nBack, eligible, symbolCount);
      if symbolCount < 2 {
        return Failure("random_ expects 'from' to be less than 'to'");
      }
      FillSymbols(drawn, bits, draws.offsets, nBack, symbolCount);
      RowsDrawn(drawn, bits, draws, batchSize, nBack, eligible, symbolCount);
      RowsMatch(drawn, bits, draws, batchSize, nBack, eligible, symbolCount);
      if Shuffled() {
        ShuffleDrawn(bits, draws, batchSize, nBack, eligible, symbolCount);
      } else {
        OneOrder(bits, draws, batchSize, nBack, eligible, symbolCount);
      }
      RowsTargeted(drawn, bits, draws, batchSize, nBack, eligible, symbolCount, Shuffled());
      position := 0;
      return Success(());
    }

    /** The symbols shown now, or the exception raised. */
    method Observation() returns (r: Result<seq<nat>>)
      requires Valid()
      ensures r.Success? <==> WasReset() && position < Steps()
      ensures r.Success? ==> |r.value| == batchSize
      ensures r.Success? && cueSymbol.Some? && position == 0 ==> forall q :: 0 <= q < batchSize ==>
        r.value[q] == cueSymbol.value
      ensures r.Success? && !(cueSymbol.Some? && position == 0) ==>
        var at := if cueSymbol.Some? then position - 1 else position;
        forall q :: 0 <= q < batchSize ==> r.value[q] == symbols[q, at]
    {
      if symbols.Length0 == 0 {
        return Failure("reset must be called before observation");
      }
      if position >= Steps() {
        return Failure("the verifier has no observations remaining");
      }
      if cueSymbol.Some? && position == 0 {
        return Success(seq(batchSize, _ => cueSymbol.value));
      }
      var at := if cueSymbol.Some? then position - 1 else position;
      var shown: seq<nat> := [];
      for q := 0 to batchSize
        invariant |shown| == q && forall k :: 0 <= k < q ==> shown[k] == symbols[k, at]
      {
        shown := shown + [symbols[q, at]];
      }
      return Success(shown);
    }

    /**
     `score`: rows are judged by their own bits and the position advances by one; a wrong
     shape, an action outside the keypress vocabulary, or no episode leaves it unchanged.
     */
    method Score(action: seq<int>) returns (r: Result<seq<(bool, bool)>>)
      requires Valid()
      modifies this`position
      ensures Valid()
      ensures r.Success? <==>
        && WasReset() && old(position) < Steps()
        && |action| == batchSize && forall q :: 0 <= q < batchSize ==> 0 <= action[q] < NBACK_ACTION_COUNT
      ensures position == if r.Success? then old(position) + 1 else old(position)
      ensures r.Success? ==> |r.value| == batchSize && forall q :: 0 <= q < batchSize ==>
        r.value[q] == Outcome(RowOf(targetBits, q), nBack, cueSymbol.Some?, old(position), action[q])
    {
      hide Outcome;
      if symbols.Length0 == 0 {
        return Failure("reset must be called before score");
      }
      if position >= Steps() {
        return Failure("the verifier episode is complete");
      }
      if |action| != batchSize {
        return Failure("action must have shape [batch] and dtype int64");
      }
      if exists q :: 0 <= q < |action| && !(0 <= action[q] < NBACK_ACTION_COUNT) {
        return Failure("action is outside the keypress vocabulary");
      }
      var outcomes := ScoreRows(action);
      position := position + 1;
      return Success(outcomes);
    }

    /** The outcomes of the current position, row by row. */
    method ScoreRows(action: seq<int>) returns (outcomes: seq<(bool, bool)>)
      requires Valid() && WasReset() && position < Steps()
      requires |action| == batchSize && forall q :: 0 <= q < batchSize ==> 0 <= action[q] < NBACK_ACTION_COUNT
      ensures |outcomes| == batchSize && forall q :: 0 <= q < batchSize ==>
        outcomes[q] == Outcome(RowOf(targetBits, q), nBack, cueSymbol.Some?, position, action[q])
    {
      hide Outcome;
      OutcomeCases(nBack, cueSymbol.Some?, position);
      if cueSymbol.Some? && position == 0 {
        return seq(batchSize, _ => (false, false));
      }
      var at := if cueSymbol.Some? then position - 1 else position;
      if at < nBack {
        return seq(batchSize, _ => (false, false));
      }
      outcomes := [];
      for q := 0 to batchSize
        invariant |outcomes| == q
        invariant forall k :: 0 <= k < q ==>
          outcomes[k] == Outcome(RowOf(targetBits, k), nBack, cueSymbol.Some?, position, action[k])
      {
        var expected := if targetBits[q, at - nBack] then 1 else 0;
        OutcomeScored(RowOf(targetBits, q), nBack, cueSymbol.Some?, position, at, action[q]);
        outcomes := outcomes + [(action[q] == expected, true)];
      }
    }
  }

  /** The whole of `__init__`: its three checks, the default number of steps, and the object. */
  method NewVerifier(batchSize: int, nBack: int, steps: Option<int>, symbolCount: int, timeShuffle: bool,
      cueSymbol: Option<int>)
    returns (r: Result<NBackVerifier>)
    ensures r.Success? <==>
      && batchSize >= 1 && nBack >= 1 && symbolCount >= 1
      && (steps.Some? ==> steps.value > nBack)
      && (cueSymbol.Some? ==> cueSymbol.value >= symbolCount)
    ensures r.Success? ==>
      && fresh(r.value) && r.value.Valid() && !r.value.WasReset() && r.value.position == 0
      && r.value.batchSize == batchSize && r.value.nBack == nBack && r.value.symbolCount == symbolCount
      && r.value.EligibleTrials() == (if steps.Some? then steps.value - nBack else 4)
      && r.value.timeShuffle == timeShuffle && r.value.cueSymbol == cueSymbol
  {
    if batchSize < 1 || nBack < 1 || symbolCount < 1 {
      return Failure("batch size, n-back, and symbol count must be positive");
    }
    var resolved := if steps.Some? then steps.value else nBack + 4;
    if resolved <= nBack {
      return Failure("steps must include at least one target-bearing trial");
    }
    if cueSymbol.Some? && cueSymbol.value < symbolCount {
      return Failure("cue symbol must be outside the symbol vocabulary");
    }
    var cue: Option<nat> := if cueSymbol.Some? then Some(cueSymbol.value) else None;
    var verifier := new NBackVerifier(batchSize, nBack, resolved, symbolCount, timeShuffle, cue);
    return Success(verifier);
  }

  /**
   After a reset, whatever was drawn and shuffled or not, a full episode scores exactly the
   eligible trials of every row, and always pressing earns exactly half of them, rounded down.
   */
  lemma BalancedEpisode(v: NBackVerifier, shuffles: seq<seq<nat>>, r: nat, actions: nat -> nat)
    requires v.Valid() && v.WasReset() && |shuffles| == v.batchSize && v.Balanced(shuffles) && r < v.batchSize
    ensures var bits := RowOf(v.targetBits, r);
      && Scored(bits, v.nBack, v.cueSymbol.Some?, v.Steps()) == v.EligibleTrials()
      && ((forall p :: actions(p) == 1) ==>
        Earned(bits, v.nBack, v.cueSymbol.Some?, actions, v.Steps()) == v.EligibleTrials() / 2)
  {
    assert v.RowTargeted(shuffles, r);
    ConstantAnswerEarnsHalf(RowOf(v.targetBits, r), v.nBack, v.cueSymbol.Some?, actions);
  }

  // ------------------------------------------------------------------- steps of a reset

  /** Every row of alternating bits put in its drawn order. */
  method OrderTargets(bits: array2<bool>, orders: seq<seq<nat>>, eligible: nat)
    requires bits.Length1 == eligible && |orders| == bits.Length0
    requires forall r :: 0 <= r < bits.Length0 ==> IsPermutation(orders[r], eligible)
    requires forall r, i :: 0 <= r < bits.Length0 && 0 <= i < eligible ==> bits[r, i] == (i % 2 == 1)
    modifies bits
    ensures forall r :: 0 <= r < bits.Length0 ==> RowOf(bits, r) == Reorder(Alternating(eligible), orders[r])
  {
    hide IsPermutation, Reorder;
    forall r | 0 <= r < bits.Length0
      ensures RowOf(bits, r) == Alternating(eligible)
    {
    }
    for row: nat := 0 to bits.Length0
      invariant forall r :: 0 <= r < row ==> RowOf(bits, r) == Reorder(Alternating(eligible), orders[r])
      invariant forall r :: row <= r < bits.Length0 ==> RowOf(bits, r) == Alternating(eligible)
    {
      ReorderRow(bits, row, orders[row]);
    }
  }

  /** Every row of bits put in a further drawn order. */
  method ShuffleTargets(bits: array2<bool>, shuffles: seq<seq<nat>>)
    requires |shuffles| == bits.Length0
    requires forall r :: 0 <= r < bits.Length0 ==> IsPermutation(shuffles[r], bits.Length1)
    modifies bits
    ensures forall r :: 0 <= r < bits.Length0 ==> RowOf(bits, r) == Reorder(old(RowOf(bits, r)), shuffles[r])
  {
    hide IsPermutation, Reorder;
    for row: nat := 0 to bits.Length0
      invariant forall r :: 0 <= r < row ==> RowOf(bits, r) == Reorder(old(RowOf(bits, r)), shuffles[r])
      invariant forall r :: row <= r < bits.Length0 ==> RowOf(bits, r) == old(RowOf(bits, r))
    {
      ReorderRow(bits, row, shuffles[row]);
    }
  }

  /** Column by column: repeat the symbol `nBack` before at a target, a different one elsewhere. */
  method FillSymbols(symbols: array2<nat>, bits: array2<bool>, offsets: seq<seq<nat>>, nBack: nat, symbolCount: nat)
    requires nBack <= symbols.Length1 && bits.Length0 == symbols.Length0 == |offsets|
      && bits.Length1 == symbols.Length1 - nBack
    requires nBack >= 1 && symbolCount >= 2
    requires forall r :: 0 <= r < |offsets| ==> |offsets[r]| == bits.Length1
    requires forall r, i :: 0 <= r < |offsets| && 0 <= i < bits.Length1 ==> 1 <= offsets[r][i] < symbolCount
    requires forall r, c :: 0 <= r < symbols.Length0 && 0 <= c < nBack ==> symbols[r, c] < symbolCount
    modifies symbols
    ensures forall r, c :: 0 <= r < symbols.Length0 && 0 <= c < nBack ==> symbols[r, c] == old(symbols[r, c])
    ensures forall r, c :: 0 <= r < symbols.Length0 && 0 <= c < symbols.Length1 ==> symbols[r, c] < symbolCount
    ensures forall r, i :: 0 <= r < symbols.Length0 && 0 <= i < bits.Length1 ==>
      (symbols[r, i + nBack] == symbols[r, i] <==> bits[r, i])
    ensures forall r, i :: 0 <= r < symbols.Length0 && 0 <= i < bits.Length1 ==>
      symbols[r, i + nBack] == if bits[r, i] then symbols[r, i] else (symbols[r, i] + offsets[r][i]) % symbolCount
  {
    for position: nat := nBack to symbols.Length1
      invariant forall r, c :: 0 <= r < symbols.Length0 && 0 <= c < nBack ==> symbols[r, c] == old(symbols[r, c])
      invariant forall r, c :: 0 <= r < symbols.Length0 && 0 <= c < position ==> symbols[r, c] < symbolCount
      invariant forall r, c :: 0 <= r < symbols.Length0 && nBack <= c < position ==>
        (symbols[r, c] == symbols[r, c - nBack] <==> bits[r, c - nBack])
      invariant forall r, c :: 0 <= r < symbols.Length0 && nBack <= c < position ==>
        symbols[r, c] == if bits[r, c - nBack] then symbols[r, c - nBack]
          else (symbols[r, c - nBack] + offsets[r][c - nBack]) % symbolCount
    {
      var at := position - nBack;
      forall r | 0 <= r < symbols.Length0
        ensures symbols[r, at] < symbolCount && (symbols[r, at] + offsets[r][at]) % symbolCount != symbols[r, at]
        ensures (symbols[r, at] + offsets[r][at]) % symbolCount < symbolCount
      {
        DifferentSymbol(symbols[r, at], offsets[r][at], symbolCount);
      }
      forall r | 0 <= r < symbols.Length0 {
        symbols[r, position] := if bits[r, at] then symbols[r, at] else (symbols[r, at] + offsets[r][at]) % symbolCount;
      }
    }
  }

  /** The filled rows repeat exactly at their targets. */
  lemma RowsMatch(symbols: array2<nat>, bits: array2<bool>, draws: Draws, batch: nat, nBack: nat, eligible: nat,
      symbolCount: nat)
    requires symbols.Length0 == batch == bits.Length0 && symbols.Length1 == nBack + eligible && bits.Length1 == eligible
    requires forall r, i :: 0 <= r < batch && 0 <= i < eligible ==>
      (symbols[r, i + nBack] == symbols[r, i] <==> bits[r, i])
    ensures forall r :: 0 <= r < batch ==> RowOf(bits, r) == Matches(RowOf(symbols, r), nBack)
  {
    forall r | 0 <= r < batch
      ensures RowOf(bits, r) == Matches(RowOf(symbols, r), nBack)
    {
    }
  }

  /** Alternating bits in a drawn order: a position is a target where the number drawn for it is odd. */
  lemma OddIsTarget(bits: array2<bool>, draws: Draws, batch: nat, nBack: nat, eligible: nat, symbolCount: nat)
    requires bits.Length0 == batch && bits.Length1 == eligible
    requires DrawsFit(draws, batch, nBack, eligible, symbolCount)
    requires forall r :: 0 <= r < batch ==> RowOf(bits, r) == Reorder(Alternating(eligible), draws.orders[r])
    ensures BitsDrawn(bits, draws, batch, nBack, eligible, symbolCount, false)
  {
    forall r, i | 0 <= r < batch && 0 <= i < eligible
      ensures bits[r, i] == (draws.orders[r][i] % 2 == 1)
    {
      assert RowOf(bits, r)[i] == bits[r, i];
    }
  }

  lemma RowsDrawn(symbols: array2<nat>, bits: array2<bool>, draws: Draws, batch: nat, nBack: nat, eligible: nat,
      symbolCount: nat)
    requires symbols.Length0 == batch == bits.Length0 && symbols.Length1 == nBack + eligible && bits.Length1 == eligible
    requires DrawsFit(draws, batch, nBack, eligible, symbolCount) && symbolCount > 0
    requires forall r, c :: 0 <= r < batch && 0 <= c < nBack ==> symbols[r, c] == draws.first[r][c]
    requires BitsDrawn(bits, draws, batch, nBack, eligible, symbolCount, false)
    requires forall r, i :: 0 <= r < batch && 0 <= i < eligible ==>
      symbols[r, i + nBack] == if bits[r, i] then symbols[r, i]
        else (symbols[r, i] + draws.offsets[r][i]) % symbolCount
    ensures forall r :: 0 <= r < batch ==>
      DrawnRow(RowOf(symbols, r), draws.first[r], draws.orders[r], draws.offsets[r], nBack, symbolCount)
  {
    forall r | 0 <= r < batch
      ensures DrawnRow(RowOf(symbols, r), draws.first[r], draws.orders[r], draws.offsets[r], nBack, symbolCount)
    {
      var row := RowOf(symbols, r);
      forall i | 0 <= i < eligible
        ensures row[i + nBack]
          == if draws.orders[r][i] % 2 == 1 then row[i] else (row[i] + draws.offsets[r][i]) % symbolCount
      {
        assert bits[r, i] == (draws.orders[r][i] % 2 == 1);
      }
    }
  }

  /** The late shuffle of every row. */
  method ShuffleDrawn(bits: array2<bool>, draws: Draws, batch: nat, ghost nBack: nat, ghost eligible: nat,
      ghost symbolCount: nat)
    requires DrawsFit(draws, batch, nBack, eligible, symbolCount)
    requires BitsDrawn(bits, draws, batch, nBack, eligible, symbolCount, false)
    modifies bits
    ensures forall r :: 0 <= r < batch ==> RowOf(bits, r) == Reorder(old(RowOf(bits, r)), draws.shuffles[r])
    ensures BitsDrawn(bits, draws, batch, nBack, eligible, symbolCount, true)
  {
    hide Reorder;
    ghost var before := seq(batch, q requires 0 <= q < batch reads bits => RowOf(bits, q));
    ShuffleTargets(bits, draws.shuffles);
    ShuffledTargets(bits, before, draws, batch, nBack, eligible, symbolCount);
  }

  lemma ShuffledTargets(bits: array2<bool>, before: seq<seq<bool>>, draws: Draws, batch: nat, nBack: nat, eligible: nat,
      symbolCount: nat)
    requires bits.Length0 == batch == |before| && bits.Length1 == eligible
    requires DrawsFit(draws, batch, nBack, eligible, symbolCount)
    requires forall r :: 0 <= r < batch ==> |before[r]| == eligible
    requires forall r, i :: 0 <= r < batch && 0 <= i < eligible ==> before[r][i] == (draws.orders[r][i] % 2 == 1)
    requires forall r :: 0 <= r < batch ==> RowOf(bits, r) == Reorder(before[r], draws.shuffles[r])
    ensures BitsDrawn(bits, draws, batch, nBack, eligible, symbolCount, true)
  {
    forall r, i | 0 <= r < batch && 0 <= i < eligible
      ensures bits[r, i] == (draws.orders[r][draws.shuffles[r][i]] % 2 == 1)
    {
      assert RowOf(bits, r)[i] == bits[r, i];
      assert before[r][draws.shuffles[r][i]] == (draws.orders[r][draws.shuffles[r][i]] % 2 == 1);
    }
  }

  /** One position has one order only. */
  lemma OneOrder(bits: array2<bool>, draws: Draws, batch: nat, nBack: nat, eligible: nat, symbolCount: nat)
    requires DrawsFit(draws, batch, nBack, eligible, symbolCount)
    requires BitsDrawn(bits, draws, batch, nBack, eligible, symbolCount, false)
    ensures eligible <= 1 ==> BitsDrawn(bits, draws, batch, nBack, eligible, symbolCount, true)
  {
  }

  lemma RowsTargeted(symbols: array2<nat>, bits: array2<bool>, draws: Draws, batch: nat, nBack: nat, eligible: nat,
      symbolCount: nat, shuffled: bool)
    requires symbols.Length0 == batch == bits.Length0 && symbols.Length1 == nBack + eligible && bits.Length1 == eligible
    requires DrawsFit(draws, batch, nBack, eligible, symbolCount)
    requires forall r, c :: 0 <= r < batch && 0 <= c < symbols.Length1 ==> symbols[r, c] < symbolCount
    requires forall r :: 0 <= r < batch ==>
      Matches(RowOf(symbols, r), nBack) == Reorder(Alternating(eligible), draws.orders[r])
    requires forall r :: 0 <= r < batch ==>
      RowOf(bits, r) == if shuffled then Reorder(Matches(RowOf(symbols, r), nBack), draws.shuffles[r])
        else Matches(RowOf(symbols, r), nBack)
    ensures forall r :: 0 <= r < batch ==>
      Targeted(RowOf(symbols, r), RowOf(bits, r), nBack, symbolCount, shuffled, draws.shuffles[r])
  {
    forall r | 0 <= r < batch
      ensures Targeted(RowOf(symbols, r), RowOf(bits, r), nBack, symbolCount, shuffled, draws.shuffles[r])
    {
      AlternatingBalanced(eligible);
      ReorderKeepsCount(Alternating(eligible), draws.orders[r]);
      if shuffled {
        ReorderKeepsCount(Matches(RowOf(symbols, r), nBack), draws.shuffles[r]);
      }
    }
  }
}
