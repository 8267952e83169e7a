/**
 Keeping learned choices (choice_accumulation.py, and the record of induced_library.py):
 a machine becomes a stored program with a signature, and stored programs are recognised
 on new evidence by what they would have answered.
 */
module ChoiceAccumulation {
  import opened Prelude
  import opened RuleAutomata
  import opened ControlFlow
  import opened TickDriver
  import opened ChoicePrograms
  import opened ChoiceInduction
  import opened ChoiceAgreement
  import opened ImpliedAccuracies

  const SIGNATURE_LENGTH: nat := 256
  const SIGNATURE_SEED: nat := 0x5EED

  // -------------------------------------------------------------- the signature stream

  /** The congruential walk after `n` steps, in 64 bits. */
  function SignatureValue(n: nat): (v: nat)
    ensures n > 0 ==> v < 0x1_0000_0000_0000_0000
  {
    if n == 0 then SIGNATURE_SEED
    else (SignatureValue(n - 1) * 6364136223846793005 + 1442695040888963407) % 0x1_0000_0000_0000_0000
  }

  function SignatureStream(alphabet: nat, length: nat): (w: Word)
    requires alphabet > 0
    ensures |w| == length && InAlphabet(w, alphabet)
  {
    seq(length, i requires 0 <= i < length => SignatureValue(i + 1) / 0x2_0000_0000 % alphabet)
  }

  /** `canonical_signature_stream`. */
  method CanonicalSignatureStream(alphabet: nat, length: int) returns (r: Result<Word>)
    ensures r.Success? <==> alphabet >= 2 && length >= 1
    ensures r.Success? ==> r.value == SignatureStream(alphabet, length)
  {
    if alphabet < 2 {
      return Failure("a signature stream needs at least two symbols");
    }
    if length < 1 {
      return Failure("a signature stream needs at least one step");
    }
    var value := SIGNATURE_SEED;
    var stream: Word := [];
    for i := 0 to length
      invariant value == SignatureValue(i)
      invariant |stream| == i
      invariant forall k :: 0 <= k < i ==> stream[k] == SignatureStream(alphabet, length)[k]
    {
      value := (value * 6364136223846793005 + 1442695040888963407) % 0x1_0000_0000_0000_0000;
      stream := stream + [value / 0x2_0000_0000 % alphabet];
    }
    return Success(stream);
  }

  // ------------------------------------------------------------------------- records

  datatype Record = Record(program: Program, initialCounters: seq<nat>, alphabet: nat, signature: seq<nat>,
    actionCount: nat) {
    /** Exactly the conditions under which `validate` does not raise. */
    predicate Valid() {
      && program.Valid()
      && |initialCounters| == program.counterCount
      && alphabet >= 2
      && signature != []
      && actionCount >= 2
      && forall i :: 0 <= i < |signature| ==> signature[i] < actionCount
    }
  }

  /** `record` holds the compiled program of `m`, ready to run. */
  ghost predicate Holds(record: Record, m: RuleAutomaton) {
    && m.Valid() && m.symbolCount == record.alphabet && m.actionCount == record.actionCount
    && Compiled(m, record.alphabet, record.program, record.initialCounters)
    && TickBound(m.StateCount(), m.symbolCount) <= DEFAULT_STEP_BUDGET
  }

  /** The machine's program over this alphabet is valid, and halts on every tick of the signature stream. */
  ghost predicate HaltsCleanly(m: RuleAutomaton, alphabet: nat) {
    && m.Valid() && alphabet >= 2 && ChoicePlan(m, alphabet).Shaped() && ChoiceProgram(m, alphabet).Valid()
    && |ChoiceInitialCounters(m, alphabet)| == ChoiceProgram(m, alphabet).counterCount
    && Statuses(ChoiceProgram(m, alphabet), ChoiceInitialCounters(m, alphabet), m.actionCount, alphabet,
      DEFAULT_STEP_BUDGET,
      SignatureStream(alphabet, SIGNATURE_LENGTH)) == {Halted}
  }

  /**
   The record stores the machine's program and where it starts, and is signed by what that
   program answers.
   */
  ghost predicate Stores(record: Record, m: RuleAutomaton) {
    && m.Valid() && record.alphabet >= 2 && record.actionCount == m.actionCount
    && Compiled(m, record.alphabet, record.program, record.initialCounters)
    && Signed(record, SignatureStream(record.alphabet, SIGNATURE_LENGTH))
  }

  /**
   `record_for`. It succeeds if and only if the program over the record's alphabet halts
   cleanly on the signature stream; the record is then valid and signed by the program's
   answers. For a machine over exactly that alphabet this is so if and only if a tick fits
   the step budget, and the signature is the machine's own answer stream.
   */
  method RecordFor(m: RuleAutomaton, alphabet: nat) returns (r: Result<Record>)
    ensures r.Success? <==> HaltsCleanly(m, alphabet)
    ensures r.Success? ==> r.value.Valid() && r.value.alphabet == alphabet && Stores(r.value, m)
    ensures r.Success? ==>
      && r.value.program.Valid() && |r.value.initialCounters| == r.value.program.counterCount
      && alphabet >= 2 && m.Valid() && r.value.actionCount == m.actionCount && |r.value.signature| == SIGNATURE_LENGTH
      && forall a :: a in r.value.signature ==> a < m.actionCount
    ensures m.symbolCount == alphabet ==>
      (r.Success? <==> m.Valid() && TickBound(m.StateCount(), m.symbolCount) <= DEFAULT_STEP_BUDGET)
    ensures r.Success? && m.symbolCount == alphabet ==>
      Holds(r.value, m) && r.value.signature == Expected(m, SignatureStream(alphabet, SIGNATURE_LENGTH))
  {
    hide Program.Valid, ChoiceProgram, ChoicePlan, TickBound, Statuses, PredictedAnswer, Compiled, Record.Valid,
      SignatureStream, Expected, Holds;
    hide RuleAutomaton.Valid, Runnable, ChoiceInitialCounters, InAlphabet, Signed;
    var program := CompileChoiceRule(m, alphabet);
    if program.Failure? {
      NotCompiled(m, alphabet);
      CompilesUnder(m, alphabet);
      return Failure(program.message);
    }
    var start := ChoiceInitialCounters(m, alphabet);
    var stream := CanonicalSignatureStream(alphabet, SIGNATURE_LENGTH);
    if stream.Failure? {
      CompilesUnder(m, alphabet);
      return Failure(stream.message);
    }
    StartFits(m, alphabet, program.value);
    StreamNotEmpty(alphabet);
    var predicted := PredictChoiceSymbols(program.value, stream.value, m.actionCount, alphabet, start,
      DEFAULT_STEP_BUDGET);
    var (signature, statuses) := predicted.value;
    if m.symbolCount == alphabet {
      HaltsExactlyWithinBudget(m, alphabet, program.value, start, stream.value, DEFAULT_STEP_BUDGET);
    }
    if statuses != {Halted} {
      return Failure("compiled program did not halt cleanly");
    }
    var record := Record(program.value, start, alphabet, signature, m.actionCount);
    assert Signed(record, stream.value) by {
      SignedBy(record, stream.value);
    }
    RecordIsValid(m, record, stream.value);
    if !record.Valid() {
      return Failure("a signature step is outside the action set");
    }
    if m.symbolCount == alphabet {
      RecordHolds(m, record, stream.value);
    }
    return Success(record);
  }

  /** Without a compiled program there is nothing that could halt cleanly. */
  lemma NotCompiled(m: RuleAutomaton, alphabet: nat)
    requires !(m.Valid() && alphabet >= 1 && m.symbolCount <= alphabet + 2 * m.StateCount())
    ensures !HaltsCleanly(m, alphabet)
  {
    if HaltsCleanly(m, alphabet) {
      ChoiceProgramValid(m, alphabet);
    }
  }

  lemma StreamNotEmpty(alphabet: nat)
    requires alphabet > 0
    ensures SignatureStream(alphabet, SIGNATURE_LENGTH) != []
  {
  }

  lemma SignedBy(record: Record, stream: Word)
    requires record.program.Valid()
      && Runnable(record.program, record.initialCounters, record.actionCount, record.alphabet, DEFAULT_STEP_BUDGET)
    requires |record.signature| == |stream|
    requires forall i :: 0 <= i < |stream| ==>
      record.signature[i] == PredictedAnswer(record.program, record.initialCounters, record.actionCount,
        record.alphabet, DEFAULT_STEP_BUDGET, stream[..i + 1])
    ensures Signed(record, stream)
  {
  }

  lemma CompilesUnder(m: RuleAutomaton, alphabet: nat)
    ensures m.Valid() && m.symbolCount == alphabet ==> alphabet >= 2 && m.symbolCount <= alphabet + 2 * m.StateCount()
  {
  }

  /** Every step of the signature is what the stored program answers on that prefix. */
  predicate Signed(record: Record, stream: Word) {
    && record.program.Valid() && |record.initialCounters| == record.program.counterCount
    && record.actionCount <= record.program.counterCount
    && |record.signature| == |stream|
    && forall i :: 0 <= i < |stream| ==>
      record.signature[i] == PredictedAnswer(record.program, record.initialCounters, record.actionCount,
        record.alphabet, DEFAULT_STEP_BUDGET, stream[..i + 1])
  }

  lemma RecordIsValid(m: RuleAutomaton, record: Record, stream: Word)
    requires m.Valid() && record.actionCount == m.actionCount && record.alphabet >= 2 && stream != []
      && Signed(record, stream)
    ensures record.Valid()
    ensures record.program.Valid() && |record.initialCounters| == record.program.counterCount
    ensures |record.signature| == |stream| && forall a :: a in record.signature ==> a < record.actionCount
  {
    hide Program.Valid, TickOf, IsAnswer;
    forall i | 0 <= i < |stream|
      ensures record.signature[i] < record.actionCount
    {
      AnswerInRange(TickOf(record.program, record.initialCounters, record.actionCount, record.alphabet,
        DEFAULT_STEP_BUDGET, stream[..i + 1]).counters, record.actionCount);
    }
  }

  lemma AnswerInRange(c: seq<nat>, n: nat)
    requires 0 < n <= |c|
    ensures Answer(c, n) < n
  {
    assert IsAnswer(c, n, Answer(c, n));
  }

  lemma RecordHolds(m: RuleAutomaton, record: Record, stream: Word)
    requires m.Valid() && m.symbolCount == record.alphabet && m.actionCount == record.actionCount
    requires Compiled(m, record.alphabet, record.program, record.initialCounters)
    requires TickBound(m.StateCount(), m.symbolCount) <= DEFAULT_STEP_BUDGET
    requires InAlphabet(stream, m.symbolCount) && Signed(record, stream)
    ensures Holds(record, m) && record.signature == Expected(m, stream)
  {
    hide Compiled, PredictedAnswer, Program.Valid;
    forall i | 0 <= i < |stream|
      ensures record.signature[i] == Expected(m, stream)[i]
    {
      ChoicePrediction(m, record.alphabet, record.program, record.initialCounters, stream[..i + 1],
        DEFAULT_STEP_BUDGET);
    }
  }

  lemma StartFits(m: RuleAutomaton, alphabet: nat, program: Program)
    requires m.Valid() && ChoicePlan(m, alphabet).Shaped() && program == ChoiceProgram(m, alphabet) && program.Valid()
    ensures Compiled(m, alphabet, program, ChoiceInitialCounters(m, alphabet))
    ensures Runnable(program, ChoiceInitialCounters(m, alphabet), m.actionCount, alphabet, DEFAULT_STEP_BUDGET)
  {
    CompiledFacts(m, alphabet, ChoicePlan(m, alphabet), program, ChoiceInitialCounters(m, alphabet));
  }

  // --------------------------------------------------------------------- recognition

  /** The stored program answers this episode without an exception. */
  predicate Answerable(record: Record, t: ChoiceTrace) {
    && record.program.Valid()
    && InAlphabet(t.symbols, record.alphabet)
    && (t.symbols == [] || Runnable(record.program, record.initialCounters, record.actionCount, record.alphabet,
      DEFAULT_STEP_BUDGET))
  }

  /** What the stored program answers at step `i`. */
  function RecordAnswer(record: Record, t: ChoiceTrace, i: nat): nat
    requires Answerable(record, t) && i < |t.symbols|
  {
    PredictedAnswer(record.program, record.initialCounters, record.actionCount, record.alphabet, DEFAULT_STEP_BUDGET,
      t.symbols[..i + 1])
  }

  predicate AnswersAll(record: Record, traces: seq<ChoiceTrace>) {
    forall k :: 0 <= k < |traces| ==> Answerable(record, traces[k])
  }

  /** `answers` is what the program says on the whole episode. */
  predicate AnswersOf(record: Record, t: ChoiceTrace, answers: seq<nat>) {
    && Answerable(record, t) && |answers| == |t.symbols|
    && forall i :: 0 <= i < |answers| ==> answers[i] == RecordAnswer(record, t, i)
  }

  /** `record_answers`. */
  method RecordAnswers(record: Record, traces: seq<ChoiceTrace>) returns (r: Result<seq<seq<nat>>>)
    ensures r.Success? <==> AnswersAll(record, traces)
    ensures r.Success? ==> |r.value| == |traces| && forall k :: 0 <= k < |traces| ==>
      AnswersOf(record, traces[k], r.value[k])
  {
    hide Program.Valid, Runnable, PredictedAnswer, Statuses;
    var answered: seq<seq<nat>> := [];
    for k := 0 to |traces|
      invariant |answered| == k
      invariant forall j :: 0 <= j < k ==> AnswersOf(record, traces[j], answered[j])
    {
      var predicted := PredictChoiceSymbols(record.program, traces[k].symbols, record.actionCount, record.alphabet,
        record.initialCounters, DEFAULT_STEP_BUDGET);
      if predicted.Failure? {
        return Failure(predicted.message);
      }
      assert AnswersOf(record, traces[k], predicted.value.0);
      answered := answered + [predicted.value.0];
    }
    return Success(answered);
  }

  predicate RecordStepAgrees(t: ChoiceTrace, answers: seq<nat>, i: nat)
    requires t.Square() && |answers| == |t.symbols| && i < |t.symbols|
  {
    if t.rewards[i] != 0 then answers[i] == t.actions[i] else answers[i] != t.actions[i]
  }

  function AnswersConsistent(t: ChoiceTrace, answers: seq<nat>, n: nat): nat
    requires t.Square() && |answers| == |t.symbols| && n <= |t.symbols|
  {
    if n == 0 then 0
    else
      AnswersConsistent(t, answers, n - 1)
      + if t.eligible[n - 1] && RecordStepAgrees(t, answers, n - 1) then 1 else 0
  }

  predicate Aligned(traces: seq<ChoiceTrace>, answered: seq<seq<nat>>) {
    |answered| == |traces| && forall k :: 0 <= k < |traces| ==>
      traces[k].Square() && |answered[k]| == |traces[k].symbols|
  }

  function AllConsistent(traces: seq<ChoiceTrace>, answered: seq<seq<nat>>, k: nat): nat
    requires Aligned(traces, answered) && k <= |traces|
  {
    if k == 0 then 0
    else
      AllConsistent(traces, answered, k - 1)
      + AnswersConsistent(traces[k - 1], answered[k - 1], |traces[k - 1].symbols|)
  }

  /** The counting loop of `recognise_choice`. */
  method CountConsistent(traces: seq<ChoiceTrace>, answered: seq<seq<nat>>) returns (consistent: nat, trials: nat)
    requires Aligned(traces, answered)
    ensures consistent == AllConsistent(traces, answered, |traces|) && trials == Trials(traces, |traces|)
  {
    consistent, trials := 0, 0;
    for k := 0 to |traces|
      invariant consistent == AllConsistent(traces, answered, k) && trials == Trials(traces, k)
    {
      var t, answers := traces[k], answered[k];
      ghost var (before, scored) := (consistent, trials);
      for index := 0 to |t.eligible|
        invariant consistent == before + AnswersConsistent(t, answers, index) && trials == scored + ScoredIn(t, index)
      {
        if !t.eligible[index] {
          continue;
        }
        trials := trials + 1;
        var chose := t.actions[index];
        if t.rewards[index] != 0 {
          consistent := consistent + if answers[index] == chose then 1 else 0;
        } else {
          consistent := consistent + if answers[index] != chose then 1 else 0;
        }
      }
    }
  }

  /** The stored program of `m` answers every episode `m` can read exactly as `m` does. */
  lemma HeldAnswers(record: Record, m: RuleAutomaton, t: ChoiceTrace, answers: seq<nat>)
    requires Holds(record, m) && ReadsTrace(m, t)
    ensures Answerable(record, t)
    ensures AnswersOf(record, t, answers) ==> answers == Expected(m, t.symbols)
  {
    hide Compiled, PredictedAnswer, Program.Valid, Runnable;
    HeldProgram(record, m);
    ChoicePrediction(m, record.alphabet, record.program, record.initialCounters, [], DEFAULT_STEP_BUDGET);
    if AnswersOf(record, t, answers) {
      forall i | 0 <= i < |answers|
        ensures answers[i] == Expected(m, t.symbols)[i]
      {
        ChoicePrediction(m, record.alphabet, record.program, record.initialCounters, t.symbols[..i + 1],
          DEFAULT_STEP_BUDGET);
      }
    }
  }

  lemma HeldProgram(record: Record, m: RuleAutomaton)
    requires Holds(record, m)
    ensures record.program.Valid()
  {
  }

  lemma {:induction false} HeldTrace(m: RuleAutomaton, t: ChoiceTrace, answers: seq<nat>, n: nat)
    requires ReadsTrace(m, t) && answers == Expected(m, t.symbols) && n <= |t.symbols|
    ensures AnswersConsistent(t, answers, n) == ConsistentIn(m, t, n)
    decreases n
  {
    hide Emit, RuleAutomaton.Valid;
    if n > 0 {
      HeldTrace(m, t, answers, n - 1);
      var i := n - 1;
      assert answers[i] == Emit(m, t.symbols[..i + 1]);
    }
  }

  /** Counting through stored programs is `agreement` of the machines they were made from. */
  lemma {:induction false} HeldConsistency(record: Record, m: RuleAutomaton, traces: seq<ChoiceTrace>,
      answered: seq<seq<nat>>, k: nat)
    requires Holds(record, m) && Readable(m, traces) && Aligned(traces, answered) && k <= |traces|
    requires forall j :: 0 <= j < |traces| ==> AnswersOf(record, traces[j], answered[j])
    ensures AllConsistent(traces, answered, k) == Consistent(m, traces, k)
    decreases k
  {
    hide Holds, AnswersOf, AnswersConsistent, ConsistentIn;
    if k > 0 {
      HeldConsistency(record, m, traces, answered, k - 1);
      HeldAnswers(record, m, traces[k - 1], answered[k - 1]);
      HeldTrace(m, traces[k - 1], answered[k - 1], |traces[k - 1].symbols|);
    }
  }

  // -------------------------------------------------------------- choosing a record

  /** The implied accuracy and weight a stored program earns on the evidence. */
  ghost predicate Earns(record: Record, traces: seq<ChoiceTrace>, score: (real, int)) {
    exists answered: seq<seq<nat>> :: Scores(record, traces, answered, score)
  }

  predicate Scores(record: Record, traces: seq<ChoiceTrace>, answered: seq<seq<nat>>, score: (real, int)) {
    && Aligned(traces, answered)
    && (forall j :: 0 <= j < |traces| ==> AnswersOf(record, traces[j], answered[j]))
    && ImpliedAccuracy(AllConsistent(traces, answered, |traces|), Trials(traces, |traces|), record.actionCount)
      == Success(score)
  }

  /** Answers are determined, so a program earns one score. */
  lemma EarnsOnce(record: Record, traces: seq<ChoiceTrace>, one: (real, int), two: (real, int))
    requires Earns(record, traces, one) && Earns(record, traces, two)
    ensures one == two
  {
    hide ImpliedAccuracy, RecordAnswer, Answerable;
    var a: seq<seq<nat>> :| Scores(record, traces, a, one);
    var b: seq<seq<nat>> :| Scores(record, traces, b, two);
    forall k | 0 <= k < |traces|
      ensures a[k] == b[k]
    {
      assert AnswersOf(record, traces[k], a[k]) && AnswersOf(record, traces[k], b[k]);
    }
    assert a == b;
  }

  /** A program made from `m` earns exactly the accuracy `m`'s agreement implies. */
  lemma HeldEarns(record: Record, m: RuleAutomaton, traces: seq<ChoiceTrace>, score: (real, int))
    requires Holds(record, m) && Readable(m, traces) && Earns(record, traces, score)
    ensures forall k :: 0 <= k < |traces| ==> traces[k].Square()
    ensures ImpliedAccuracy(Consistent(m, traces, |traces|), Trials(traces, |traces|), m.actionCount) == Success(score)
  {
    hide ImpliedAccuracy, Compiled, AnswersOf, Consistent, AllConsistent;
    var answered: seq<seq<nat>> :| Scores(record, traces, answered, score);
    HeldConsistency(record, m, traces, answered, |traces|);
  }

  /** The slot is not excluded, earns `accuracy`, and passes the survivor test. */
  ghost predicate Passes(library: seq<Record>, traces: seq<ChoiceTrace>, proves: (real, int) -> bool, exclude: set<nat>,
      slot: nat, accuracy: real)
  {
    slot < |library| && slot !in exclude && exists weight: int ::
      Earns(library[slot], traces, (accuracy, weight)) && proves(accuracy, weight)
  }

  /** Among the slots below `n`, nothing passes, or `best` is the first of highest accuracy. */
  ghost predicate BestBelow(library: seq<Record>, traces: seq<ChoiceTrace>, proves: (real, int) -> bool,
      exclude: set<nat>, n: nat, best: Option<(nat, real)>)
  {
    match best
    case None => forall slot: nat, accuracy: real :: slot < n ==>
      !Passes(library, traces, proves, exclude, slot, accuracy)
    case Some(kept) =>
      && kept.0 < n && Passes(library, traces, proves, exclude, kept.0, kept.1)
      && forall slot: nat, accuracy: real :: slot < n && Passes(library, traces, proves, exclude, slot, accuracy) ==>
        accuracy <= kept.1 && (slot < kept.0 ==> accuracy < kept.1)
  }

  lemma PassesOnce(library: seq<Record>, traces: seq<ChoiceTrace>, proves: (real, int) -> bool, exclude: set<nat>,
      slot: nat, score: (real, int))
    requires slot < |library| && slot !in exclude && Earns(library[slot], traces, score)
    ensures forall accuracy: real ::
      Passes(library, traces, proves, exclude, slot, accuracy) <==> accuracy == score.0 && proves(score.0, score.1)
  {
    hide Earns;
    forall accuracy: real | Passes(library, traces, proves, exclude, slot, accuracy)
      ensures accuracy == score.0 && proves(score.0, score.1)
    {
      var weight: int :| Earns(library[slot], traces, (accuracy, weight)) && proves(accuracy, weight);
      EarnsOnce(library[slot], traces, (accuracy, weight), score);
    }
    if proves(score.0, score.1) {
      var (accuracy, weight) := score;
      assert Earns(library[slot], traces, (accuracy, weight)) && proves(accuracy, weight);
      assert Passes(library, traces, proves, exclude, slot, accuracy);
    }
  }

  /** The next slot either fails the test or passes with exactly its own accuracy. */
  lemma BestNext(library: seq<Record>, traces: seq<ChoiceTrace>, proves: (real, int) -> bool, exclude: set<nat>, n: nat,
      best: Option<(nat, real)>, score: (real, int))
    requires n < |library| && n !in exclude && Earns(library[n], traces, score)
    requires BestBelow(library, traces, proves, exclude, n, best)
    ensures !proves(score.0, score.1) ==> BestBelow(library, traces, proves, exclude, n + 1, best)
    ensures proves(score.0, score.1) && (best == None || score.0 > best.value.1) ==>
      BestBelow(library, traces, proves, exclude, n + 1, Some((n, score.0)))
    ensures proves(score.0, score.1) && best.Some? && score.0 <= best.value.1 ==>
      BestBelow(library, traces, proves, exclude, n + 1, best)
  {
    hide Passes;
    PassesOnce(library, traces, proves, exclude, n, score);
  }

  lemma BestSkip(library: seq<Record>, traces: seq<ChoiceTrace>, proves: (real, int) -> bool, exclude: set<nat>, n: nat,
      best: Option<(nat, real)>)
    requires n in exclude && BestBelow(library, traces, proves, exclude, n, best)
    ensures BestBelow(library, traces, proves, exclude, n + 1, best)
  {
  }

  /**
   `recognise_choice`: the first slot of highest implied accuracy among those that pass the
   survivor test; it fails exactly when some slot it consults cannot read the evidence.
   */
  method RecogniseChoice(library: seq<Record>, traces: seq<ChoiceTrace>, proves: (real, int) -> bool, exclude: set<nat>)
    returns (r: Result<Option<(nat, real)>>)
    requires forall slot :: 0 <= slot < |library| ==> library[slot].Valid()
    requires forall k :: 0 <= k < |traces| ==> traces[k].Square()
    ensures r.Success?
      <==> forall slot: nat :: slot < |library| && slot !in exclude ==> AnswersAll(library[slot], traces)
    ensures r.Success? ==> BestBelow(library, traces, proves, exclude, |library|, r.value)
  {
    hide BestBelow, AnswersAll, AnswersOf, ImpliedAccuracy, Earns, Trials, AllConsistent, Program.Valid;
    var best: Option<(nat, real)> := None;
    NothingBelow(library, traces, proves, exclude);
    for slot: nat := 0 to |library|
      invariant BestBelow(library, traces, proves, exclude, slot, best)
      invariant forall s: nat :: s < slot && s !in exclude ==> AnswersAll(library[s], traces)
    {
      if slot in exclude {
        BestSkip(library, traces, proves, exclude, slot, best);
        continue;
      }
      var record := library[slot];
      var answered := RecordAnswers(record, traces);
      if answered.Failure? {
        return Failure(answered.message);
      }
      AnswersAlign(record, traces, answered.value);
      var consistent, trials := CountConsistent(traces, answered.value);
      var implied := ImpliedAccuracy(consistent, trials, record.actionCount);
      var score := implied.value;
      ScoreEarned(record, traces, answered.value, score);
      BestNext(library, traces, proves, exclude, slot, best, score);
      if proves(score.0, score.1) && (best == None || score.0 > best.value.1) {
        best := Some((slot, score.0));
      }
    }
    return Success(best);
  }

  lemma NothingBelow(library: seq<Record>, traces: seq<ChoiceTrace>, proves: (real, int) -> bool, exclude: set<nat>)
    ensures BestBelow(library, traces, proves, exclude, 0, None)
  {
  }

  lemma AnswersAlign(record: Record, traces: seq<ChoiceTrace>, answered: seq<seq<nat>>)
    requires |answered| == |traces| && forall k :: 0 <= k < |traces| ==>
      traces[k].Square() && AnswersOf(record, traces[k], answered[k])
    ensures Aligned(traces, answered)
  {
  }

  lemma ScoreEarned(record: Record, traces: seq<ChoiceTrace>, answered: seq<seq<nat>>, score: (real, int))
    requires Scores(record, traces, answered, score)
    ensures Earns(record, traces, score)
  {
  }
}
