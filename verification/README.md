# Finite-machine synthesis, verified

A Dafny model of the discrete core of the canonical brain-workshop experiments
(`experiments/brainworkshop_canonical`) with the two `src/neural_computer` components it
stands on: Mealy machines over symbol streams, the counter programs they compile to, and
the learners that recover them from evidence. All parts share one semantics, a machine
read as a function from prefixes to answers, so the theorems chain: a learned machine can
be minimized, compiled, stored, recognised and combined, and each step is proved to keep
what the machine answers.

`dafny verify dfyconfig.toml` checks the project.

## Layout

- `Prelude`, `RuleAutomata`, `Minimization`, `CanonicalForm`: the machines, their smallest
  and canonical forms.
- `ControlFlow`, `CounterAssembly`, `TickSimulation`, `TickDriver`: the counter-program
  interpreter, the emit-and-patch assembler, one tick of a compiled program on its
  instructions, and whole streams of ticks. `ChoicePrograms` and `CounterStatePrograms`
  are the two compilers.
- `Traces`, `EvidenceTree`, `StateMerging`, `EvidencePartition`, `EvidenceMerging`:
  evidence-driven state merging, with the mutable union-find as a class.
- `CounterMachines`, `CounterSearch`, `CounterPreference`, `AdversarialProbes`: one-counter
  machines, their backtracking search over shared tables that are undone on failure, what
  its order prefers, and what separates counter machines from Mealy machines.
- `CompositionalRules`, `OutputTables`, `CompositionLibrary`, `CompositionalRecognition`,
  `CompositionSearch`: products, fitted output tables, and scoring by cached vectors.
- `ChoiceInduction`, `ChoiceClimbing`, `ChoiceAgreement`, `ChoiceRestarts`,
  `ChoiceSelection`, `ImpliedAccuracies`, `ChoiceAccumulation`: learning when only the chosen action and its
  outcome are seen.
- `BehaviourSignatures`, `NBackVerifiers`: collapsing equal behaviours, and the n-back
  stream generator and scorer.

## Reading the model

A raised exception is a `Failure`, `None` is `None`. Symbols, states, actions and labels
are natural numbers, as every caller produces them. Accuracies and rates are exact
rationals (`real`). A member of the code that loops or mutates is a method with loops or a
class with fields; the function it is proved against is named in its contract. Random
draws, the survivor test of a search, the length of a description and the presses of a
proposal on the recorded stream are parameters, and results hold for all of them. Ghost
results of a method (a tree's words, a final partition) are witnesses its contract speaks
about.

Where the code and its documentation differ, the code is followed:

- `_fits` is documented as reproducing every labelled step; an episode without a scored
  step makes it false (`CompositionLibrary.FitsIffReproduces`).
- The counter search is documented to prefer a hypothesis that ignores the counter. Sizes
  are tried in order, and targets before later moves, so it may return one that moves the
  counter (`CounterPreference.SizeBeatsPreference`, `OrderBeatsPreference`). Exactly when it
  does not is `CounterPreference.PreferenceOnEvidence`.
- `induce_counter_machine` is documented as returning the smallest consistent machine, or
  none. A size whose search runs over the node budget is passed over; what is returned is
  the least size whose search does not (`CounterSearch.InduceCounterMachine`,
  `BudgetNeeded`).
- `induce_from_choices` is documented as the smallest machine that contradicts the fewest
  outcomes; it is the first with the shortest description (`ChoiceSelection.ShorterBeatsFewer`).
  Exactly when the two are the same is `ChoiceSelection.DocumentedExactly` by the sizes
  tried and `ChoiceSelection.SmallestExactly` by the states of the minimized machines.
- The relabelling, the product and the merged machine are rebuilt with the default two
  actions, whatever the action count of the machine they come from.
- The binary compiler presses on every non-zero action, and both compilers accept symbols
  whose input counter falls among the working counters; the prediction theorems ask for an
  alphabet within the channels.
- With every record excluded, a composition search corrected for multiplicity divides its
  level by zero and raises.
- A reset of the n-back verifier with a single symbol fails after the symbols were
  replaced and leaves the position where it was.

## Model

| member | source | states |
|---|---|---|
| RuleAutomata.ComputeExpected | experiments/brainworkshop_canonical/rule_automata.py:78-90 | The one-pass answer stream, and exactly when the two exceptions are raised: at every position the answer is a function of the prefix read so far. |
| RuleAutomata.InvalidExactly | experiments/brainworkshop_canonical/rule_automata.py:60-76 | Validation fails exactly on too few symbols or actions, no or ragged rows, a target that is no state or an answer that is no action. |
| RuleAutomata.ReachAppend | experiments/brainworkshop_canonical/rule_automata.py:78-90 | Reading two words one after the other is reading their concatenation. |
| RuleAutomata.EmitAppend | experiments/brainworkshop_canonical/rule_automata.py:78-90 | The last answer after a concatenation is the second word's last answer from the state the first one left. |
| Minimization.ReachableStates | experiments/brainworkshop_canonical/rule_automata.py:114-124 | The worklist search lists, in order and once each, exactly the states some word reaches. |
| Minimization.RanksOrder | experiments/brainworkshop_canonical/rule_automata.py:127-183 | Renumbering by rank keeps equality and order of the refinement keys. |
| Minimization.RefineKeeps | experiments/brainworkshop_canonical/rule_automata.py:127-183 | One refinement round keeps both halves of the invariant: equal labels answer alike, and only distinguishable states are ever split. |
| Minimization.UnsplitIsUnchanged | experiments/brainworkshop_canonical/rule_automata.py:127-183 | A round that splits no class renumbers none, so the test for an unchanged partition is reached. |
| Minimization.CoarsestPartition | experiments/brainworkshop_canonical/rule_automata.py:127-183 | The refinement loop ends, its classes answer alike, move alike, and separate only states some word tells apart, and its labels ascend in the order of the states' behaviour. |
| Minimization.SortedDeeper | experiments/brainworkshop_canonical/rule_automata.py:143-152 | One refinement sorts the labels by behaviour one step deeper: states still level are ordered by where the first symbol leads that takes them apart. |
| Minimization.Minimize | experiments/brainworkshop_canonical/rule_automata.py:127-183 | Raises exactly on an invalid machine; otherwise same answers on every stream, every state reachable, every two states told apart by some word, and after the start state the states numbered in the order of their behaviour. |
| Minimization.SameLanding | experiments/brainworkshop_canonical/rule_automata.py:127-183 | Prefixes that one of two equivalent machines sends to one state are indistinguishable in the other. |
| Minimization.ReducedIsSmallest | experiments/brainworkshop_canonical/rule_automata.py:127-183 | No machine with the same behaviour has fewer states than a minimized one. |
| CanonicalForm.BreadthFirstOrder | experiments/brainworkshop_canonical/rule_automata.py:186-200 | The relabelling loop lists every reachable state once, each at the first cell that leads to it. |
| CanonicalForm.Canonicalize | experiments/brainworkshop_canonical/rule_automata.py:186-211 | Raises exactly on an invalid machine; the result is minimized, numbered breadth first, and answers as before. |
| CanonicalForm.CounterpartNotEarlier | experiments/brainworkshop_canonical/rule_automata.py:186-211 | If two minimized machines agree so far, the next state one of them discovers has its counterpart no earlier in the other. |
| CanonicalForm.CanonicalUnique | experiments/brainworkshop_canonical/rule_automata.py:186-211 | Canonical machines with equal behaviour are equal, table by table. |
| CanonicalForm.CanonicalIdentity | experiments/brainworkshop_canonical/rule_automata.py:106-111 | What the digest hashes is canonical: two machines have the same canonical form if and only if they behave alike. |
| CanonicalForm.MinimizedUnique | experiments/brainworkshop_canonical/rule_automata.py:127-183 | What minimize returns is canonical already: two of its results with equal behaviour are equal, table by table. |
| CanonicalForm.MinimizedIdentity | experiments/brainworkshop_canonical/rule_automata.py:127-183 | Two rules minimize to the same machine if and only if they behave alike. |
| ControlFlow.Execute | src/neural_computer/control_flow.py:194-251 | The interpreter loop computes the small-step semantics under a step budget; raises exactly on an invalid program, a wrong number of counters or a budget below one. |
| ControlFlow.InvalidExactly | src/neural_computer/control_flow.py:151-165 | Validation fails exactly on too few counters, no instruction, an instruction naming a missing counter or target, or a last instruction that is no halt. |
| ControlFlow.ReachesCompose | src/neural_computer/control_flow.py:194-251 | Two stretches of execution compose, and their instruction counts add up. |
| ControlFlow.RunToHalt | src/neural_computer/control_flow.py:194-251 | If a halt is reached after n instructions, every budget above n halts there after exactly n + 1 steps and every smaller one is exhausted. |
| CounterAssembly.Assembler.Emit | experiments/brainworkshop_canonical/choice_programs.py:78-85 | Appending an instruction extends the resolved code by exactly it. |
| CounterAssembly.Assembler.EmitJump | experiments/brainworkshop_canonical/choice_programs.py:78-85 | Appending a jump with a label extends the resolved code by the jump to that label's final address, and records one patch. |
| CounterAssembly.Assembler.Mark | experiments/brainworkshop_canonical/choice_programs.py:115-118 | Placing a label leaves the code alone and records the current length. |
| CounterAssembly.Assembler.Resolve | experiments/brainworkshop_canonical/choice_programs.py:142-147 | The back-patching pass turns the emitted list into exactly the resolved code. |
| CounterAssembly.EmitBlock | experiments/brainworkshop_canonical/choice_programs.py:87-115 | One guarded block: both guards jump past it, between them the answer and the next state are raised. |
| CounterAssembly.EmitTail | experiments/brainworkshop_canonical/choice_programs.py:117-140 | The clear loops, the move loops and the halt, with every jump at its address. |
| CounterAssembly.Assemble | experiments/brainworkshop_canonical/choice_programs.py:87-148 | The whole emit-and-patch compilation is the row-by-row layout of the plan. |
| CounterAssembly.AssembledValid | experiments/brainworkshop_canonical/choice_programs.py:142-148 | Every counter exists and every back-patched target lies inside the program. |
| TickSimulation.CellSkips | experiments/brainworkshop_canonical/choice_programs.py:87-104 | A block whose state or input counter is zero is passed over in one or two instructions, nothing changed. |
| TickSimulation.CellFires | experiments/brainworkshop_canonical/choice_programs.py:105-114 | A block whose two guards are positive raises its answer and its next state, one instruction each. |
| TickSimulation.ClearLoop | experiments/brainworkshop_canonical/choice_programs.py:117-127 | The clear loop empties its counter in 3c + 1 instructions; the decrement is never reached at zero. |
| TickSimulation.MoveLoop | experiments/brainworkshop_canonical/choice_programs.py:128-139 | The move loop adds one counter onto another and empties it in 4c + 1 instructions. |
| TickSimulation.RowsRun | experiments/brainworkshop_canonical/choice_programs.py:87-115 | From a one-hot configuration the blocks fire exactly the cell of the active state and symbol. |
| TickSimulation.SwapTicks | experiments/brainworkshop_canonical/choice_programs.py:117-139 | Clearing and moving turns the fired configuration into the one-hot configuration of the successor, inputs and answers kept. |
| TickSimulation.TickRun | experiments/brainworkshop_canonical/choice_programs.py:87-148 | A whole tick: every budget of at least the exact step count halts after exactly that many steps with the answer raised and the state advanced, every smaller one is exhausted; no underflow, no counter limit. |
| TickDriver.LoadReads | experiments/brainworkshop_canonical/choice_programs.py:199-202 | Clearing the answers and setting the inputs keeps the state one-hot and presents exactly one symbol. |
| TickDriver.LoadSymbol | experiments/brainworkshop_canonical/choice_programs.py:199-202 | Before a tick the answers are cleared, the channel of the symbol holds 1 and the other channels 0, and the working counters are left alone. |
| TickDriver.StreamSimulates | experiments/brainworkshop_canonical/choice_programs.py:194-206 | Along every stream whose ticks the budget covers, the counters between ticks are one-hot in the state the machine is in, for any injective map of symbols to channels. |
| TickDriver.StreamHalts | experiments/brainworkshop_canonical/choice_programs.py:192-207 | For every budget: all ticks of a stream halt if the budget covers each of them, and otherwise one of them exhausts it. |
| ChoicePrograms.CompileChoiceRule | experiments/brainworkshop_canonical/choice_programs.py:51-148 | Compiles exactly when the machine is valid, there is a channel, and every input counter exists; the exceptions are the remaining cases. The program has A + C + 2S counters. |
| ChoicePrograms.ChoiceProgramValid | experiments/brainworkshop_canonical/choice_programs.py:148-148 | The compiled program validates if and only if every symbol has a counter. |
| ChoicePrograms.ChoiceProgramSize | experiments/brainworkshop_canonical/choice_programs.py:87-140 | Exactly 4SY + 7S + 1 instructions for S states and Y symbols. |
| ChoicePrograms.Answer | experiments/brainworkshop_canonical/choice_programs.py:166-173 | The largest answer counter, the lowest action among equals. |
| ChoicePrograms.ChooseAnswer | experiments/brainworkshop_canonical/choice_programs.py:166-173 | The comparison loop computes that answer. |
| ChoicePrograms.PredictChoiceSymbols | experiments/brainworkshop_canonical/choice_programs.py:176-207 | Answer and status of every tick over persistent counters, and exactly when an exception is raised. |
| ChoicePrograms.ChoicePrediction | experiments/brainworkshop_canonical/choice_programs.py:176-207 | For every machine and stream over its alphabet, the compiled program answers what the machine answers, every tick halts after exactly SY + Y + 2S + 10 steps, and the counters stay one-hot. |
| ChoicePrograms.HaltsExactlyWithinBudget | experiments/brainworkshop_canonical/choice_programs.py:192-207 | The statuses of a non-empty stream are exactly halted if the step budget is at least SY + Y + 2S + 10, and otherwise an exhausted tick is among them. |
| CounterStatePrograms.CompileRule | experiments/brainworkshop_canonical/counter_state_programs.py:178-274 | The binary compiler with a channel map: exactly when it succeeds, and the program it returns, on 1 + C + 2S counters. |
| CounterStatePrograms.GuardBeyondCounters | experiments/brainworkshop_canonical/counter_state_programs.py:178-274 | A channel whose counter does not exist makes the program invalid. |
| CounterStatePrograms.PredictSymbols | experiments/brainworkshop_canonical/counter_state_programs.py:125-158 | Press and status of every tick, and exactly when an exception is raised. |
| CounterStatePrograms.RuleAffordable | experiments/brainworkshop_canonical/counter_state_programs.py:178-274 | What the budget must be: SY + Y + 2S + 10 instructions, or one less exactly when the rule presses nowhere on the stream. |
| CounterStatePrograms.RulePrediction | experiments/brainworkshop_canonical/counter_state_programs.py:125-158 | For every injective channel map into the channels and every stream within the step budget, the program run on the mapped stream presses exactly when the machine answers a non-zero action on the original; every tick halts. |
| CounterStatePrograms.RuleAllHalted | experiments/brainworkshop_canonical/counter_state_programs.py:125-158 | A mapped stream lies within the channels; its statuses are exactly halted if it is within the budget, and otherwise an exhausted tick is among them. |
| CounterStatePrograms.InClusterSymbols | experiments/brainworkshop_canonical/compositional_transfer.py:67-96 | The relabelled machine, exactly when it is built: a valid machine, a permutation, and no third action. |
| CounterStatePrograms.RenamedBehaviour | experiments/brainworkshop_canonical/compositional_transfer.py:67-96 | On the mapped stream the relabelled machine answers as the original does on the original stream. |
| CounterStatePrograms.CompiledEqualsRenamed | experiments/brainworkshop_canonical/counter_state_programs.py:178-274 | Compiling with the map and relabelling by the map are two routes to the same presses, on every stream within the budget. |
| CounterStatePrograms.RenameInverse | experiments/brainworkshop_canonical/compositional_transfer.py:67-96 | Relabelling by the inverse map undoes the relabelling, up to the action count, which is reset to two. |
| Traces.MajorityIsBest | experiments/brainworkshop_canonical/evidence_merging.py:90-95 | Among answers to one prefix the majority label makes the fewest errors, the minority count. |
| Traces.ErrorsByPrefix | experiments/brainworkshop_canonical/evidence_merging.py:93-95 | The errors of any prefix predictor are the sum of its errors prefix by prefix. |
| Traces.DisagreementsAreOptimal | experiments/brainworkshop_canonical/evidence_merging.py:79-95 | No predictor of prefixes makes fewer errors than the evidence disagrees with itself, and the majority predictor makes exactly that many. |
| EvidenceTree.SumTallies | experiments/brainworkshop_canonical/evidence_merging.py:93-102 | Summing the minority counts over the tallied edges in any order gives the disagreements. |
| EvidenceTree.BuildTree | experiments/brainworkshop_canonical/evidence_merging.py:57-103 | Every prefix is a node, an edge carries the majority label of its prefix exactly if that prefix was scored, and the disagreements are counted; raises exactly when no episode has a symbol. |
| StateMerging.QuotientedIsCongruence | experiments/brainworkshop_canonical/evidence_merging.py:107-164 | A valid partition is closed under every tree edge and identifies no conflicting outputs. |
| StateMerging.SuccessorsForced | experiments/brainworkshop_canonical/evidence_merging.py:156-163 | Every congruence that joins two roots joins their successors on a symbol. |
| StateMerging.PushedForced | experiments/brainworkshop_canonical/evidence_merging.py:156-163 | Every pair the fold pushes is joined by every congruence that joins the two roots. |
| StateMerging.ConflictForced | experiments/brainworkshop_canonical/evidence_merging.py:152-153 | Where the fold gives up, every congruence joining the two roots is conflicted. |
| EvidencePartition.ClimbReachesRoot | experiments/brainworkshop_canonical/evidence_merging.py:114-118 | Following parent links reaches the class representative. |
| EvidencePartition.HalvingKeeps | experiments/brainworkshop_canonical/evidence_merging.py:114-118 | Path halving keeps the forest and every node's root. |
| EvidencePartition.LinkKeeps | experiments/brainworkshop_canonical/evidence_merging.py:145-145 | Linking one root under another joins exactly their two classes. |
| EvidencePartition.Partition.Find | experiments/brainworkshop_canonical/evidence_merging.py:114-118 | Returns the representative; links may change, no node's root does. |
| EvidencePartition.Partition.Link | experiments/brainworkshop_canonical/evidence_merging.py:145-145 | The two classes become one, all others stay. |
| EvidencePartition.Partition.Copy | experiments/brainworkshop_canonical/evidence_merging.py:120-121 | The same partition in a new object. |
| EvidencePartition.Absorb | experiments/brainworkshop_canonical/evidence_merging.py:146-163 | Moves one class's dictionary entries onto another's, stops exactly at a conflicting output, and pushes the successors both had. |
| EvidencePartition.FoldingJoin | experiments/brainworkshop_canonical/evidence_merging.py:138-163 | One merge step keeps the whole fold invariant and loses a class. |
| EvidencePartition.Fold | experiments/brainworkshop_canonical/evidence_merging.py:124-164 | On success the partition is the least congruence above the old one joining the two states, and the evidence is the number of cells with an output that fall together; None if and only if every such congruence is conflicted. |
| StateMerging.CoarserCells | experiments/brainworkshop_canonical/evidence_merging.py:134-136 | Coarser classes have no more cells with an output, so evidence never depends on how a class is named. |
| EvidencePartition.LeastMergeable | experiments/brainworkshop_canonical/evidence_merging.py:124-164 | A successful fold is itself a conflict-free congruence joining the two states. |
| EvidenceMerging.Frontier | experiments/brainworkshop_canonical/evidence_merging.py:181-190 | The frontier lists exactly the unsettled classes one edge away from a settled one, each once, in the order the edges are surveyed: the settled classes in some order, the symbols of each ascending. |
| EvidenceMerging.TryCandidate | experiments/brainworkshop_canonical/evidence_merging.py:196-204 | Tries every settled state for a candidate. The partition kept is the first fold to earn the evidence kept with it; every other settled state either folds with unique evidence that is no more, and less if it is tried before, or cannot be merged; and the candidate counts as unmergeable exactly if no merge exists. |
| EvidenceMerging.SupportedOnce | experiments/brainworkshop_canonical/evidence_merging.py:134-136 | The evidence of a merge is unique: any two least congruences joining the states make equally many cells with an output fall together. |
| EvidenceMerging.NoMoreEvidence | experiments/brainworkshop_canonical/evidence_merging.py:202-204 | What the comparison of evidence means: a merge is dominated or beaten by a value exactly when its one evidence is at most, or below, that value. |
| EvidenceMerging.BestMerge | experiments/brainworkshop_canonical/evidence_merging.py:194-206 | Over the whole frontier: the partition returned is the fold of a candidate into a settled state that earned its evidence, the first in the order they are tried; every candidate and settled state that fold at all do so with no more, and with less if tried before; and the candidates that fit nowhere are listed exactly. |
| EvidenceMerging.OrderClasses | experiments/brainworkshop_canonical/evidence_merging.py:230-239 | The start class first, then every red class once. |
| EvidenceMerging.ToAutomaton | experiments/brainworkshop_canonical/evidence_merging.py:221-259 | The tables read off the partition, missing cells staying put and answering 0. |
| EvidenceMerging.MachineTracks | experiments/brainworkshop_canonical/evidence_merging.py:221-259 | Along every word of the tree the machine is in the state of the node's class. |
| EvidenceMerging.MachineAnswers | experiments/brainworkshop_canonical/evidence_merging.py:221-259 | On every scored prefix the machine answers the recorded output. |
| EvidenceMerging.ApartPromoted | experiments/brainworkshop_canonical/evidence_merging.py:207-214 | A promoted state cannot be merged with any red state before it. |
| EvidenceMerging.ApartStays | experiments/brainworkshop_canonical/evidence_merging.py:207-217 | Red states stay pairwise unmergeable through every later merge. |
| EvidenceMerging.MergeLoop | experiments/brainworkshop_canonical/evidence_merging.py:180-217 | Every round is a promotion of the first frontier state surveyed that fits no settled one, or, when each fits one, the first merge with the most evidence, in the order the frontier is surveyed and the settled states ascend; the recorded rounds are a run from one class per node to an empty frontier. It stops early exactly when more states are settled than allowed; settled states are pairwise unmergeable. |
| EvidenceMerging.ListedBefore | experiments/brainworkshop_canonical/evidence_merging.py:183-190 | A frontier class with an edge surveyed before every edge to another is tried before it. |
| EvidenceMerging.SettledIsExhausted | experiments/brainworkshop_canonical/evidence_merging.py:180-218 | When the loop ends, identifying any two further prefixes would contradict the evidence. |
| EvidenceMerging.InferByMerging | experiments/brainworkshop_canonical/evidence_merging.py:167-218 | A returned machine is minimal, within the state limit, over the largest declared alphabet, and behaves, on streams no episode contains too, as the machine read off the last partition of a run of first promotions and first best-supported merges. It answers the majority label of every scored prefix, so that no predictor of prefixes makes fewer errors on the evidence, and factors through an exhausted conflict-free congruence. The exceptions and None exactly: None on evidence if and only if the run settles more states than the limit, and those are pairwise unmergeable. |
| EvidenceMerging.StuckNeedsPrefixes | experiments/brainworkshop_canonical/evidence_merging.py:212-214 | A hypothesis is missed only if the tree has more nodes than states are allowed. |
| EvidenceMerging.TrainingOptimal | experiments/brainworkshop_canonical/evidence_merging.py:167-218 | The errors of an inferred machine equal the tree's disagreements, and no predictor that sees only the prefix makes fewer. |
| CounterMachines.ComputeExpected | experiments/brainworkshop_canonical/class_escalation.py:191-201 | The one-pass answer stream of a counter machine, whatever amounts its counter moves by. |
| CounterMachines.FitsIsFitsTraces | experiments/brainworkshop_canonical/class_escalation.py:223-227 | Fitting the flattened steps with restarts is fitting every episode from the start. |
| CounterSearch.ReplayFits | experiments/brainworkshop_canonical/class_escalation.py:315-341 | A machine extending tables that replay the evidence fits it. |
| CounterSearch.SwapFits | experiments/brainworkshop_canonical/class_escalation.py:276-280 | Renaming states other than the start does not change what a machine fits. |
| CounterSearch.UnusedTargetsAlike | experiments/brainworkshop_canonical/class_escalation.py:276-280 | Trying the used states and one fresh state loses nothing: any other unused target is a renaming of the fresh one. |
| CounterSearch.StepFirst | experiments/brainworkshop_canonical/class_escalation.py:261-263 | With the earlier moves ruled out, what is found with this move comes before every fitting machine that moves otherwise. |
| CounterSearch.TargetsFirst | experiments/brainworkshop_canonical/class_escalation.py:276-280 | With the smaller targets ruled out, what is found with this target comes before every fitting machine that goes elsewhere. |
| CounterSearch.RecordedMovesSeen | experiments/brainworkshop_canonical/class_escalation.py:245-297 | A counter move in the tables found is one the machine makes on the evidence. |
| CounterSearch.Search.Walk | experiments/brainworkshop_canonical/class_escalation.py:245-297 | True: the tables have only grown, replay the rest of the evidence, and record the choices that come first of all fitting machines in the order moves and targets are tried. False: tables and counter of used states are exactly as on entry, and no machine agreeing with them fits the rest. The nodes counted are exactly those below this step, each move and target opened only if no machine fits with those before it; the budget is given up on if and only if they exceed what is left of it. |
| CounterSearch.Search.TryMove | experiments/brainworkshop_canonical/class_escalation.py:261-296 | One counter move, undone exactly on failure, which then rules it out, with the nodes below it counted exactly. |
| CounterSearch.Search.TryTargets | experiments/brainworkshop_canonical/class_escalation.py:276-292 | All targets of a move; failure rules out every target of any size-bounded machine; the nodes counted are those of the targets up to the first that fits. |
| CounterSearch.Search.TryTarget | experiments/brainworkshop_canonical/class_escalation.py:281-292 | One target, undone exactly on failure, which then rules it out, with the nodes below it counted exactly. |
| CounterSearch.SearchSize | experiments/brainworkshop_canonical/class_escalation.py:238-308 | Per size: the first fitting machine in the order moves and targets are tried, at its defaults wherever the evidence does not call for an entry, or the proof that none of exactly this size fits; given up if and only if the nodes of the search exceed the budget. |
| CounterSearch.TablesUsed | experiments/brainworkshop_canonical/class_escalation.py:315-341 | Cells the evidence does not come through stay put and leave the counter alone, outputs it does not score are 0, and every state but the first is a target of a cell it comes through. |
| CounterSearch.FoundOnce | experiments/brainworkshop_canonical/class_escalation.py:238-308 | The evidence and the size determine the machine found, table by table. |
| CounterSearch.NodesWithinFull | experiments/brainworkshop_canonical/class_escalation.py:245-297 | The nodes of a search are never more than those of the full tree of three moves and all targets at every step. |
| CounterSearch.EveryStepVisited | experiments/brainworkshop_canonical/class_escalation.py:245-297 | Where a machine fits, the search visits at least one node for every step. |
| CounterSearch.Enlarge | experiments/brainworkshop_canonical/class_escalation.py:231-235 | A fitting machine exists at every larger size too, so failing at one size rules out all smaller ones. |
| CounterSearch.InduceCounterMachine | experiments/brainworkshop_canonical/class_escalation.py:204-235 | Sound always, and the first fitting machine of its size, over the largest declared alphabet. The size is the least one that has a fitting machine and whose search stays within the budget, and None on evidence means there is no such size. If the size below was searched within the budget, the machine is smallest, and None means that no machine with at most that many states fits. Where symbols beyond the largest declared alphabet occur, the machine returned is the part of the fitting one on that alphabet. |
| CounterSearch.InducedOnce | experiments/brainworkshop_canonical/class_escalation.py:204-235 | What the search of a size returns is a function of the evidence and the size. |
| CounterSearch.BudgetNeeded | experiments/brainworkshop_canonical/class_escalation.py:204-308 | A budget below the number of steps finds no machine of any size; one of at least the full tree finds whatever exists. |
| CounterPreference.PreferenceOfSize | experiments/brainworkshop_canonical/class_escalation.py:213-217 | Exactly when the counter is left alone at one size: of all fitting machines of that size, one that ignores the counter comes first in the order moves and targets are tried. |
| CounterPreference.PreferenceOnEvidence | experiments/brainworkshop_canonical/class_escalation.py:213-217 | The documented preference exactly: if no size is given up, the machine found has no counter move if and only if, at the least size that has a fitting machine, one that ignores the counter comes before every other fitting machine of that size. |
| CounterPreference.OneStatePreference | experiments/brainworkshop_canonical/class_escalation.py:213-217 | With one state the documented preference holds exactly: the counter is left alone if and only if a one-state counter-free machine fits. |
| CounterPreference.SizeBeatsPreference | experiments/brainworkshop_canonical/class_escalation.py:213-217 | The documented preference fails across sizes: evidence a two-state counter-free machine fits, where every smallest fitting machine has one state and moves the counter. |
| CounterPreference.OrderBeatsPreference | experiments/brainworkshop_canonical/class_escalation.py:213-217 | It fails at one size too: evidence a two-state counter-free machine fits, where what the two-state search finds moves the counter. |
| AdversarialProbes.RunningMajority | experiments/brainworkshop_canonical/adversarial_probes.py:77-94 | Pressed exactly while the first symbol leads. |
| AdversarialProbes.CountThreshold | experiments/brainworkshop_canonical/adversarial_probes.py:57-74 | Pressed exactly once the threshold has been reached. |
| AdversarialProbes.MajorityIsNotFiniteState | experiments/brainworkshop_canonical/adversarial_probes.py:77-94 | For every Mealy machine of any size there is a stream on which it gets the running majority of two different symbols wrong. |
| AdversarialProbes.MajorityIsOneCounter | experiments/brainworkshop_canonical/class_escalation.py:172-201 | A one-state counter machine computes it on every stream. |
| AdversarialProbes.OutputsByCounts | experiments/brainworkshop_canonical/class_escalation.py:191-201 | What the three outputs of a cell mean, over counts: one control state answers one way on ties of two symbols, another while the first leads, and the third while the second leads, on every stream. |
| AdversarialProbes.EveryMealyMachineIsACounterMachine | experiments/brainworkshop_canonical/class_escalation.py:213-217 | Every Mealy machine is a counter machine that never moves its counter. |
| AdversarialProbes.ThresholdSuffices | experiments/brainworkshop_canonical/adversarial_probes.py:57-74 | t + 1 states compute threshold t on every stream. |
| AdversarialProbes.ThresholdNeedsStates | experiments/brainworkshop_canonical/adversarial_probes.py:57-74 | No machine with fewer states does. |
| AdversarialProbes.ParitySuffices | experiments/brainworkshop_canonical/adversarial_probes.py:97-112 | Two states compute parity on every stream. |
| AdversarialProbes.ParityNeedsTwoStates | experiments/brainworkshop_canonical/adversarial_probes.py:97-112 | One state does not. |
| CompositionalRules.AllPairs | experiments/brainworkshop_canonical/compositional_rules.py:88-92 | Every pair of states once, the pair of starts first. |
| CompositionalRules.FillProduct | experiments/brainworkshop_canonical/compositional_rules.py:93-115 | The nested loops fill exactly the product tables. |
| CompositionalRules.ProductComposes | experiments/brainworkshop_canonical/compositional_rules.py:71-122 | The product answers every stream with the combined answers of its parts. |
| CompositionalRules.ProductRule | experiments/brainworkshop_canonical/compositional_rules.py:71-122 | On unvalidated tables too: raises exactly on different alphabets, a name other than "and", "or" and "xor", no state or fewer than two symbols; otherwise the minimal machine whose answer to every stream is a bit, set by "and" where both parts answer a non-zero action, by "or" where at least one does, by "xor" where exactly one does. |
| OutputTables.FitOutputTable | experiments/brainworkshop_canonical/composition_accumulation.py:122-149 | A table if and only if some function of (left state, right state, symbol) explains every scored label; each entry is what every explanation must answer. |
| OutputTables.TableAccuracy | experiments/brainworkshop_canonical/composition_accumulation.py:152-173 | Hits over scored steps, 0 without one. |
| OutputTables.FullMarks | experiments/brainworkshop_canonical/composition_accumulation.py:152-173 | Full marks if and only if the function explains the episode. |
| OutputTables.FittedScoresOne | experiments/brainworkshop_canonical/composition_accumulation.py:152-173 | A fitted table scores 1 on every fitted episode that has a scored step. |
| OutputTables.ProductImpliesTable | experiments/brainworkshop_canonical/composition_accumulation.py:122-149 | If the product under any combiner reproduces the evidence, an output table exists. |
| CompositionLibrary.HeldOutAccuracy | experiments/brainworkshop_canonical/identification_ceiling.py:419-429 | Hits over scored steps; raises exactly if the machine cannot read the episode. |
| CompositionLibrary.AccuracyOneIsFit | experiments/brainworkshop_canonical/composition_accumulation.py:186-189 | Accuracy 1 means every scored step right and at least one scored step. |
| CompositionLibrary.Fits | experiments/brainworkshop_canonical/composition_accumulation.py:186-189 | The short-circuiting test: true exactly if every episode fits, and which episode decides otherwise. |
| CompositionLibrary.FitsIffReproduces | experiments/brainworkshop_canonical/composition_accumulation.py:186-189 | The docstring's promise is false as stated: the test holds if and only if every label is reproduced and every episode has a scored step. |
| CompositionLibrary.UnscoredEpisodeNeverFits | experiments/brainworkshop_canonical/composition_accumulation.py:186-189 | The input that shows it: one episode without a scored step. |
| CompositionLibrary.LibraryCandidates | experiments/brainworkshop_canonical/composition_accumulation.py:84-104 | Exactly the slots and the pairs over one alphabet under each combiner, once each, in slot, pair and combiner order, and each candidate is what its label says. |
| CompositionLibrary.FittingProductHasTable | experiments/brainworkshop_canonical/composition_accumulation.py:122-149 | A product that fits the evidence implies that a table can be read off its two parts. |
| CompositionalRecognition.FlattenTargets | experiments/brainworkshop_canonical/compositional_recognition.py:105-119 | Targets and positions list the scored steps one by one. |
| CompositionalRecognition.RecordPredictions | experiments/brainworkshop_canonical/compositional_recognition.py:122-136 | The cached vector holds the stored program's press at every scored step; fails exactly if some episode cannot be run. |
| CompositionalRecognition.HitsAndErrors | experiments/brainworkshop_canonical/compositional_recognition.py:144-145 | Hits of a vector of answers plus errors of the predictor are the scored steps. |
| CompositionalRecognition.MergeVectors | experiments/brainworkshop_canonical/compositional_recognition.py:139-141 | The merged vector has a bit per position, set by And where both vectors are non-zero, by Or where one is, by Xor where exactly one is. |
| CompositionalRecognition.CompiledPresses | experiments/brainworkshop_canonical/compositional_recognition.py:122-136 | Running a stored compiled program is running its machine, on every prefix the step budget covers. |
| CompositionalRecognition.SingleScoreExact | experiments/brainworkshop_canonical/compositional_recognition.py:195-199 | The hits of a cached vector are the scored steps minus the errors of the machine its program was compiled from. |
| CompositionalRecognition.PairScoreExact | experiments/brainworkshop_canonical/compositional_recognition.py:200-204 | The hits of two merged cached vectors are the scored steps minus the product machine's errors, for every combiner and however large the product is. |
| CompositionalRecognition.MergedIsCompiledProduct | experiments/brainworkshop_canonical/compositional_recognition.py:200-204 | Where the step budget covers the compiled product on the evidence, the merged vector is the vector that running it gives. |
| CompositionSearch.BuildCandidates | experiments/brainworkshop_canonical/compositional_recognition.py:206-213 | The list of hypotheses, singles first and then pairs row by row under each combiner, scored on the cached vectors, n + 3 n(n-1)/2 in all. |
| CompositionSearch.HypothesesAreOffered | experiments/brainworkshop_canonical/compositional_recognition.py:206-213 | The list holds exactly every single and every pair under every combiner. |
| CompositionSearch.AllPairsCount | experiments/brainworkshop_canonical/compositional_recognition.py:209-213 | n slots give n(n-1)/2 pairs. |
| CompositionSearch.PickWinner | experiments/brainworkshop_canonical/compositional_recognition.py:280-288 | A survivor with the most hits; with equal hits a single before a pair, then the smaller largest slot, then the first listed; the survivors are counted exactly. |
| CompositionSearch.BestIsMostHits | experiments/brainworkshop_canonical/compositional_recognition.py:280-288 | The comparison of the search means exactly that: most hits, then single, then smallest largest slot, then first. |
| CompositionSearch.CacheVectors | experiments/brainworkshop_canonical/compositional_recognition.py:189-193 | One vector per usable slot; fails exactly if some usable program cannot run on some episode. |
| CompositionSearch.SearchCompositions | experiments/brainworkshop_canonical/compositional_recognition.py:148-290 | The exhaustive path: it raises exactly if some usable program cannot run or the level is divided by zero hypotheses; otherwise exactly n singles and 3 n(n-1)/2 pairs are examined, and the winner is the first listed of the survivors with the most hits, singles before pairs and smaller largest slots before larger ones; the survivors are counted exactly. |
| CompositionSearch.ComposedMachine | experiments/brainworkshop_canonical/compositional_recognition.py:315-327 | The candidate as one machine; None and the exception exactly. |
| CompositionSearch.OfferedScoreExact | experiments/brainworkshop_canonical/compositional_recognition.py:195-213 | End to end: the hits of every hypothesis, the winner included, are the scored steps that the machine built for it answers right. |
| ChoiceInduction.ScoreFromCounts | experiments/brainworkshop_canonical/choice_induction.py:174-178 | The three counters of a cell determine how many outcomes each answer contradicts. |
| ChoiceInduction.FirstBest | experiments/brainworkshop_canonical/choice_induction.py:172-180 | The least action among those contradicted least. |
| ChoiceInduction.DisagreementsByCell | experiments/brainworkshop_canonical/choice_induction.py:168-184 | Adding up the cells counts the contradictions of the whole table. |
| ChoiceInduction.BestTableIsOptimal | experiments/brainworkshop_canonical/choice_induction.py:141-184 | For fixed transitions no output table contradicts fewer outcomes. |
| ChoiceInduction.TwoActionsMajority | experiments/brainworkshop_canonical/choice_induction.py:141-184 | With two actions every cell answers what most of its outcomes name, ties 0. |
| ChoiceInduction.Flatten | experiments/brainworkshop_canonical/choice_induction.py:126-138 | The episodes end to end, with exactly the first steps recorded as starts. |
| ChoiceInduction.FlatIsEpisodes | experiments/brainworkshop_canonical/choice_induction.py:155-166 | Restarting at the recorded starts meets exactly the outcomes of the separate episodes, in order. |
| ChoiceInduction.InvalidExactly | experiments/brainworkshop_canonical/choice_induction.py:71-85 | Validation fails exactly on lists of different lengths, too few symbols or actions, or a symbol, action or reward out of range. |
| ChoiceClimbing.Record | experiments/brainworkshop_canonical/choice_induction.py:159-165 | One outcome moves exactly the counters of its cell. |
| ChoiceClimbing.CountOutcomes | experiments/brainworkshop_canonical/choice_induction.py:152-166 | The counting pass fills the three tables with the counts of the evidence. |
| ChoiceClimbing.BestOutputs | experiments/brainworkshop_canonical/choice_induction.py:141-184 | The table of first minimizers, and the number of outcomes it contradicts. |
| ChoiceClimbing.BestTargetIsFirst | experiments/brainworkshop_canonical/choice_induction.py:197-216 | The target left in a cell is a best one: the one that was there, or else the first of the best. |
| ChoiceClimbing.ImproveCell | experiments/brainworkshop_canonical/choice_induction.py:197-216 | Trying all targets of one cell: only that cell can change, to the first of the best targets if one is better, and nothing changed if nothing improved. |
| ChoiceClimbing.Sweep | experiments/brainworkshop_canonical/choice_induction.py:193-218 | The cells are settled one after the other; a sweep without improvement leaves the table unchanged and locally optimal. |
| ChoiceClimbing.Climb | experiments/brainworkshop_canonical/choice_induction.py:187-219 | The transitions left behind are those of the climb, table and score are theirs, the score never rises, and either no single change is better or each of the 40 sweeps lowered it. |
| ChoiceClimbing.ClimbedSettles | experiments/brainworkshop_canonical/choice_induction.py:193-218 | Where a climb of any length ends, no single change of the transitions lowers the score, or every sweep lowered it. |
| ChoiceClimbing.ShortEvidenceSettles | experiments/brainworkshop_canonical/choice_induction.py:193-218 | With fewer steps of evidence than sweeps the end of the climb is always locally optimal. |
| ChoiceAgreement.Agreement | experiments/brainworkshop_canonical/choice_induction.py:296-316 | Consistent outcomes and trials; raises exactly if some episode cannot be read. |
| ChoiceAgreement.AgreementComplement | experiments/brainworkshop_canonical/choice_induction.py:296-316 | Consistent outcomes and the contradictions of the machine's own table add up to the trials. |
| ChoiceAgreement.FitIsAgreement | experiments/brainworkshop_canonical/choice_induction.py:187-219 | The score a fit reports is the trials minus the agreement of the fitted machine. |
| ChoiceAgreement.FitIsBestForTransitions | experiments/brainworkshop_canonical/choice_induction.py:141-184 | No machine with the same transitions agrees with more outcomes. |
| ChoiceAgreement.GeneratorCostsNothing | experiments/brainworkshop_canonical/choice_induction.py:141-184 | The transitions of the machine that gave the rewards score zero. |
| ChoiceRestarts.BestOfRestarts | experiments/brainworkshop_canonical/choice_induction.py:244-274 | What is kept is the end of the first climb to end lowest among all restarts; stopping at zero changes nothing; nothing is kept only without restarts. |
| ChoiceRestarts.WinnerSettles | experiments/brainworkshop_canonical/choice_induction.py:244-274 | What is kept scores no worse than any table started from, and no single change of its transitions scores lower, or each of the 40 sweeps lowered it. |
| ChoiceRestarts.InduceAtSize | experiments/brainworkshop_canonical/choice_induction.py:241-284 | One size, validated episodes to minimized machine: it behaves as the table of the best climb, its agreement plus the reported score is the trials, and that table is locally optimal unless each of the 40 sweeps lowered it. |
| ChoiceRestarts.FlatTrials | experiments/brainworkshop_canonical/choice_induction.py:234-236 | Counting the scored steps of the flat episodes is counting the trials. |
| ChoiceRestarts.InduceFromChoices | experiments/brainworkshop_canonical/choice_induction.py:222-293 | Raises exactly for an ill-formed episode; None exactly for fewer than two trials, no sizes or no restarts; otherwise the fit of the first size with the shortest description. Its symbols and its actions are as many as some episode has, and no episode has more. |
| ChoiceSelection.DocumentedExactly | experiments/brainworkshop_canonical/choice_induction.py:230-293 | For every measure of descriptions: the size kept is the smallest size tried with the fewest contradictions if and only if no other size, which contradicts more or is larger and contradicts as much, is described in fewer bits, or is smaller and described in as many. |
| ChoiceSelection.SmallestExactly | experiments/brainworkshop_canonical/choice_induction.py:230-293 | The same by the states of the minimized machines: the machine kept has the fewest contradictions and the fewest states among those if and only if some such machine is not outbid by any machine that contradicts more or is larger. |
| ChoiceSelection.ShorterBeatsFewer | experiments/brainworkshop_canonical/choice_induction.py:230-293 | Two outcomes on which neither holds, with any draws and up to any number of states: two states contradict nothing, and one state, which contradicts one of them, is kept. |
| ChoiceRestarts.ConsistentSame | experiments/brainworkshop_canonical/choice_induction.py:276-283 | Minimizing does not change agreement. |
| ImpliedAccuracies.ImpliedAccuracy | experiments/brainworkshop_canonical/choice_induction.py:319-353 | Always within 0 and 1; raises exactly for fewer than two actions on some trials; weight at least one. |
| ImpliedAccuracies.TwoActionsIsIdentity | experiments/brainworkshop_canonical/choice_induction.py:336-337 | At two actions, the consistency rate at full weight. |
| ImpliedAccuracies.ImpliedAccuracyMonotone | experiments/brainworkshop_canonical/choice_induction.py:349-351 | More consistent outcomes never lower it. |
| ImpliedAccuracies.WeightIsScaledTrials | experiments/brainworkshop_canonical/choice_induction.py:352-353 | The weight is 4n/k² rounded down, but at least one. |
| ImpliedAccuracies.ImpliedAccuracyInverts | experiments/brainworkshop_canonical/choice_induction.py:329-337 | k h + (k-2)(n-h) consistent outcomes out of k n give back exactly h/n. |
| ImpliedAccuracies.ColumnCount | experiments/brainworkshop_canonical/choice_induction.py:329-334 | At one step a right answer agrees with every choice, a wrong one misses two. |
| ImpliedAccuracies.ExhaustiveProbeIsExact | experiments/brainworkshop_canonical/choice_induction.py:329-337 | When every action is tried once at every scored step, the accuracy implied by agreement is the fraction of scored steps answered as the truth does. |
| ChoiceAccumulation.CanonicalSignatureStream | src/neural_computer/induced_library.py:80-101 | The congruential stream, and exactly when it is refused. |
| ChoiceAccumulation.RecordFor | experiments/brainworkshop_canonical/choice_accumulation.py:75-104 | A record is made if and only if the machine's program over the record's alphabet halts on every tick of the signature stream; it validates and is signed by what the program answers. Over exactly the machine's alphabet that is so if and only if a tick fits the step budget, and the signature is the machine's own answer stream. |
| ChoiceAccumulation.RecordAnswers | experiments/brainworkshop_canonical/choice_accumulation.py:107-120 | What the program answers on every episode; fails exactly if some episode cannot be run. |
| ChoiceAccumulation.CountConsistent | experiments/brainworkshop_canonical/choice_accumulation.py:136-146 | The counting loop over answers, choices and rewards. |
| ChoiceAccumulation.HeldAnswers | experiments/brainworkshop_canonical/choice_accumulation.py:107-120 | The stored program of a machine answers every episode as the machine does. |
| ChoiceAccumulation.HeldConsistency | experiments/brainworkshop_canonical/choice_accumulation.py:136-146 | The consistent count of a stored program is the agreement of its machine. |
| ChoiceAccumulation.EarnsOnce | experiments/brainworkshop_canonical/choice_accumulation.py:135-149 | A stored program earns exactly one score on given evidence. |
| ChoiceAccumulation.HeldEarns | experiments/brainworkshop_canonical/choice_accumulation.py:135-149 | The score a stored program earns is the accuracy implied by its machine's agreement. |
| ChoiceAccumulation.RecogniseChoice | experiments/brainworkshop_canonical/choice_accumulation.py:123-155 | The first slot of highest implied accuracy among those passing the survivor test, None if none passes; fails exactly if some consulted slot cannot read the evidence. |
| BehaviourSignatures.PartitionByBehaviour | experiments/brainworkshop_canonical/behaviour_signature.py:158-216 | Classes and unsignable proposals cover every index once, signed classes have distinct signatures and hold exactly the proposals that share them, trained proposals are singletons; who is trained and who is unsignable is stated by the fields of a proposal; raises exactly on an empty stream with something to sign. |
| BehaviourSignatures.ClassesDisjoint | experiments/brainworkshop_canonical/behaviour_signature.py:158-216 | No proposal is in two classes. |
| BehaviourSignatures.SameClassSamePresses | experiments/brainworkshop_canonical/behaviour_signature.py:158-216 | Two proposals share a class if and only if both are signed with equal presses, or they are one trained proposal. |
| BehaviourSignatures.RepresentativeIsLeast | experiments/brainworkshop_canonical/behaviour_signature.py:158-216 | Each representative is the least index of its class. |
| BehaviourSignatures.FirstWinnerIsRepresentative | experiments/brainworkshop_canonical/behaviour_signature.py:22-31 | Lossless: if acceptance depends only on the presses, the first accepted proposal is the first accepted representative. |
| BehaviourSignatures.RepresentativeOf | experiments/brainworkshop_canonical/behaviour_signature.py:128-134 | The earliest proposal with the same presses, or None exactly for unsignable ones. |
| NBackVerifiers.NewVerifier | experiments/brainworkshop_canonical/environment.py:38-69 | Exactly when construction succeeds, and how many trials are eligible. |
| NBackVerifiers.NBackVerifier.Reset | experiments/brainworkshop_canonical/environment.py:91-139 | Every row is the one the draws say: its leading symbols, then the symbol n back where an odd number was drawn for the position and the one its offset further on elsewhere; so for any draws it repeats at exactly half its scored positions, rounded down, and its bits say where, in order or in the drawn order; fails exactly with a single symbol. |
| NBackVerifiers.NBackVerifier.Observation | experiments/brainworkshop_canonical/environment.py:141-158 | The cue first, then the symbols in order; the exceptions exactly. |
| NBackVerifiers.NBackVerifier.Score | experiments/brainworkshop_canonical/environment.py:160-194 | Every row is judged by its own bit and the position advances; a refused action changes nothing. |
| NBackVerifiers.ReorderKeepsCount | experiments/brainworkshop_canonical/environment.py:110-116 | Permuting bits keeps how many are true. |
| NBackVerifiers.FillSymbols | experiments/brainworkshop_canonical/environment.py:117-130 | The symbol n back is repeated exactly at the targets. |
| NBackVerifiers.EpisodeTotals | experiments/brainworkshop_canonical/environment.py:160-194 | After the warm-up every position is scored and earns exactly when it meets its bit. |
| NBackVerifiers.ConstantAnswerEarnsHalf | experiments/brainworkshop_canonical/environment.py:160-194 | Over balanced bits, cued or not, always pressing earns half rounded down and never pressing the rest. |
| NBackVerifiers.RelationEarnsAll | experiments/brainworkshop_canonical/environment.py:117-130 | Answering the n-back relation earns every scored step of an unshuffled row. |
| NBackVerifiers.BalancedEpisode | experiments/brainworkshop_canonical/environment.py:79-139 | After any reset a full episode has exactly the eligible trials, and always pressing earns half of them rounded down. |

## Left out

- ChoiceAccumulation.RecordFor: for a machine over fewer or more symbols than the record's alphabet the condition and the signature are stated of the program's run, not of the machine, since such a program does not compute the machine; every caller passes the machine's own alphabet.
- CounterSearch.InduceCounterMachine: promises the smallest machine only where the size below was searched within the node budget; the source passes over a size it gives up on, and which sizes those are is stated exactly.
- EvidenceMerging.InferByMerging: states majority answers for evidence whose symbols lie in the largest alphabet; nothing is required of other evidence.
- EvidenceMerging.Frontier: the order in which the settled set is walked is left open, as set iteration is; the rest of the survey, and with it every round, is determined by it.
- CompositionalRecognition.PairScoreExact: covers binary records compiled from machines whose ticks on the evidence the step budget covers; a stored program without a machine has a vector but no machine to agree with.
- NBackVerifiers.NBackVerifier.Reset: the drawn orders and offsets are arbitrary; how a generator draws them is not modelled.
- Tensors, encoders, clustering, rendering and the runtime that presses keys: streams are sequences of symbol indices.
- SHA-256 digests, JSON payloads and files: identity is proved on the canonical machine that is hashed.
- The experiment drivers, reports and command lines, and the agent loops that buy episodes.
- `binomial_upper_tail` and `proves_competence`: any predicate on hits and trials, the value the level is divided to included.
- `description_bits` and `error_bits`: logarithms; any real-valued length of a fit, with their values where the logarithms are whole.
- The learned proposer of the composition search and its fallback; only the exhaustive path is modelled.
- Rounding of floating-point rates; the recursion limit set around the counter search.
- `assess`, `_verdict` and `escalate`: three comparisons on already computed errors.
- The other learners of the experiments (`infer_machine`, the noise-tolerant inducers, factorization) and the sampling of rule populations.
- The template search, banks, caches and routing, whose guarantees rest on components that are not part of this model.
