/**
 Products of rules (compositional_rules.py): two machines run on the same stream,
 their presses merged by a boolean combiner, the result minimised.
 */
module CompositionalRules {
  import opened Prelude
  import opened RuleAutomata
  import opened Minimization

  datatype Combiner = And | Or | Xor

  /** `COMBINERS`: actions are read as booleans, the result is a bit. */
  function Merge(combiner: Combiner, left: nat, right: nat): (r: nat)
    ensures r <= 1
  {
    var l, q := left != 0, right != 0;
    var pressed := match combiner
      case And => l && q
      case Or => l || q
      case Xor => l != q;
    if pressed then 1 else 0
  }

  function Lookup(name: string): Option<Combiner> {
    if name == "and" then Some(And) else if name == "or" then Some(Or) else if name == "xor" then Some(Xor) else None
  }

  type StatePair = (nat, nat)

  /** Rectangular tables whose targets exist; nothing is asked of the answers or of the declared actions. */
  predicate Tabled(m: RuleAutomaton) {
    && |m.transitions| == |m.outputs|
    && (forall s :: 0 <= s < |m.transitions| ==> |m.transitions[s]| == m.symbolCount && |m.outputs[s]| == m.symbolCount)
    && (forall s, y :: 0 <= s < |m.transitions| && 0 <= y < m.symbolCount ==> m.transitions[s][y] < |m.transitions|)
  }

  function RowBound(row: seq<nat>): (n: nat)
    ensures n >= 2 && forall y :: 0 <= y < |row| ==> row[y] < n
  {
    if row == [] then 2 else Max(RowBound(row[..|row| - 1]), row[|row| - 1] + 1)
  }

  function TableBound(table: seq<seq<nat>>): (n: nat)
    ensures n >= 2 && forall s, y :: 0 <= s < |table| && 0 <= y < |table[s]| ==> table[s][y] < n
  {
    if table == [] then 2 else Max(TableBound(table[..|table| - 1]), RowBound(table[|table| - 1]))
  }

  /** The same tables with as many actions declared as they use. */
  function Declared(m: RuleAutomaton): RuleAutomaton {
    m.(actionCount := TableBound(m.outputs))
  }

  lemma DeclaredValid(m: RuleAutomaton)
    requires Tabled(m)
    ensures Tabled(Declared(m)) && (Declared(m).Valid() <==> m.symbolCount >= 2 && m.StateCount() > 0)
  {
  }

  lemma ValidIsTabled(m: RuleAutomaton)
    requires m.Valid()
    ensures Tabled(m) && Declared(m).Valid()
  {
  }

  /** Declaring other actions changes no answer. */
  lemma {:induction false} DeclaredSame(m: RuleAutomaton, w: Word)
    requires m.Valid() && InAlphabet(w, m.symbolCount)
    ensures Declared(m).Valid() && Reach(Declared(m), 0, w) == Reach(m, 0, w)
    ensures |w| > 0 ==> Emit(Declared(m), w) == Emit(m, w)
    decreases |w|
  {
    if w != [] {
      DeclaredSame(m, w[..|w| - 1]);
    }
  }

  /** Each pair of states once, the pair of start states first. */
  ghost predicate ListsPairs(pairs: seq<StatePair>, lefts: nat, rights: nat) {
    && (|pairs| > 0 <==> lefts > 0 && rights > 0) && (|pairs| > 0 ==> pairs[0] == (0, 0))
    && (forall i :: 0 <= i < |pairs| ==> pairs[i].0 < lefts && pairs[i].1 < rights)
    && (forall i, j :: 0 <= i < j < |pairs| ==> pairs[i] != pairs[j])
    && (forall a: nat, b: nat :: a < lefts && b < rights ==> (a, b) in pairs)
  }

  /** Position of a pair. */
  function IndexOfPair(pairs: seq<StatePair>, pair: StatePair): (i: nat)
    requires pair in pairs
    ensures i < |pairs| && pairs[i] == pair
  {
    if pairs[0] == pair then 0 else 1 + IndexOfPair(pairs[1..], pair)
  }

  /** The nested comprehension over both state ranges. */
  method AllPairs(lefts: nat, rights: nat) returns (pairs: seq<StatePair>)
    ensures ListsPairs(pairs, lefts, rights)
  {
    pairs := [];
    for first := 0 to lefts
      invariant |pairs| > 0 <==> first > 0 && rights > 0
      invariant |pairs| > 0 ==> pairs[0] == (0, 0)
      invariant forall i :: 0 <= i < |pairs| ==> pairs[i].0 < first && pairs[i].1 < rights
      invariant forall i, j :: 0 <= i < j < |pairs| ==> pairs[i] != pairs[j]
      invariant forall a: nat, b: nat :: a < first && b < rights ==> (a, b) in pairs
    {
      for second := 0 to rights
        invariant |pairs| > 0 <==> (first > 0 && rights > 0) || second > 0
        invariant |pairs| > 0 ==> pairs[0] == (0, 0)
        invariant forall i :: 0 <= i < |pairs| ==>
          (pairs[i].0 < first && pairs[i].1 < rights) || (pairs[i].0 == first && pairs[i].1 < second)
        invariant forall i, j :: 0 <= i < j < |pairs| ==> pairs[i] != pairs[j]
        invariant forall a: nat, b: nat :: (a < first && b < rights) || (a == first && b < second) ==> (a, b) in pairs
      {
        pairs := pairs + [(first, second)];
      }
    }
  }

  /** The product machine over a listing of its states. */
  function ProductOver(left: RuleAutomaton, right: RuleAutomaton, combiner: Combiner,
      pairs: seq<StatePair>): RuleAutomaton
    requires Tabled(left) && Tabled(right) && left.symbolCount == right.symbolCount
    requires ListsPairs(pairs, left.StateCount(), right.StateCount())
  {
    RuleAutomaton(
      left.symbolCount,
      seq(|pairs|, i requires 0 <= i < |pairs| => seq(left.symbolCount, y requires 0 <= y < left.symbolCount =>
        IndexOfPair(pairs, (left.transitions[pairs[i].0][y], right.transitions[pairs[i].1][y])))),
      seq(|pairs|, i requires 0 <= i < |pairs| => seq(left.symbolCount, y requires 0 <= y < left.symbolCount =>
        Merge(combiner, left.outputs[pairs[i].0][y], right.outputs[pairs[i].1][y]))),
      2)
  }

  /** The tables of the product, row by row and cell by cell. */
  method FillProduct(left: RuleAutomaton, right: RuleAutomaton, combiner: Combiner, pairs: seq<StatePair>)
    returns (m: RuleAutomaton)
    requires Tabled(left) && Tabled(right) && left.symbolCount == right.symbolCount
    requires ListsPairs(pairs, left.StateCount(), right.StateCount())
    ensures m == ProductOver(left, right, combiner, pairs)
  {
    ghost var product := ProductOver(left, right, combiner, pairs);
    var transitions: seq<seq<nat>> := [];
    var outputs: seq<seq<nat>> := [];
    for i := 0 to |pairs|
      invariant transitions == product.transitions[..i] && outputs == product.outputs[..i]
    {
      var (first, second) := pairs[i];
      var row: seq<nat> := [];
      var emission: seq<nat> := [];
      for symbol := 0 to left.symbolCount
        invariant row == product.transitions[i][..symbol] && emission == product.outputs[i][..symbol]
      {
        row := row + [IndexOfPair(pairs, (left.transitions[first][symbol], right.transitions[second][symbol]))];
        emission := emission + [Merge(combiner, left.outputs[first][symbol], right.outputs[second][symbol])];
      }
      assert row == product.transitions[i] && emission == product.outputs[i];
      transitions := transitions + [row];
      outputs := outputs + [emission];
    }
    m := RuleAutomaton(left.symbolCount, transitions, outputs, 2);
  }

  lemma {:induction false} ProductReach(left: RuleAutomaton, right: RuleAutomaton, combiner: Combiner,
      pairs: seq<StatePair>, w: Word)
    requires left.Valid() && right.Valid() && Tabled(left) && Tabled(right) && left.symbolCount == right.symbolCount
    requires ListsPairs(pairs, left.StateCount(), right.StateCount()) && InAlphabet(w, left.symbolCount)
    ensures ProductOver(left, right, combiner, pairs).Valid()
    ensures pairs[Reach(ProductOver(left, right, combiner, pairs), 0, w)] == (Reach(left, 0, w), Reach(right, 0, w))
    decreases |w|
  {
    if w != [] {
      ProductReach(left, right, combiner, pairs, w[..|w| - 1]);
    }
  }

  /** What a composition of two rules answers. */
  ghost predicate Composes(m: RuleAutomaton, left: RuleAutomaton, right: RuleAutomaton, combiner: Combiner)
    requires m.Valid() && left.Valid() && right.Valid()
  {
    && m.symbolCount == left.symbolCount == right.symbolCount && m.actionCount == 2
    && forall w: Word :: InAlphabet(w, m.symbolCount) && |w| > 0 ==>
      Emit(m, w) == Merge(combiner, Emit(left, w), Emit(right, w))
  }

  /**
   The combined answers by the combiner's name: a bit, set by "and" where both parts answer a
   non-zero action, by "or" where at least one does, by "xor" where exactly one does.
   */
  ghost predicate AnswersByName(m: RuleAutomaton, left: RuleAutomaton, right: RuleAutomaton, name: string)
    requires m.Valid() && left.Valid() && right.Valid()
    requires m.symbolCount == left.symbolCount == right.symbolCount
  {
    forall w: Word :: InAlphabet(w, m.symbolCount) && |w| > 0 ==>
      && Emit(m, w) <= 1
      && (name == "and" ==> (Emit(m, w) == 1 <==> Emit(left, w) != 0 && Emit(right, w) != 0))
      && (name == "or" ==> (Emit(m, w) == 0 <==> Emit(left, w) == 0 && Emit(right, w) == 0))
      && (name == "xor" ==> (Emit(m, w) == 0 <==> (Emit(left, w) == 0 <==> Emit(right, w) == 0)))
  }

  lemma ComposesByName(m: RuleAutomaton, left: RuleAutomaton, right: RuleAutomaton, name: string)
    requires m.Valid() && left.Valid() && right.Valid() && Lookup(name).Some?
    requires Composes(m, left, right, Lookup(name).value)
    ensures name in {"and", "or", "xor"} && AnswersByName(m, left, right, name)
  {
    hide Emit;
    forall w: Word | InAlphabet(w, m.symbolCount) && |w| > 0
      ensures Emit(m, w) <= 1
      ensures name == "and" ==> (Emit(m, w) == 1 <==> Emit(left, w) != 0 && Emit(right, w) != 0)
      ensures name == "or" ==> (Emit(m, w) == 0 <==> Emit(left, w) == 0 && Emit(right, w) == 0)
      ensures name == "xor" ==> (Emit(m, w) == 0 <==> (Emit(left, w) == 0 <==> Emit(right, w) == 0))
    {
      assert Emit(m, w) == Merge(Lookup(name).value, Emit(left, w), Emit(right, w));
    }
  }

  lemma ProductComposes(left: RuleAutomaton, right: RuleAutomaton, combiner: Combiner, pairs: seq<StatePair>)
    requires left.Valid() && right.Valid() && Tabled(left) && Tabled(right) && left.symbolCount == right.symbolCount
    requires ListsPairs(pairs, left.StateCount(), right.StateCount())
    ensures ProductOver(left, right, combiner, pairs).Valid()
    ensures Composes(ProductOver(left, right, combiner, pairs), left, right, combiner)
  {
    var m := ProductOver(left, right, combiner, pairs);
    ProductReach(left, right, combiner, pairs, []);
    forall w: Word | InAlphabet(w, m.symbolCount) && |w| > 0
      ensures Emit(m, w) == Merge(combiner, Emit(left, w), Emit(right, w))
    {
      ProductReach(left, right, combiner, pairs, w[..|w| - 1]);
    }
  }

  lemma ComposesCarriesOver(m: RuleAutomaton, n: RuleAutomaton, left: RuleAutomaton, right: RuleAutomaton,
      combiner: Combiner)
    requires m.Valid() && n.Valid() && left.Valid() && right.Valid() && SameBehaviour(m, n)
      && Composes(m, left, right, combiner)
    ensures Composes(n, left, right, combiner)
  {
    forall w: Word | InAlphabet(w, n.symbolCount) && |w| > 0
      ensures Emit(n, w) == Merge(combiner, Emit(left, w), Emit(right, w))
    {
      assert Emit(m, w) == Emit(n, w);
    }
  }

  /**
   `product_rule`, on machines that need not have been validated: the exceptions are
   different alphabets, an unknown combiner, and a product that is no machine because there
   is no state or fewer than two symbols. Otherwise it is the minimal machine that answers
   every stream with the combined answers.
   */
  method ProductRule(left: RuleAutomaton, right: RuleAutomaton, combiner: string) returns (r: Result<RuleAutomaton>)
    requires Tabled(left) && Tabled(right)
    ensures r.Success? <==>
      left.symbolCount == right.symbolCount >= 2 && combiner in {"and", "or", "xor"} && left.StateCount() > 0
        && right.StateCount() > 0
    ensures r.Success? ==>
      Lookup(combiner).Some? && Declared(left).Valid() && Declared(right).Valid()
        && Reduced(r.value) && InStateOrder(r.value)
        && Composes(r.value, Declared(left), Declared(right), Lookup(combiner).value)
    ensures r.Success? && left.Valid() && right.Valid() ==> Composes(r.value, left, right, Lookup(combiner).value)
    ensures r.Success? ==>
      && r.value.symbolCount == left.symbolCount && AnswersByName(r.value, Declared(left), Declared(right), combiner)
      && (left.Valid() && right.Valid() ==> AnswersByName(r.value, left, right, combiner))
  {
    hide ListsPairs, Reduced, InStateOrder, Composes, AnswersByName, Declared, Tabled;
    if left.symbolCount != right.symbolCount {
      return Failure("composed rules must share an alphabet");
    }
    var merge := Lookup(combiner);
    if merge.None? {
      return Failure("unknown combiner");
    }
    var pairs := AllPairs(left.StateCount(), right.StateCount());
    var product := FillProduct(left, right, merge.value, pairs);
    ProductValid(left, right, merge.value, pairs);
    var minimal := Minimize(product);
    if minimal.Failure? {
      return minimal;
    }
    ReducedIsValid(minimal.value);
    ComposesCarriesOver(product, minimal.value, Declared(left), Declared(right), merge.value);
    ComposesByName(minimal.value, Declared(left), Declared(right), combiner);
    ComposesShared(minimal.value, Declared(left), Declared(right), merge.value);
    if left.Valid() && right.Valid() {
      ComposesDeclared(minimal.value, left, right, merge.value);
      ComposesByName(minimal.value, left, right, combiner);
    }
    return minimal;
  }

  lemma ComposesShared(m: RuleAutomaton, left: RuleAutomaton, right: RuleAutomaton, combiner: Combiner)
    requires m.Valid() && left.Valid() && right.Valid() && Composes(m, left, right, combiner)
    ensures m.symbolCount == left.symbolCount == right.symbolCount
  {
  }

  /** When the product is a machine, and what it then answers. */
  lemma ProductValid(left: RuleAutomaton, right: RuleAutomaton, combiner: Combiner, pairs: seq<StatePair>)
    requires Tabled(left) && Tabled(right) && left.symbolCount == right.symbolCount
    requires ListsPairs(pairs, left.StateCount(), right.StateCount())
    ensures var m := ProductOver(left, right, combiner, pairs);
      && (m.Valid() <==> left.symbolCount >= 2 && left.StateCount() > 0 && right.StateCount() > 0)
      && (m.Valid() ==>
        Declared(left).Valid() && Declared(right).Valid() && Composes(m, Declared(left), Declared(right), combiner))
  {
    hide Composes;
    DeclaredValid(left);
    DeclaredValid(right);
    var m := ProductOver(left, right, combiner, pairs);
    if left.symbolCount >= 2 && left.StateCount() > 0 && right.StateCount() > 0 {
      ProductComposes(Declared(left), Declared(right), combiner, pairs);
      assert m == ProductOver(Declared(left), Declared(right), combiner, pairs);
    }
  }

  lemma ComposesDeclared(m: RuleAutomaton, left: RuleAutomaton, right: RuleAutomaton, combiner: Combiner)
    requires m.Valid() && left.Valid() && right.Valid() && Declared(left).Valid() && Declared(right).Valid()
    requires Composes(m, Declared(left), Declared(right), combiner)
    ensures Composes(m, left, right, combiner)
  {
    hide Emit;
    forall w: Word | InAlphabet(w, m.symbolCount) && |w| > 0
      ensures Emit(m, w) == Merge(combiner, Emit(left, w), Emit(right, w))
    {
      DeclaredSame(left, w);
      DeclaredSame(right, w);
      assert Emit(m, w) == Merge(combiner, Emit(Declared(left), w), Emit(Declared(right), w));
    }
  }
}
