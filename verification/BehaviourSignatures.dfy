/**
 Collapsing proposals that behave alike (behaviour_signature.py). What a proposal presses
 on the recorded stream is an input here; the filter groups equal signatures and keeps the
 earliest of each group, and nothing a search could have found is lost.
 */
module BehaviourSignatures {
  import opened Prelude

  /** A proposal, whether `install` accepts it, and its presses on the recorded stream. */
  datatype Proposal = Proposal(kind: string, hasArtifact: bool, hasTemplate: bool, installs: bool, presses: seq<int>) {
    predicate Legal() {
      kind != "illegal_compose" && hasArtifact
    }

    /** `learns_before_evaluation`. */
    predicate LearnsBeforeEvaluation() {
      kind in {"invent", "and"} && !hasTemplate
    }

    predicate Trained() {
      Legal() && LearnsBeforeEvaluation()
    }

    predicate Signable() {
      Legal() && !LearnsBeforeEvaluation() && installs
    }

    predicate Unsignable() {
      !Legal() || (!LearnsBeforeEvaluation() && !installs)
    }
  }

  datatype EquivalenceClasses = EquivalenceClasses(
    representatives: seq<nat>,
    members: seq<seq<nat>>,
    signatures: seq<Option<seq<int>>>,
    unsignable: seq<nat>,
    trained: seq<nat>)

  /** Class `c` holds exactly the proposals its signature covers, or one trained proposal. */
  ghost predicate ClassExact(ps: seq<Proposal>, n: nat, classes: EquivalenceClasses, c: nat)
    requires n <= |ps| && |classes.members| == |classes.representatives| == |classes.signatures|
      && c < |classes.members|
  {
    var leader, group, signature := classes.representatives[c], classes.members[c], classes.signatures[c];
    && group != [] && group[0] == leader && Ascending(group) && leader < n
    && match signature
       case Some(presses) =>
         ps[leader].Signable() && forall i: nat :: i in group <==> i < n && ps[i].Signable() && ps[i].presses == presses
       case None =>
         ps[leader].Trained() && group == [leader]
  }

  /** The proposal has a class of its kind. */
  predicate Placed(ps: seq<Proposal>, classes: EquivalenceClasses, i: nat, c: nat)
    requires i < |ps|
  {
    && c < |classes.members| && c < |classes.signatures| && c < |classes.representatives|
    && i in classes.members[c]
    && classes.signatures[c] == if ps[i].Trained() then None else Some(ps[i].presses)
  }

  ghost predicate Housed(ps: seq<Proposal>, classes: EquivalenceClasses, i: nat)
    requires i < |ps|
  {
    exists c: nat :: Placed(ps, classes, i, c)
  }

  /** Every class is exact, and no two classes share a signature. */
  ghost predicate ClassesExact(ps: seq<Proposal>, n: nat, classes: EquivalenceClasses)
    requires n <= |ps|
  {
    && |classes.members| == |classes.representatives| == |classes.signatures|
    && Ascending(classes.representatives)
    && (forall c :: 0 <= c < |classes.members| ==> ClassExact(ps, n, classes, c))
    && (forall c, d :: 0 <= c < d < |classes.members| && classes.signatures[c].Some? ==>
      classes.signatures[c] != classes.signatures[d])
  }

  /** The two side lists name exactly the proposals of their kind, in order. */
  ghost predicate SidesExact(ps: seq<Proposal>, n: nat, unsignable: seq<nat>, trained: seq<nat>)
    requires n <= |ps|
  {
    && Ascending(unsignable) && (forall i: nat :: i in unsignable <==> i < n && ps[i].Unsignable())
    && Ascending(trained) && (forall i: nat :: i in trained <==> i < n && ps[i].Trained())
  }

  ghost predicate AllHoused(ps: seq<Proposal>, n: nat, classes: EquivalenceClasses)
    requires n <= |ps|
  {
    forall i: nat :: i < n && !ps[i].Unsignable() ==> Housed(ps, classes, i)
  }

  /** The first `n` proposals, partitioned: classes and unsignable proposals cover each of them once. */
  ghost predicate Partitioned(ps: seq<Proposal>, n: nat, classes: EquivalenceClasses)
    requires n <= |ps|
  {
    && ClassesExact(ps, n, classes)
    && SidesExact(ps, n, classes.unsignable, classes.trained)
    && AllHoused(ps, n, classes)
    && TotalMembers(classes.members) + |classes.unsignable| == n
  }

  function TotalMembers(members: seq<seq<nat>>): nat {
    if members == [] then 0 else TotalMembers(members[..|members| - 1]) + |members[|members| - 1]|
  }

  lemma {:induction false} TotalMembersGrow(members: seq<seq<nat>>, c: nat, group: seq<nat>)
    requires c < |members|
    ensures TotalMembers(members[c := group]) == TotalMembers(members) - |members[c]| + |group|
    decreases |members|
  {
    var updated := members[c := group];
    if c == |members| - 1 {
      assert updated[..|updated| - 1] == members[..|members| - 1];
    } else {
      TotalMembersGrow(members[..|members| - 1], c, group);
      assert updated[..|updated| - 1] == members[..|members| - 1][c := group];
    }
  }

  // ---------------------------------------------------------------- what a partition is

  /** No proposal is in two classes. */
  lemma ClassesDisjoint(ps: seq<Proposal>, n: nat, classes: EquivalenceClasses, c: nat, d: nat, i: nat)
    requires n <= |ps| && Partitioned(ps, n, classes) && c < d < |classes.members|
    ensures !(i in classes.members[c] && i in classes.members[d])
  {
    assert ClassExact(ps, n, classes, c) && ClassExact(ps, n, classes, d);
    assert classes.representatives[c] < classes.representatives[d];
  }

  /**
   Two proposals share a class exactly when both are signed and press alike, or they are the
   same trained one.
   */
  lemma SameClassSamePresses(ps: seq<Proposal>, n: nat, classes: EquivalenceClasses, i: nat, j: nat, c: nat)
    requires n <= |ps| && Partitioned(ps, n, classes) && c < |classes.members| && i in classes.members[c] && i < n
      && j < n
    ensures j in classes.members[c]
      <==> j == i || (ps[i].Signable() && ps[j].Signable() && ps[i].presses == ps[j].presses)
  {
    assert ClassExact(ps, n, classes, c);
  }

  /** A representative is the least index of its class. */
  lemma RepresentativeIsLeast(ps: seq<Proposal>, n: nat, classes: EquivalenceClasses, c: nat, i: nat)
    requires n <= |ps| && Partitioned(ps, n, classes) && c < |classes.members| && i in classes.members[c]
    ensures classes.representatives[c] in classes.members[c] && classes.representatives[c] <= i
  {
    assert ClassExact(ps, n, classes, c);
    var k :| 0 <= k < |classes.members[c]| && classes.members[c][k] == i;
    assert classes.members[c][0] == classes.representatives[c];
  }

  /** The outcome of executing a proposal depends on no more than its presses, unless it is trained first. */
  ghost predicate DependsOnPresses(ps: seq<Proposal>, passes: nat -> bool) {
    forall i: nat, j: nat ::
      i < |ps| && j < |ps| && ps[i].Signable() && ps[j].Signable() && ps[i].presses == ps[j].presses ==>
      passes(i) == passes(j)
  }

  /**
   The filter is lossless: the first proposal a search would accept is a representative, so
   the first accepted representative is the same proposal.
   */
  lemma FirstWinnerIsRepresentative(ps: seq<Proposal>, classes: EquivalenceClasses, passes: nat -> bool, winner: nat)
    requires Partitioned(ps, |ps|, classes) && DependsOnPresses(ps, passes)
    requires winner < |ps| && !ps[winner].Unsignable() && passes(winner)
    requires forall i: nat :: i < winner && !ps[i].Unsignable() ==> !passes(i)
    ensures winner in classes.representatives
    ensures forall r: nat :: r in classes.representatives && passes(r) ==> winner <= r
  {
    hide DependsOnPresses;
    assert Housed(ps, classes, winner);
    var c: nat :| Placed(ps, classes, winner, c);
    var leader := classes.representatives[c];
    RepresentativeIsLeast(ps, |ps|, classes, c, winner);
    assert ClassExact(ps, |ps|, classes, c);
    SameClassSamePresses(ps, |ps|, classes, winner, leader, c);
    if leader < winner {
      PassesAlike(ps, passes, leader, winner);
    }
    forall r: nat | r in classes.representatives && passes(r)
      ensures winner <= r
    {
      var d :| 0 <= d < |classes.representatives| && classes.representatives[d] == r;
      assert ClassExact(ps, |ps|, classes, d);
    }
  }

  lemma PassesAlike(ps: seq<Proposal>, passes: nat -> bool, i: nat, j: nat)
    requires DependsOnPresses(ps, passes) && i < |ps| && j < |ps|
    requires ps[i].Signable() && ps[j].Signable() && ps[i].presses == ps[j].presses
    ensures passes(i) == passes(j)
  {
  }

  // ---------------------------------------------------------------------- operations

  /** `representatives.index(leader)`. */
  method IndexOf(s: seq<nat>, x: nat) returns (k: nat)
    requires x in s
    ensures k < |s| && s[k] == x && x !in s[..k]
  {
    k := 0;
    while s[k] != x
      invariant k < |s| && x !in s[..k] && x in s[k..]
      decreases |s| - k
    {
      k := k + 1;
    }
  }

  /** `seen` maps each signature to the representative of its class. */
  ghost predicate Indexed(seen: map<seq<int>, nat>, classes: EquivalenceClasses) {
    && |classes.representatives| == |classes.signatures|
    && (forall c :: 0 <= c < |classes.signatures| && classes.signatures[c].Some? ==>
      classes.signatures[c].value in seen && seen[classes.signatures[c].value] == classes.representatives[c])
    && (forall s :: s in seen ==> exists c :: 0 <= c < |classes.signatures| && classes.signatures[c] == Some(s))
  }

  /**
   `partition_by_behaviour`: it raises exactly when the recorded stream is empty and some
   proposal has to be signed on it; otherwise the proposals are partitioned.
   */
  method PartitionByBehaviour(ps: seq<Proposal>, streamLength: nat) returns (r: Result<EquivalenceClasses>)
    ensures r.Failure? <==> streamLength == 0 && exists i :: 0 <= i < |ps| && ps[i].Signable()
    ensures r.Success? ==> Partitioned(ps, |ps|, r.value)
    ensures r.Success? ==> forall i: nat :: i < |ps| ==>
      && (i in r.value.trained <==> ps[i].hasArtifact && !ps[i].hasTemplate && ps[i].kind in {"invent", "and"})
      && (i in r.value.unsignable <==>
            || ps[i].kind == "illegal_compose" || !ps[i].hasArtifact
            || (!ps[i].installs && (ps[i].hasTemplate || ps[i].kind !in {"invent", "and"})))
  {
    hide Partitioned, Indexed;
    var seen: map<seq<int>, nat> := map[];
    var classes := EquivalenceClasses([], [], [], [], []);
    StartPartition(ps);
    for index: nat := 0 to |ps|
      invariant Partitioned(ps, index, classes) && Indexed(seen, classes)
      invariant streamLength == 0 ==> forall i :: 0 <= i < index ==> !ps[i].Signable()
    {
      var proposal := ps[index];
      if proposal.kind == "illegal_compose" || !proposal.hasArtifact {
        AddUnsignable(ps, index, classes, seen, classes.(unsignable := classes.unsignable + [index]));
        classes := classes.(unsignable := classes.unsignable + [index]);
        continue;
      }
      if proposal.LearnsBeforeEvaluation() {
        var singleton := EquivalenceClasses(classes.representatives + [index], classes.members + [[index]],
          classes.signatures + [None],
          classes.unsignable, classes.trained + [index]);
        AddClass(ps, index, classes, seen, None, singleton);
        classes := singleton;
        continue;
      }
      if !proposal.installs {
        AddUnsignable(ps, index, classes, seen, classes.(unsignable := classes.unsignable + [index]));
        classes := classes.(unsignable := classes.unsignable + [index]);
        continue;
      }
      if streamLength == 0 {
        return Failure("a behaviour signature needs a recorded stream");
      }
      var signature := proposal.presses;
      if signature !in seen {
        var newest := EquivalenceClasses(classes.representatives + [index], classes.members + [[index]],
          classes.signatures + [Some(signature)],
          classes.unsignable, classes.trained);
        AddClass(ps, index, classes, seen, Some(signature), newest);
        seen := seen[signature := index];
        classes := newest;
        continue;
      }
      LeaderKnown(ps, index, classes, seen, signature);
      var c := IndexOf(classes.representatives, seen[signature]);
      var group: seq<nat> := classes.members[c] + [index];
      AddMember(ps, index, classes, seen, c, classes.(members := classes.members[c := group]));
      classes := classes.(members := classes.members[c := group]);
    }
    SidesByFields(ps, classes);
    return Success(classes);
  }

  /** Who is trained and who is passed through, by the fields of a proposal. */
  lemma SidesByFields(ps: seq<Proposal>, classes: EquivalenceClasses)
    requires Partitioned(ps, |ps|, classes)
    ensures forall i: nat :: i < |ps| ==>
      && (i in classes.trained <==> ps[i].hasArtifact && !ps[i].hasTemplate && ps[i].kind in {"invent", "and"})
      && (i in classes.unsignable <==>
            || ps[i].kind == "illegal_compose" || !ps[i].hasArtifact
            || (!ps[i].installs && (ps[i].hasTemplate || ps[i].kind !in {"invent", "and"})))
  {
    hide ClassesExact, AllHoused;
    assert "illegal_compose"[1] == 'l' && "invent"[1] == 'n' && "and"[1] == 'n';
  }

  lemma StartPartition(ps: seq<Proposal>)
    ensures Partitioned(ps, 0, EquivalenceClasses([], [], [], [], []))
    ensures Indexed(map[], EquivalenceClasses([], [], [], [], []))
  {
  }

  lemma LeaderKnown(ps: seq<Proposal>, n: nat, classes: EquivalenceClasses, seen: map<seq<int>, nat>,
      signature: seq<int>)
    requires n <= |ps| && Partitioned(ps, n, classes) && Indexed(seen, classes) && signature in seen
    ensures seen[signature] in classes.representatives
    ensures |classes.members| == |classes.representatives|
  {
  }

  /** A class the next proposal does not belong to stays exact. */
  lemma ClassStays(ps: seq<Proposal>, n: nat, classes: EquivalenceClasses, next: EquivalenceClasses, c: nat)
    requires n < |ps| && |classes.members| == |classes.representatives| == |classes.signatures| && c < |classes.members|
    requires |next.members| == |next.representatives| == |next.signatures| && c < |next.members|
    requires next.members[c] == classes.members[c] && next.representatives[c] == classes.representatives[c]
      && next.signatures[c] == classes.signatures[c]
    requires ClassExact(ps, n, classes, c)
    requires classes.signatures[c].Some? ==> !(ps[n].Signable() && ps[n].presses == classes.signatures[c].value)
    ensures ClassExact(ps, n + 1, next, c)
  {
  }

  /** The class of the next proposal's signature takes it as its last member. */
  lemma ClassGrows(ps: seq<Proposal>, n: nat, classes: EquivalenceClasses, next: EquivalenceClasses, c: nat)
    requires n < |ps| && |classes.members| == |classes.representatives| == |classes.signatures| && c < |classes.members|
    requires |next.members| == |next.representatives| == |next.signatures| && c < |next.members|
    requires next.members[c] == classes.members[c] + [n] && next.representatives[c] == classes.representatives[c]
      && next.signatures[c] == classes.signatures[c]
    requires ClassExact(ps, n, classes, c) && ps[n].Signable() && classes.signatures[c] == Some(ps[n].presses)
    ensures ClassExact(ps, n + 1, next, c)
  {
    var group, grown := classes.members[c], next.members[c];
    assert forall i :: 0 <= i < |group| ==> group[i] in group;
    assert grown[0] == group[0];
    forall i: nat
      ensures i in grown <==> i in group || i == n
    {
      assert grown[|group|] == n;
    }
  }

  lemma SidesNext(ps: seq<Proposal>, n: nat, unsignable: seq<nat>, trained: seq<nat>)
    requires n < |ps| && SidesExact(ps, n, unsignable, trained)
    ensures ps[n].Unsignable() ==> SidesExact(ps, n + 1, unsignable + [n], trained)
    ensures ps[n].Trained() ==> SidesExact(ps, n + 1, unsignable, trained + [n])
    ensures ps[n].Signable() ==> SidesExact(ps, n + 1, unsignable, trained)
  {
    assert forall i :: 0 <= i < |unsignable| ==> unsignable[i] in unsignable;
    assert forall i :: 0 <= i < |trained| ==> trained[i] in trained;
  }

  /** Proposals keep their class when classes only grow. */
  lemma HousedStays(ps: seq<Proposal>, n: nat, classes: EquivalenceClasses, next: EquivalenceClasses)
    requires n <= |ps| && AllHoused(ps, n, classes)
    requires |next.members| >= |classes.members| && classes.signatures <= next.signatures
      && classes.representatives <= next.representatives
    requires forall c :: 0 <= c < |classes.members| ==> classes.members[c] <= next.members[c]
    ensures AllHoused(ps, n, next)
  {
    forall i: nat | i < n && !ps[i].Unsignable()
      ensures Housed(ps, next, i)
    {
      assert Housed(ps, classes, i);
      var c: nat :| Placed(ps, classes, i, c);
      assert Placed(ps, next, i, c);
    }
  }

  lemma HousedNext(ps: seq<Proposal>, n: nat, classes: EquivalenceClasses, c: nat)
    requires n < |ps| && AllHoused(ps, n, classes) && Placed(ps, classes, n, c)
    ensures AllHoused(ps, n + 1, classes)
  {
    hide Placed;
    assert Housed(ps, classes, n);
  }

  lemma AddUnsignable(ps: seq<Proposal>, n: nat, classes: EquivalenceClasses, seen: map<seq<int>, nat>,
      next: EquivalenceClasses)
    requires n < |ps| && Partitioned(ps, n, classes) && Indexed(seen, classes) && ps[n].Unsignable()
    requires next == classes.(unsignable := classes.unsignable + [n])
    ensures Partitioned(ps, n + 1, next) && Indexed(seen, next)
  {
    hide ClassExact, SidesExact, Housed;
    var after := n + 1;
    forall c | 0 <= c < |next.members|
      ensures ClassExact(ps, after, next, c)
    {
      ClassStays(ps, n, classes, next, c);
    }
    SidesNext(ps, n, classes.unsignable, classes.trained);
    HousedStays(ps, n, classes, next);
  }

  lemma AddClass(ps: seq<Proposal>, n: nat, classes: EquivalenceClasses, seen: map<seq<int>, nat>,
      signature: Option<seq<int>>, next: EquivalenceClasses)
    requires n < |ps| && Partitioned(ps, n, classes) && Indexed(seen, classes)
    requires if signature.Some? then ps[n].Signable() && signature.value == ps[n].presses
      && signature.value !in seen else ps[n].Trained()
    requires next.representatives == classes.representatives + [n] && next.members == classes.members + [[n]]
    requires next.signatures == classes.signatures + [signature] && next.unsignable == classes.unsignable
    requires next.trained == if signature.Some? then classes.trained else classes.trained + [n]
    ensures Partitioned(ps, n + 1, next)
    ensures Indexed(if signature.Some? then seen[signature.value := n] else seen, next)
  {
    hide SidesExact, Housed, AllHoused;
    NewClasses(ps, n, classes, seen, signature, next);
    NewIndex(ps, n, classes, seen, signature, next);
    SidesNext(ps, n, classes.unsignable, classes.trained);
    HousedStays(ps, n, classes, next);
    HousedNext(ps, n, next, |classes.members|);
    assert next.members[..|next.members| - 1] == classes.members;
  }

  lemma NewClasses(ps: seq<Proposal>, n: nat, classes: EquivalenceClasses, seen: map<seq<int>, nat>,
      signature: Option<seq<int>>, next: EquivalenceClasses)
    requires n < |ps| && ClassesExact(ps, n, classes) && Indexed(seen, classes) && AllHoused(ps, n, classes)
    requires if signature.Some? then ps[n].Signable() && signature.value == ps[n].presses
      && signature.value !in seen else ps[n].Trained()
    requires next.representatives == classes.representatives + [n] && next.members == classes.members + [[n]]
    requires next.signatures == classes.signatures + [signature]
    ensures ClassesExact(ps, n + 1, next)
  {
    var after := n + 1;
    forall c | 0 <= c < |next.members|
      ensures ClassExact(ps, after, next, c)
    {
      if c < |classes.members| {
        assert ClassExact(ps, n, classes, c);
        ClassStays(ps, n, classes, next, c);
      } else {
        FirstOfClass(ps, n, classes, seen, signature, next);
      }
    }
    LeadersBefore(ps, n, classes);
  }

  lemma LeadersBefore(ps: seq<Proposal>, n: nat, classes: EquivalenceClasses)
    requires n <= |ps| && ClassesExact(ps, n, classes)
    ensures forall c :: 0 <= c < |classes.representatives| ==> classes.representatives[c] < n
  {
    forall c | 0 <= c < |classes.representatives|
      ensures classes.representatives[c] < n
    {
      assert ClassExact(ps, n, classes, c);
    }
  }

  /** A signature not seen before belongs to no earlier proposal, so its class starts as a singleton. */
  lemma FirstOfClass(ps: seq<Proposal>, n: nat, classes: EquivalenceClasses, seen: map<seq<int>, nat>,
      signature: Option<seq<int>>, next: EquivalenceClasses)
    requires n < |ps| && ClassesExact(ps, n, classes) && Indexed(seen, classes) && AllHoused(ps, n, classes)
    requires if signature.Some? then ps[n].Signable() && signature.value == ps[n].presses
      && signature.value !in seen else ps[n].Trained()
    requires next.representatives == classes.representatives + [n] && next.members == classes.members + [[n]]
    requires next.signatures == classes.signatures + [signature]
    ensures ClassExact(ps, n + 1, next, |classes.members|)
  {
    if signature.Some? {
      forall i: nat | i < n && ps[i].Signable()
        ensures ps[i].presses != signature.value
      {
        assert Housed(ps, classes, i);
        var c: nat :| Placed(ps, classes, i, c);
        assert classes.signatures[c].value in seen;
      }
    }
  }

  lemma NewIndex(ps: seq<Proposal>, n: nat, classes: EquivalenceClasses, seen: map<seq<int>, nat>,
      signature: Option<seq<int>>, next: EquivalenceClasses)
    requires n < |ps| && Indexed(seen, classes) && (signature.Some? ==> signature.value !in seen)
    requires next.representatives == classes.representatives + [n]
      && next.signatures == classes.signatures + [signature]
    ensures Indexed(if signature.Some? then seen[signature.value := n] else seen, next)
  {
    forall s | s in seen
      ensures exists c :: 0 <= c < |next.signatures| && next.signatures[c] == Some(s)
    {
      var c :| 0 <= c < |classes.signatures| && classes.signatures[c] == Some(s);
      assert next.signatures[c] == Some(s);
    }
    if signature.Some? {
      assert next.signatures[|classes.signatures|] == Some(signature.value);
    }
  }

  lemma MemberClass(ps: seq<Proposal>, n: nat, classes: EquivalenceClasses, seen: map<seq<int>, nat>, c: nat,
      presses: seq<int>)
    requires n <= |ps| && ClassesExact(ps, n, classes) && Indexed(seen, classes) && presses in seen
    requires c < |classes.representatives| && classes.representatives[c] == seen[presses]
    ensures classes.signatures[c] == Some(presses)
  {
    var d :| 0 <= d < |classes.signatures| && classes.signatures[d] == Some(presses);
    assert classes.representatives[d] == classes.representatives[c];
  }

  lemma AddMember(ps: seq<Proposal>, n: nat, classes: EquivalenceClasses, seen: map<seq<int>, nat>, c: nat,
      next: EquivalenceClasses)
    requires n < |ps| && Partitioned(ps, n, classes) && Indexed(seen, classes) && ps[n].Signable()
      && ps[n].presses in seen
    requires c < |classes.representatives| == |classes.members| && classes.representatives[c] == seen[ps[n].presses]
    requires |next.members| == |classes.members| && next == classes.(members := next.members)
    requires next.members[c] == classes.members[c] + [n]
    requires forall d :: 0 <= d < |classes.members| && d != c ==> next.members[d] == classes.members[d]
    ensures Partitioned(ps, n + 1, next) && Indexed(seen, next)
  {
    hide SidesExact, Housed, AllHoused, ClassExact;
    MemberClass(ps, n, classes, seen, c, ps[n].presses);
    var after := n + 1;
    forall d | 0 <= d < |next.members|
      ensures ClassExact(ps, after, next, d)
    {
      if d == c {
        ClassGrows(ps, n, classes, next, c);
      } else {
        ClassStays(ps, n, classes, next, d);
      }
    }
    SidesNext(ps, n, classes.unsignable, classes.trained);
    HousedStays(ps, n, classes, next);
    assert Placed(ps, next, n, c) by {
      assert next.members[c][|classes.members[c]|] == n;
    }
    HousedNext(ps, n, next, c);
    TotalMembersGrow(classes.members, c, next.members[c]);
    assert next.members == classes.members[c := next.members[c]];
  }

  /** `representative_of`: the earliest proposal pressing like `index`, or none if it was never signed. */
  method RepresentativeOf(ps: seq<Proposal>, classes: EquivalenceClasses, index: nat) returns (leader: Option<nat>)
    requires Partitioned(ps, |ps|, classes)
    ensures leader.None? <==> index >= |ps| || ps[index].Unsignable()
    ensures leader.Some? && ps[index].Trained() ==> leader.value == index
    ensures leader.Some? && ps[index].Signable() ==>
      && leader.value <= index && ps[leader.value].Signable() && ps[leader.value].presses == ps[index].presses
      && forall j: nat :: j < leader.value ==> !(ps[j].Signable() && ps[j].presses == ps[index].presses)
  {
    for c: nat := 0 to |classes.members|
      invariant forall d :: 0 <= d < c ==> index !in classes.members[d]
    {
      if index in classes.members[c] {
        assert ClassExact(ps, |ps|, classes, c);
        RepresentativeIsLeast(ps, |ps|, classes, c, index);
        forall j: nat | j < classes.representatives[c]
          ensures j !in classes.members[c]
        {
          if j in classes.members[c] {
            RepresentativeIsLeast(ps, |ps|, classes, c, j);
          }
        }
        return Some(classes.representatives[c]);
      }
    }
    return None;
  }
}
