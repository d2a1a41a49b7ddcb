/** Assignment requests with others in flight: a whole request is its steps, and the creation time that an update writes
    back. */
module AssignmentTimes {
  import opened Wrappers
  import opened Text
  import opened PolicyIds
  import opened Elastic
  import opened Policies
  import opened PolicyGroups
  import opened Assignments
  import opened System
  import CurrentVersions

  // ----- a whole request is its steps -----

  function CreateSteps(w: World, c: nat, a: PolicyAssignment, now: Time, valid: Validator): World {
    Apply(Apply(Apply(w, LookUpForCreate(c, a), valid), CheckTargets(c), valid), StoreAssignment(c, now), valid)
  }

  function UpdateLead(w: World, c: nat, a: PolicyAssignment, valid: Validator): World {
    Apply(Apply(w, LookUpForUpdate(c, a), valid), CheckTargets(c), valid)
  }

  lemma CreateIsItsSteps(w: World, c: nat, a: PolicyAssignment, now: Time, valid: Validator)
    requires c !in w.calls
    ensures CreateSteps(w, c, a, now, valid) ==
            w.(assignments := CreatedAssignment(w.pol.docs, w.groups, w.assignments, a, now).0)
  {
    hide ParsePolicyVersionId, PolicyAssignmentId, TargetsOk, AssignedTo;
    var w1 := LookUpAssignment(w, c, false, a);
    assert Apply(w, LookUpForCreate(c, a), valid) == w1;
    TargetsAndStore(w1, c, now, valid);
    assert w1 != w ==> w1.calls - {c} == w.calls;
  }

  lemma TargetsAndStore(w: World, c: nat, now: Time, valid: Validator)
    ensures var w' := Apply(Apply(w, CheckTargets(c), valid), StoreAssignment(c, now), valid);
            (c !in w.calls ==> w' == w) &&
            (c in w.calls && w.calls[c].Checking? ==>
               w'.calls == w.calls - {c} && w' == w.(assignments := w'.assignments, calls := w'.calls) &&
               var Checking(isUpdate, policyId, a) := w.calls[c];
               var stored := if isUpdate then a.(updated := Some(now)) else Stamped(a, policyId, now);
               w'.assignments ==
               if TargetsOk(w.pol.docs, w.groups, policyId, a) && (isUpdate || stored.id !in w.assignments)
               then Overwritten(w.assignments, stored.id, stored, None) else w.assignments)
  {
    hide ParsePolicyVersionId, PolicyAssignmentId, TargetsOk;
    var w1 := Apply(w, CheckTargets(c), valid);
    if c in w.calls && w.calls[c].Checking? {
      assert w1 == CheckTargetsStep(w, c);
      assert w1.calls - {c} == w.calls - {c};
      assert c in w1.calls ==> Apply(w1, StoreAssignment(c, now), valid) == StoreStep(w1, c, now);
    }
  }

  lemma UpdateIsItsSteps(w: World, c: nat, a: PolicyAssignment, now: Time, valid: Validator)
    requires c !in w.calls
    ensures Apply(UpdateLead(w, c, a, valid), StoreAssignment(c, now), valid) ==
            w.(assignments := UpdatedAssignment(w.pol.docs, w.groups, w.assignments, a, now).0)
  {
    hide ParsePolicyVersionId, PolicyAssignmentId, TargetsOk, AssignedTo;
    var w1 := LookUpAssignment(w, c, true, a);
    assert Apply(w, LookUpForUpdate(c, a), valid) == w1;
    TargetsAndStore(w1, c, now, valid);
    assert w1 != w ==> w1.calls - {c} == w.calls;
  }

  // ----- which steps change a creation time -----

  /** The store of an update that looked the assignment up when it had another creation time. */
  predicate RestoresTime(w: World, l: Label, k: string)
    requires k in w.assignments
  {
    && l.StoreAssignment? && l.c in w.calls && w.calls[l.c].Storing? && w.calls[l.c].isUpdate
    && w.calls[l.c].assignment.id == k && w.calls[l.c].assignment.created != w.assignments[k].source.created
  }

  lemma OthersKeepAssignments(w: World, l: Label, valid: Validator)
    requires !l.DeleteAssignment? && !(l.StoreAssignment? && l.c in w.calls && w.calls[l.c].Storing?)
    ensures Apply(w, l, valid).assignments == w.assignments
  {
    hide WriteGroupStep, CheckTargetsStep, FetchStep, LookUpPolicyStep, JoinStep, CheckOpaStep, PutOpaStep, AskStep,
      LookUpAssignment, ReadGroupStep, CreateGroupStep, PolicySteps.Apply, PolicyAssignmentId;
  }

  /** Exactly one kind of step changes the creation time of an assignment that stays: the store of an update that looked
      it up under another one. And exactly a deletion removes it. */
  lemma CreationTimeChangesExactly(w: World, l: Label, valid: Validator, k: string)
    requires k in w.assignments
    ensures var w' := Apply(w, l, valid);
            (k !in w'.assignments <==> l == DeleteAssignment(k)) &&
            (k in w'.assignments && w'.assignments[k].source.created != w.assignments[k].source.created
             <==> RestoresTime(w, l, k))
  {
    if l.StoreAssignment? && l.c in w.calls && w.calls[l.c].Storing? {
      hide PolicyAssignmentId;
      assert Apply(w, l, valid) == StoreStep(w, l.c, l.now);
    } else if !l.DeleteAssignment? {
      OthersKeepAssignments(w, l, valid);
    }
  }

  /** The step stores an assignment under the id: a create, or an update that looked it up before it was deleted. */
  predicate StoresUnder(w: World, l: Label, k: string) {
    && l.StoreAssignment? && l.c in w.calls && w.calls[l.c].Storing?
    && var Storing(isUpdate, policyId, a) := w.calls[l.c];
       k == if isUpdate then a.id else PolicyAssignmentId(policyId, a.policyGroup)
  }

  lemma AssignmentAppearsExactly(w: World, l: Label, valid: Validator, k: string)
    requires k !in w.assignments
    ensures k in Apply(w, l, valid).assignments <==> StoresUnder(w, l, k)
  {
    if l.StoreAssignment? && l.c in w.calls && w.calls[l.c].Storing? {
      hide PolicyAssignmentId;
      assert Apply(w, l, valid) == StoreStep(w, l.c, l.now);
    } else if !l.DeleteAssignment? {
      OthersKeepAssignments(w, l, valid);
    }
  }

  // ----- from when on it stays -----

  predicate HoldsOther(call: Call, k: string, time: Option<Time>) {
    && (call.Checking? || call.Storing?) && call.isUpdate
    && call.assignment.id == k && call.assignment.created != time
  }

  /** A stored assignment of which no update in flight holds another creation time. */
  ghost predicate TimeAgreed(w: World, k: string) {
    && k in w.assignments
    && forall c {:trigger w.calls[c]} | c in w.calls :: !HoldsOther(w.calls[c], k, w.assignments[k].source.created)
  }

  predicate Looks(l: Label) {
    l.LookUpForCreate? || l.LookUpForUpdate? || l.CheckTargets?
  }

  lemma LooksHoldTheTime(w: World, l: Label, valid: Validator, k: string, d: nat)
    requires TimeAgreed(w, k) && Looks(l) && d in Apply(w, l, valid).calls
    ensures !HoldsOther(Apply(w, l, valid).calls[d], k, w.assignments[k].source.created)
  {
    hide ParsePolicyVersionId, PolicyAssignmentId, TargetsOk, AssignedTo;
    assert d in w.calls ==> !HoldsOther(w.calls[d], k, w.assignments[k].source.created);
    if l.CheckTargets? && l.c in w.calls {
      assert !HoldsOther(w.calls[l.c], k, w.assignments[k].source.created);
    }
  }

  /** No other step starts to check or to store an assignment. */
  lemma OthersHoldNothing(w: World, l: Label, valid: Validator, d: nat)
    requires !Looks(l) && d in Apply(w, l, valid).calls
    ensures var call := Apply(w, l, valid).calls[d];
            call.Checking? || call.Storing? ==> d in w.calls && call == w.calls[d]
  {
    hide PolicySteps.Apply, CreatedGroup, FindGroup, FindVersion, FindPolicy, Join, ParsePolicyVersionId,
      CheckTargetsStep, LookUpAssignment, PolicyAssignmentId;
  }

  lemma AgreementStep(w: World, l: Label, valid: Validator, k: string)
    requires TimeAgreed(w, k) && l != DeleteAssignment(k)
    ensures var w' := Apply(w, l, valid);
            TimeAgreed(w', k) && w'.assignments[k].source.created == w.assignments[k].source.created
  {
    hide Apply;
    CreationTimeChangesExactly(w, l, valid, k);
    var w' := Apply(w, l, valid);
    forall d | d in w'.calls ensures !HoldsOther(w'.calls[d], k, w.assignments[k].source.created) {
      if Looks(l) {
        LooksHoldTheTime(w, l, valid, k, d);
      } else {
        OthersHoldNothing(w, l, valid, d);
      }
    }
  }

  /** Under every interleaving: once no update in flight holds another creation time of an assignment, the assignment
      keeps its creation time until it is deleted. */
  lemma {:induction false} CreationTimeStays(labels: seq<Label>, m: nat, k: string, valid: Validator)
    requires m <= |labels| && TimeAgreed(Run(labels[..m], valid), k)
    requires forall i | m <= i < |labels| :: labels[i] != DeleteAssignment(k)
    ensures var before, after := Run(labels[..m], valid).assignments, Run(labels, valid).assignments;
            TimeAgreed(Run(labels, valid), k) && after[k].source.created == before[k].source.created
  {
    hide Apply, HoldsOther;
    if m == |labels| {
      assert labels[..m] == labels;
    } else {
      var n := |labels| - 1;
      assert labels[..n][..m] == labels[..m];
      CreationTimeStays(labels[..n], m, k, valid);
      AgreementStep(Run(labels[..n], valid), labels[n], valid, k);
    }
  }

  // ----- how an old one comes back -----

  /** An update of a stored assignment and a create for the same policy and group, both of which pass the checks on
      what they refer to. */
  predicate BothPass(w: World, update: PolicyAssignment, create: PolicyAssignment) {
    && AssignedTo(update).Ok? && AssignedTo(create) == AssignedTo(update) && create.policyGroup == update.policyGroup
    && CheckUpdate(w.assignments, AssignedTo(update).value, update).Ok?
    && TargetsOk(w.pol.docs, w.groups, AssignedTo(update).value, update)
    && TargetsOk(w.pol.docs, w.groups, AssignedTo(update).value, create)
  }

  /** The update up to its store; meanwhile the assignment is deleted and created again. */
  function Recreated(w: World, c: nat, d: nat, update: PolicyAssignment, create: PolicyAssignment, now: Time,
                     valid: Validator): World
  {
    var w1 := Apply(UpdateLead(w, c, update, valid), DeleteAssignment(update.id), valid);
    CreateSteps(w1, d, create, now, valid)
  }

  lemma LeadGives(w: World, c: nat, update: PolicyAssignment, valid: Validator)
    requires c !in w.calls && AssignedTo(update).Ok?
    requires CheckUpdate(w.assignments, AssignedTo(update).value, update).Ok?
    requires TargetsOk(w.pol.docs, w.groups, AssignedTo(update).value, update)
    ensures update.id in w.assignments
    ensures var policyId, stored := AssignedTo(update).value, w.assignments[update.id].source;
            UpdateLead(w, c, update, valid) ==
            Become(w, c, Storing(true, policyId, update.(created := stored.created)))
  {
    hide ParsePolicyVersionId, AssignedTo;
    var policyId, checked := AssignedTo(update).value, update.(created := w.assignments[update.id].source.created);
    var w1 := LookUpAssignment(w, c, true, update);
    assert w1 == Become(w, c, Checking(true, policyId, checked));
    assert Apply(w, LookUpForUpdate(c, update), valid) == w1;
    assert TargetsOk(w.pol.docs, w.groups, policyId, checked);
    assert CheckTargetsStep(w1, c) == Become(w1, c, Storing(true, policyId, checked));
    assert Apply(w1, CheckTargets(c), valid) == CheckTargetsStep(w1, c);
  }

  lemma CreateGoesThrough(w: World, a: PolicyAssignment, now: Time)
    requires AssignedTo(a).Ok? && TargetsOk(w.pol.docs, w.groups, AssignedTo(a).value, a)
    requires PolicyAssignmentId(AssignedTo(a).value, a.policyGroup) !in w.assignments
    ensures var k := PolicyAssignmentId(AssignedTo(a).value, a.policyGroup);
            CreatedAssignment(w.pol.docs, w.groups, w.assignments, a, now).0 ==
            Overwritten(w.assignments, k, Stamped(a, AssignedTo(a).value, now), None)
  {
    hide AssignedTo;
  }

  lemma RecreatedGives(w: World, c: nat, d: nat, update: PolicyAssignment, create: PolicyAssignment, now: Time,
                       valid: Validator)
    requires c !in w.calls && d !in w.calls && c != d && BothPass(w, update, create)
    requires update.id == PolicyAssignmentId(AssignedTo(update).value, update.policyGroup)
    ensures var k, policyId := update.id, AssignedTo(update).value;
            k in w.assignments &&
            Recreated(w, c, d, update, create, now, valid) ==
            Become(w.(assignments := Overwritten(w.assignments - {k}, k, Stamped(create, policyId, now), None)), c,
                   Storing(true, policyId, update.(created := w.assignments[k].source.created)))
  {
    LeadGives(w, c, update, valid);
    hide AssignedTo, PolicyAssignmentId, TargetsOk, CheckUpdate, UpdateLead, CreateSteps, CreatedAssignment;
    var w0, k := UpdateLead(w, c, update, valid), update.id;
    var w1 := w0.(assignments := w0.assignments - {k});
    assert Apply(w0, DeleteAssignment(k), valid) == w1;
    hide Apply;
    CreateIsItsSteps(w1, d, create, now, valid);
    CreateGoesThrough(w1, create, now);
  }

  /** In every state the code can be in, with any other calls in flight: an assignment deleted and created again while
      an update of it is in flight gets the creation time it had before its deletion. */
  lemma OldTimeReturns(w: World, c: nat, d: nat, update: PolicyAssignment, create: PolicyAssignment, now: Time,
                       later: Time, valid: Validator)
    requires Inv(w) && c !in w.calls && d !in w.calls && c != d && BothPass(w, update, create)
    ensures var w1, k := Recreated(w, c, d, update, create, now, valid), update.id;
            var w2 := Apply(w1, StoreAssignment(c, later), valid);
            k in w.assignments && k in w1.assignments && k in w2.assignments &&
            w1.assignments[k].source.created == Some(now) &&
            w2.assignments[k].source.created == w.assignments[k].source.created &&
            (RestoresTime(w1, StoreAssignment(c, later), k) <==> w.assignments[k].source.created != Some(now))
  {
    UpdateLookUp(w, update, AssignedTo(update).value);
    hide Inv, AssignedTo, PolicyAssignmentId, BothPass, Recreated;
    RecreatedGives(w, c, d, update, create, now, valid);
    var w1 := Recreated(w, c, d, update, create, now, valid);
    assert Apply(w1, StoreAssignment(c, later), valid) == StoreStep(w1, c, later);
  }

  // ----- a run that shows it -----

  lemma {:induction false} RunOneMore(labels: seq<Label>, l: Label, valid: Validator)
    requires AllAddressed(labels) && Addressed(l)
    ensures Run(labels + [l], valid) == Apply(Run(labels, valid), l, valid) && AllAddressed(labels + [l])
  {
    assert (labels + [l])[..|labels|] == labels;
  }

  lemma RunCreate(labels: seq<Label>, c: nat, a: PolicyAssignment, now: Time, valid: Validator)
    returns (more: seq<Label>)
    requires AllAddressed(labels)
    ensures AllAddressed(more) && Run(more, valid) == CreateSteps(Run(labels, valid), c, a, now, valid)
  {
    hide Run, Apply;
    RunOneMore(labels, LookUpForCreate(c, a), valid);
    RunOneMore(labels + [LookUpForCreate(c, a)], CheckTargets(c), valid);
    more := labels + [LookUpForCreate(c, a)] + [CheckTargets(c)];
    RunOneMore(more, StoreAssignment(c, now), valid);
    more := more + [StoreAssignment(c, now)];
  }

  lemma RunRecreated(labels: seq<Label>, c: nat, d: nat, update: PolicyAssignment, create: PolicyAssignment, now: Time,
                     valid: Validator)
    returns (more: seq<Label>)
    requires AllAddressed(labels)
    ensures AllAddressed(more)
    ensures Run(more, valid) == Recreated(Run(labels, valid), c, d, update, create, now, valid)
  {
    hide Run, Apply, CreateSteps;
    RunOneMore(labels, LookUpForUpdate(c, update), valid);
    RunOneMore(labels + [LookUpForUpdate(c, update)], CheckTargets(c), valid);
    more := labels + [LookUpForUpdate(c, update)] + [CheckTargets(c)];
    RunOneMore(more, DeleteAssignment(update.id), valid);
    more := RunCreate(more + [DeleteAssignment(update.id)], d, create, now, valid);
  }

  /** A policy and a group that can be created, both live. */
  predicate Creatable(policy: Policy, group: PolicyGroup, valid: Validator) {
    && policy.id != "" && DotFree(policy.id) && SlashFree(policy.id) && policy.name != "" && !policy.deleted
    && policy.entity.Some? && Accepts(valid, policy.entity.value.regoContent)
    && ValidGroupName(group.name) && !group.deleted
  }

  /** The assignment of the policy's first version to the group. */
  function FirstAssignment(policy: Policy, group: PolicyGroup): PolicyAssignment {
    PolicyAssignment(
      PolicyAssignmentId(policy.id, group.name), PolicyVersionId(policy.id, 1), group.name, None, None)
  }

  lemma FirstIsAssigned(policy: Policy, group: PolicyGroup)
    requires DotFree(policy.id) && group.name != ""
    ensures AssignedTo(FirstAssignment(policy, group)) == Ok(policy.id)
  {
    ParseUndoesVersionId(policy.id, 1);
  }

  /** The policy and the group alone. */
  lemma BothCreated(policy: Policy, group: PolicyGroup, valid: Validator)
    requires Creatable(policy, group, valid)
    ensures var labels := [PolicyLabel(PolicySteps.Create(policy, policy.id, 0)), CreateGroup(group, 0)];
            var w := Run(labels, valid);
            AllAddressed(labels) && w.calls == map[] && w.assignments == map[] &&
            TargetsOk(w.pol.docs, w.groups, policy.id, FirstAssignment(policy, group))
  {
    var first, second := PolicyLabel(PolicySteps.Create(policy, policy.id, 0)), CreateGroup(group, 0);
    CurrentVersions.CreatedRun(policy, policy.id, 0, valid);
    CurrentVersions.RunOneMore([], first.l, valid);
    assert [] + [first.l] == [first.l];
    RunOneMore([], first, valid);
    assert [] + [first] == [first];
    RunOneMore([first], second, valid);
    assert [first] + [second] == [first, second];
    hide PolicySteps.Apply, PolicySteps.Inv, PolicyVersionId, PolicyCounterId, ValidGroupName, Accepts;
  }

  lemma ParsedFirst(policy: Policy)
    requires DotFree(policy.id)
    ensures ParsedPolicy(PolicyVersionId(policy.id, 1)) == policy.id
  {
    ParseUndoesVersionId(policy.id, 1);
  }

  /** A run at the end of which the assignment has the creation time 1, and the store of an update gives it another. */
  ghost predicate EndsBeforeOldTime(labels: seq<Label>, k: string, valid: Validator) {
    var w := Run(labels, valid);
    && AllAddressed(labels) && k in w.assignments && w.assignments[k].source.created == Some(1)
    && RestoresTime(w, StoreAssignment(1, 2), k)
  }

  lemma {:induction false} OldTimeRun(policy: Policy, group: PolicyGroup, valid: Validator)
    returns (labels: seq<Label>)
    requires Creatable(policy, group, valid)
    ensures EndsBeforeOldTime(labels, PolicyAssignmentId(policy.id, group.name), valid)
  {
    var a, k := FirstAssignment(policy, group), PolicyAssignmentId(policy.id, group.name);
    labels := [PolicyLabel(PolicySteps.Create(policy, policy.id, 0)), CreateGroup(group, 0)];
    BothCreated(policy, group, valid);
    FirstIsAssigned(policy, group);
    var w0 := Run(labels, valid);
    hide Run, CreateSteps, Apply, AssignedTo, Recreated, Inv, PolicyAssignmentId, PolicyVersionId;
    labels := RunCreate(labels, 0, a, 0, valid);
    CreateIsItsSteps(w0, 0, a, 0, valid);
    CreateGoesThrough(w0, a, 0);
    var w := Run(labels, valid);
    Reachable(labels, valid);
    assert w.assignments == map[k := Doc(Stamped(a, policy.id, 0), None, 1)];
    ParsedFirst(policy);
    assert BothPass(w, a, a);
    labels := RunRecreated(labels, 1, 2, a, a, 1, valid);
    OldTimeReturns(w, 1, 2, a, a, 1, 2, valid);
  }

  /** From the empty index, for any policy and group, a run reaches such a store. */
  lemma OldTimeIsReached(policy: Policy, group: PolicyGroup, valid: Validator)
    requires Creatable(policy, group, valid)
    ensures exists labels :: EndsBeforeOldTime(labels, PolicyAssignmentId(policy.id, group.name), valid)
  {
    hide EndsBeforeOldTime, Creatable, PolicyAssignmentId;
    var labels := OldTimeRun(policy, group, valid);
  }
}
