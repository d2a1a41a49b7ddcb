/** Deletions in the interleaved system: which steps undo the deletion of a group or store an assignment after one,
    and from what moment on none can. */
module SystemRaces {
  import opened Wrappers
  import opened Text
  import opened PolicyIds
  import opened Elastic
  import opened Policies
  import opened PolicyGroups
  import opened Assignments
  import opened System
  import DeletionRaces
  import AtomicRequests

  // ----- groups -----

  predicate DeletedIn(groups: Docs<PolicyGroup>, g: string) {
    g in groups && groups[g].source.deleted
  }

  /** An edit in flight that read the group before it was deleted. */
  predicate EditsLive(call: Call, g: string) {
    call.EditingGroup? && call.group.name == g && !call.group.deleted
  }

  /** Exactly one kind of step undoes the deletion of a group: the write of an edit that read it while it was live. */
  lemma GroupDeletionUndoneExactly(w: World, l: Label, valid: Validator, g: string)
    requires Inv(w) && DeletedIn(w.groups, g)
    ensures !DeletedIn(Apply(w, l, valid).groups, g) <==>
            l.WriteGroup? && l.c in w.calls && EditsLive(w.calls[l.c], g)
  {
    assert ValidGroupName(g);
    hide PolicySteps.Apply, PolicySteps.Inv, AssignmentsOk, TableOk, CallsOk, ValidGroupName, AssignedTo, CheckUpdate,
      CheckCreate, TargetsOk, FindVersion, FindPolicy, Join, ParsePolicyVersionId, PolicyAssignmentId;
  }

  // ----- assignments -----

  /** The step stores an assignment: an update overwrites, a create goes through when its id is unused. */
  predicate Stores(w: World, l: Label) {
    && l.StoreAssignment? && l.c in w.calls && w.calls[l.c].Storing?
    && (w.calls[l.c].isUpdate ||
        PolicyAssignmentId(w.calls[l.c].policyId, w.calls[l.c].assignment.policyGroup) !in w.assignments)
  }

  predicate StoresTo(w: World, l: Label, p: string) {
    Stores(w, l) && w.calls[l.c].policyId == p
  }

  predicate StoresIn(w: World, l: Label, g: string) {
    Stores(w, l) && w.calls[l.c].assignment.policyGroup == g
  }

  /** An assignment to a policy, deleted or not, appears or changes exactly by the store of a call that has passed its
      checks: what such a call found is not looked at again. */
  lemma AssignmentStoredExactly(w: World, l: Label, valid: Validator, p: string, g: string)
    requires Inv(w)
    ensures !AtomicRequests.NoneTo(w.assignments, Apply(w, l, valid).assignments, p) <==> StoresTo(w, l, p)
    ensures !AtomicRequests.NoneIn(w.assignments, Apply(w, l, valid).assignments, g) <==> StoresIn(w, l, g)
  {
    if l.StoreAssignment? && l.c in w.calls && w.calls[l.c].Storing? {
      CallFact(w, l.c);
      hide Inv, BaseOf, PolicyAssignmentId, PolicySteps.HasPolicy, IsVersion;
      StoredAt(w, l.c, l.now, p, g);
      assert Apply(w, l, valid) == StoreStep(w, l.c, l.now);
    } else {
      OthersStoreNothing(w, l, valid);
    }
  }

  lemma OthersStoreNothing(w: World, l: Label, valid: Validator)
    requires !(l.StoreAssignment? && l.c in w.calls && w.calls[l.c].Storing?)
    ensures forall k | k in Apply(w, l, valid).assignments ::
              k in w.assignments && Apply(w, l, valid).assignments[k] == w.assignments[k]
  {
    hide PolicySteps.Apply, CreatedGroup, FindGroup, AssignedTo, CheckUpdate, CheckCreate, TargetsOk, FindVersion,
      FindPolicy, Join, ParsePolicyVersionId, PolicyAssignmentId;
  }

  lemma StoredAt(w: World, c: nat, now: Time, p: string, g: string)
    requires c in w.calls && w.calls[c].Storing? && BaseOf(w.calls[c].assignment.policyVersionId) == w.calls[c].policyId
    ensures var assignments', l := StoreStep(w, c, now).assignments, StoreAssignment(c, now);
            (!AtomicRequests.NoneTo(w.assignments, assignments', p) <==> StoresTo(w, l, p)) &&
            (!AtomicRequests.NoneIn(w.assignments, assignments', g) <==> StoresIn(w, l, g))
  {
    hide BaseOf, PolicyAssignmentId;
    var Storing(isUpdate, policyId, a) := w.calls[c];
    var stored := if isUpdate then a.(updated := Some(now)) else Stamped(a, policyId, now);
    var assignments' := StoreStep(w, c, now).assignments;
    if Stores(w, StoreAssignment(c, now)) {
      assert stored.id in assignments' && assignments'[stored.id].source == stored;
      assert stored.id in w.assignments ==> assignments'[stored.id].version != w.assignments[stored.id].version;
    }
  }

  // ----- from when on a deletion is final -----

  /** A deleted policy with no update in flight that read it live, and no assignment to it that has passed its
      checks. */
  ghost predicate PolicyQuiet(w: World, p: string) {
    && DeletionRaces.IsDeleted(w.pol.docs, p) && DeletionRaces.NobodyHolds(w.pol.calls, p)
    && forall c {:trigger w.calls[c]} | c in w.calls :: !(w.calls[c].Storing? && w.calls[c].policyId == p)
  }

  ghost predicate GroupQuiet(w: World, g: string) {
    && DeletedIn(w.groups, g)
    && forall c {:trigger w.calls[c]} | c in w.calls ::
         !EditsLive(w.calls[c], g) && !(w.calls[c].Storing? && w.calls[c].assignment.policyGroup == g)
  }

  lemma PolicyPartStep(w: World, l: Label, valid: Validator, p: string)
    requires Inv(w) && Addressed(l) && PolicyQuiet(w, p)
    ensures var pol' := Apply(w, l, valid).pol;
            DeletionRaces.IsDeleted(pol'.docs, p) && DeletionRaces.NobodyHolds(pol'.calls, p)
  {
    if l.PolicyLabel? {
      hide PolicySteps.Apply, PolicySteps.Inv, PolicySteps.Addressed, DeletionRaces.IsDeleted,
        DeletionRaces.NobodyHolds;
      DeletionRaces.DeletionUndoneExactly(w.pol, l.l, valid, p);
      DeletionRaces.NobodyStarts(w.pol, l.l, valid, p);
      if DeletionRaces.Revives(w.pol, l.l, p) {
        DeletionRaces.NobodyAt(w.pol.calls, l.l.c, p);
      }
    } else {
      OthersLeavePolicies(w, l, valid);
    }
  }

  predicate Unchanged(w: World, w': World, c: nat)
    requires c in w'.calls
  {
    c in w.calls && w.calls[c] == w'.calls[c]
  }

  /** No call passes its checks on a deleted policy or group, or starts to edit a deleted group. */
  lemma NoCallPasses(w: World, l: Label, valid: Validator, c: nat, p: string, g: string)
    requires c in Apply(w, l, valid).calls && !Unchanged(w, Apply(w, l, valid), c) && GroupsOk(w.groups)
    ensures var call := Apply(w, l, valid).calls[c];
            (DeletionRaces.IsDeleted(w.pol.docs, p) ==> !(call.Storing? && call.policyId == p)) &&
            (DeletedIn(w.groups, g) ==>
               !EditsLive(call, g) && !(call.Storing? && call.assignment.policyGroup == g))
  {
    if l.ReadGroup? {
      assert DeletedIn(w.groups, g) ==> w.groups[g].source.name == g;
      assert l.name in w.groups ==> w.groups[l.name].source.name == l.name;
    } else if !l.CheckTargets? {
      OthersPassNothing(w, l, valid, c);
    }
  }

  predicate Evaluates(l: Label) {
    l.StartEvaluation? || l.FetchVersion? || l.LookUpPolicy? || l.JoinPolicy? || l.CheckOpa? || l.PutOpa? || l.AskOpa?
  }

  lemma OthersPassNothing(w: World, l: Label, valid: Validator, c: nat)
    requires c in Apply(w, l, valid).calls && !Unchanged(w, Apply(w, l, valid), c)
    requires !l.ReadGroup? && !l.CheckTargets?
    ensures var call := Apply(w, l, valid).calls[c]; !call.Storing? && !call.EditingGroup?
  {
    if Evaluates(l) {
      EvaluationsPassNothing(w, l, valid, c);
    } else {
      hide PolicySteps.Apply, CreatedGroup, FindGroup, AssignedTo, CheckUpdate, CheckCreate, TargetsOk, FetchStep,
        LookUpPolicyStep, JoinStep, CheckOpaStep, PutOpaStep, AskStep, PolicyAssignmentId;
    }
  }

  lemma EvaluationsPassNothing(w: World, l: Label, valid: Validator, c: nat)
    requires Evaluates(l) && c in Apply(w, l, valid).calls && !Unchanged(w, Apply(w, l, valid), c)
    ensures var call := Apply(w, l, valid).calls[c]; !call.Storing? && !call.EditingGroup?
  {
    hide PolicySteps.Apply, FindVersion, FindPolicy, Join, ParsePolicyVersionId, WriteGroupStep, CheckTargetsStep,
      StoreStep, LookUpAssignment, ReadGroupStep, CreateGroupStep;
  }

  lemma PolicyQuietStep(w: World, l: Label, valid: Validator, p: string)
    requires Inv(w) && Addressed(l) && PolicyQuiet(w, p)
    ensures PolicyQuiet(Apply(w, l, valid), p)
    ensures AtomicRequests.NoneTo(w.assignments, Apply(w, l, valid).assignments, p)
  {
    hide Apply, AtomicRequests.NoneTo, AtomicRequests.NoneIn, DeletionRaces.NobodyHolds, AssignmentsOk, CallsOk,
      TableOk;
    PolicyPartStep(w, l, valid, p);
    var w' := Apply(w, l, valid);
    forall c | c in w'.calls ensures !(w'.calls[c].Storing? && w'.calls[c].policyId == p) {
      if !Unchanged(w, w', c) {
        NoCallPasses(w, l, valid, c, p, "");
      }
    }
    AssignmentStoredExactly(w, l, valid, p, "");
  }

  lemma GroupQuietStep(w: World, l: Label, valid: Validator, g: string)
    requires Inv(w) && GroupQuiet(w, g)
    ensures GroupQuiet(Apply(w, l, valid), g)
    ensures AtomicRequests.NoneIn(w.assignments, Apply(w, l, valid).assignments, g)
  {
    hide Apply, AtomicRequests.NoneTo, AtomicRequests.NoneIn, AssignmentsOk, CallsOk, TableOk;
    GroupDeletionUndoneExactly(w, l, valid, g);
    var w' := Apply(w, l, valid);
    forall c | c in w'.calls
      ensures !EditsLive(w'.calls[c], g) && !(w'.calls[c].Storing? && w'.calls[c].assignment.policyGroup == g)
    {
      if !Unchanged(w, w', c) {
        NoCallPasses(w, l, valid, c, "", g);
      }
    }
    AssignmentStoredExactly(w, l, valid, "", g);
  }

  /** Under every interleaving: once no update that read the policy live and no checked assignment to it is in flight,
      the policy stays deleted, and assignments to it can only be removed. */
  lemma {:induction false} PolicyDeletionIsFinal(labels: seq<Label>, m: nat, p: string, valid: Validator)
    requires AllAddressed(labels) && m <= |labels| && PolicyQuiet(Run(labels[..m], valid), p)
    ensures PolicyQuiet(Run(labels, valid), p)
    ensures AtomicRequests.NoneTo(Run(labels[..m], valid).assignments, Run(labels, valid).assignments, p)
  {
    hide Apply, Inv, PolicyQuiet, BaseOf;
    if m == |labels| {
      assert labels[..m] == labels;
    } else {
      var n := |labels| - 1;
      assert labels[..n][..m] == labels[..m];
      PolicyDeletionIsFinal(labels[..n], m, p, valid);
      Reachable(labels[..n], valid);
      PolicyQuietStep(Run(labels[..n], valid), labels[n], valid, p);
    }
  }

  /** The same for a group. */
  lemma {:induction false} GroupDeletionIsFinal(labels: seq<Label>, m: nat, g: string, valid: Validator)
    requires AllAddressed(labels) && m <= |labels| && GroupQuiet(Run(labels[..m], valid), g)
    ensures GroupQuiet(Run(labels, valid), g)
    ensures AtomicRequests.NoneIn(Run(labels[..m], valid).assignments, Run(labels, valid).assignments, g)
  {
    hide Apply, Inv, GroupQuiet;
    if m == |labels| {
      assert labels[..m] == labels;
    } else {
      var n := |labels| - 1;
      assert labels[..n][..m] == labels[..m];
      GroupDeletionIsFinal(labels[..n], m, g, valid);
      Reachable(labels[..n], valid);
      GroupQuietStep(Run(labels[..n], valid), labels[n], valid, g);
    }
  }
}
