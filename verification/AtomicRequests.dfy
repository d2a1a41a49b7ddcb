/** Runs of whole requests to policies, groups and assignments: what a deletion closes for ever. */
module AtomicRequests {
  import opened Wrappers
  import opened Text
  import opened PolicyIds
  import opened Elastic
  import opened Policies
  import opened PolicySteps
  import opened PolicyGroups
  import opened Assignments
  import AtomicPolicies

  datatype Store = Store(
    history: AtomicPolicies.History, groups: Docs<PolicyGroup>, assignments: Docs<PolicyAssignment>)

  datatype Request =
    | ToPolicies(r: AtomicPolicies.Request)
    | CreateGroup(group: PolicyGroup, now: Time)
    | UpdateGroup(group: PolicyGroup, now: Time)
    | DeleteGroup(name: string)
    | CreateAssignment(assignment: PolicyAssignment, now: Time)
    | UpdateAssignment(assignment: PolicyAssignment, now: Time)
    | DeleteAssignment(id: string)

  predicate Welcome(r: Request) {
    r.ToPolicies? ==> AtomicPolicies.Welcome(r.r)
  }

  predicate AllWelcome(rs: seq<Request>) {
    forall i | 0 <= i < |rs| :: Welcome(rs[i])
  }

  function Served(s: Store, r: Request, valid: Validator): Store
    requires Welcome(r)
  {
    match r
    case ToPolicies(pr) => s.(history := AtomicPolicies.Serve(s.history, pr, valid).0)
    case CreateGroup(group, now) => s.(groups := CreatedGroup(s.groups, group, now).0)
    case UpdateGroup(group, now) => s.(groups := UpdatedGroup(s.groups, group, now).0)
    case DeleteGroup(name) => s.(groups := DeletedGroup(s.groups, name).0)
    case CreateAssignment(a, now) =>
      s.(assignments := CreatedAssignment(s.history.docs, s.groups, s.assignments, a, now).0)
    case UpdateAssignment(a, now) =>
      s.(assignments := UpdatedAssignment(s.history.docs, s.groups, s.assignments, a, now).0)
    case DeleteAssignment(id) => s.(assignments := s.assignments - {id})
  }

  function ServedAll(rs: seq<Request>, valid: Validator): Store
    requires AllWelcome(rs)
    decreases |rs|
  {
    if rs == [] then Store(AtomicPolicies.History(map[], map[]), map[], map[])
    else Served(ServedAll(rs[..|rs| - 1], valid), rs[|rs| - 1], valid)
  }

  predicate DeletedPolicy(s: Store, p: string) {
    HasPolicy(s.history.docs, p) && s.history.docs[p].source.policy.deleted
  }

  predicate IsDeletedGroup(s: Store, g: string) {
    g in s.groups && s.groups[g].source.deleted
  }

  /** The assignment is to the policy, by the base of its version id. */
  predicate IsTo(a: PolicyAssignment, p: string) {
    BaseOf(a.policyVersionId) == p
  }

  /** Every assignment to the policy that is there later was there before, the same in every field. */
  ghost predicate NoneTo(assignments: Docs<PolicyAssignment>, assignments': Docs<PolicyAssignment>, p: string) {
    forall k | k in assignments' && IsTo(assignments'[k].source, p) ::
      k in assignments && assignments'[k] == assignments[k]
  }

  ghost predicate NoneIn(assignments: Docs<PolicyAssignment>, assignments': Docs<PolicyAssignment>, g: string) {
    forall k | k in assignments' && assignments'[k].source.policyGroup == g ::
      k in assignments && assignments'[k] == assignments[k]
  }

  /** The policy an assignment request names is the base of the version id it would store. */
  lemma AssignedBase(a: PolicyAssignment)
    requires AssignedTo(a).Ok?
    ensures AssignedTo(a).value == BaseOf(a.policyVersionId)
  {
    if !DotFree(a.policyVersionId) {
      PiecesOf(a.policyVersionId);
    }
  }

  /** Neither kind of assignment request goes through on a deleted policy or group. */
  ghost predicate Untouched(s: Store, a: PolicyAssignment, done: (Docs<PolicyAssignment>, Result<PolicyAssignment>),
                            p: string, g: string) {
    && (DeletedPolicy(s, p) ==> NoneTo(s.assignments, done.0, p) && (IsTo(a, p) ==> done.1.Err?))
    && (IsDeletedGroup(s, g) ==> NoneIn(s.assignments, done.0, g) && (a.policyGroup == g ==> done.1.Err?))
  }

  lemma NothingCreated(s: Store, a: PolicyAssignment, now: Time, p: string, g: string)
    ensures Untouched(s, a, CreatedAssignment(s.history.docs, s.groups, s.assignments, a, now), p, g)
  {
    if AssignedTo(a).Ok? {
      AssignedBase(a);
    }
    hide AssignedTo, BaseOf, ParsedPolicy, PolicyAssignmentId, CheckCreate;
  }

  lemma NothingUpdated(s: Store, a: PolicyAssignment, now: Time, p: string, g: string)
    ensures Untouched(s, a, UpdatedAssignment(s.history.docs, s.groups, s.assignments, a, now), p, g)
  {
    if AssignedTo(a).Ok? {
      AssignedBase(a);
    }
    hide AssignedTo, BaseOf, ParsedPolicy, PolicyAssignmentId;
  }

  lemma GroupsKeepDeleted(groups: Docs<PolicyGroup>, r: Request, g: string)
    requires GroupsOk(groups) && g in groups && groups[g].source.deleted
    ensures r.CreateGroup? ==>
              var groups' := CreatedGroup(groups, r.group, r.now).0;
              GroupsOk(groups') && g in groups' && groups'[g].source == groups[g].source
    ensures r.UpdateGroup? ==>
              var groups' := UpdatedGroup(groups, r.group, r.now).0;
              GroupsOk(groups') && g in groups' && groups'[g].source == groups[g].source
    ensures r.DeleteGroup? ==>
              var groups' := DeletedGroup(groups, r.name).0;
              GroupsOk(groups') && g in groups' && groups'[g].source == groups[g].source
  {
    match r
    case CreateGroup(group, now) => DeletedGroupIsFrozen(groups, g, group, "", now);
    case UpdateGroup(group, now) => DeletedGroupIsFrozen(groups, g, group, "", now);
    case DeleteGroup(name) => DeletedGroupIsFrozen(groups, g, groups[g].source, name, 0);
    case _ =>
  }

  lemma GroupsStayNamed(groups: Docs<PolicyGroup>, group: PolicyGroup, name: string, now: Time)
    requires GroupsOk(groups)
    ensures GroupsOk(CreatedGroup(groups, group, now).0) && GroupsOk(UpdatedGroup(groups, group, now).0)
    ensures GroupsOk(DeletedGroup(groups, name).0)
  {
  }

  /** What every run of requests keeps. */
  predicate Shaped(s: Store) {
    WellFormed(s.history.docs) && GroupsOk(s.groups)
  }

  lemma ServedKeepsShape(s: Store, r: Request, valid: Validator)
    requires Shaped(s) && Welcome(r)
    ensures Shaped(Served(s, r, valid))
  {
    hide WellFormed, GroupsOk, AtomicPolicies.Serve, CreatedAssignment, UpdatedAssignment;
    match r
    case ToPolicies(pr) => AtomicPolicies.ServedKeepsShape(s.history, pr, valid);
    case CreateGroup(group, now) => GroupsStayNamed(s.groups, group, "", now);
    case UpdateGroup(group, now) => GroupsStayNamed(s.groups, group, "", now);
    case DeleteGroup(name) => GroupsStayNamed(s.groups, PolicyGroup("", "", None, None, false), name, 0);
    case _ =>
  }

  lemma {:induction false} ShapedThroughout(rs: seq<Request>, valid: Validator)
    requires AllWelcome(rs)
    ensures Shaped(ServedAll(rs, valid))
  {
    hide Served;
    if rs == [] {
      AtomicPolicies.EmptyIsWellFormed();
    } else {
      hide Shaped;
      ShapedThroughout(rs[..|rs| - 1], valid);
      ServedKeepsShape(ServedAll(rs[..|rs| - 1], valid), rs[|rs| - 1], valid);
    }
  }

  /** A deleted policy is as it was, and the assignments to it have at most become fewer. */
  ghost predicate PolicyClosed(s: Store, s': Store, p: string)
    requires DeletedPolicy(s, p)
  {
    && DeletedPolicy(s', p) && s'.history.docs[p].source == s.history.docs[p].source
    && AtomicPolicies.SamePolicyData(s.history.docs, s'.history.docs, p)
    && NoneTo(s.assignments, s'.assignments, p)
  }

  ghost predicate GroupClosed(s: Store, s': Store, g: string)
    requires IsDeletedGroup(s, g)
  {
    IsDeletedGroup(s', g) && s'.groups[g].source == s.groups[g].source && NoneIn(s.assignments, s'.assignments, g)
  }

  ghost predicate Closed(s: Store, s': Store, p: string, g: string) {
    (DeletedPolicy(s, p) ==> PolicyClosed(s, s', p)) && (IsDeletedGroup(s, g) ==> GroupClosed(s, s', g))
  }

  lemma SameData(docs: Docs<PolicyDoc>, p: string)
    ensures AtomicPolicies.SamePolicyData(docs, docs, p)
  {
  }

  lemma ServedCloses(s: Store, r: Request, valid: Validator, p: string, g: string)
    requires Shaped(s) && Welcome(r)
    ensures Closed(s, Served(s, r, valid), p, g)
  {
    SameData(s.history.docs, p);
    hide WellFormed, GroupsOk, AtomicPolicies.Serve, CreatedAssignment, UpdatedAssignment,
      AtomicPolicies.SamePolicyData, CreatedGroup, UpdatedGroup, DeletedGroup, BaseOf;
    match r
    case ToPolicies(pr) => if DeletedPolicy(s, p) { AtomicPolicies.ServedLeavesDeleted(s.history, pr, valid, p); }
    case CreateAssignment(a, now) => NothingCreated(s, a, now, p, g);
    case UpdateAssignment(a, now) => NothingUpdated(s, a, now, p, g);
    case DeleteAssignment(id) =>
    case _ => if IsDeletedGroup(s, g) { GroupsKeepDeleted(s.groups, r, g); }
  }

  lemma ClosedTransitive(s: Store, t: Store, u: Store, p: string, g: string)
    requires Closed(s, t, p, g) && Closed(t, u, p, g)
    ensures Closed(s, u, p, g)
  {
    hide BaseOf, CounterOf, PolicyVersionId;
    if DeletedPolicy(s, p) {
      var assignments, assignments' := t.assignments, u.assignments;
      forall k | k in assignments' && IsTo(assignments'[k].source, p)
        ensures k in s.assignments && assignments'[k] == s.assignments[k]
      {
        assert k in assignments && IsTo(assignments[k].source, p);
      }
    }
  }

  lemma {:induction false} LaterIsClosed(rs: seq<Request>, m: nat, p: string, g: string, valid: Validator)
    requires AllWelcome(rs) && m <= |rs|
    ensures Closed(ServedAll(rs[..m], valid), ServedAll(rs, valid), p, g)
  {
    hide Served, Shaped;
    var s := ServedAll(rs[..m], valid);
    if m == |rs| {
      assert rs[..m] == rs;
      SameData(s.history.docs, p);
    } else {
      var n := |rs| - 1;
      assert rs[..n][..m] == rs[..m];
      LaterIsClosed(rs[..n], m, p, g, valid);
      ShapedThroughout(rs[..n], valid);
      ServedCloses(ServedAll(rs[..n], valid), rs[n], valid, p, g);
      ClosedTransitive(s, ServedAll(rs[..n], valid), ServedAll(rs, valid), p, g);
    }
  }

  /** Deletion is permanent and final for the assignments: no request after the one that marked a policy as deleted
      changes the policy or its versions, and assignments to it can only be removed, never created or changed. */
  lemma {:induction false} DeletedPolicyIsClosed(rs: seq<Request>, m: nat, p: string, valid: Validator)
    requires AllWelcome(rs) && m <= |rs| && DeletedPolicy(ServedAll(rs[..m], valid), p)
    ensures PolicyClosed(ServedAll(rs[..m], valid), ServedAll(rs, valid), p)
  {
    hide PolicyClosed, GroupClosed, ServedAll;
    LaterIsClosed(rs, m, p, "", valid);
  }

  /** The same for a group, whose name therefore stays taken. */
  lemma {:induction false} DeletedGroupIsClosed(rs: seq<Request>, m: nat, g: string, valid: Validator)
    requires AllWelcome(rs) && m <= |rs| && IsDeletedGroup(ServedAll(rs[..m], valid), g)
    ensures GroupClosed(ServedAll(rs[..m], valid), ServedAll(rs, valid), g)
    ensures forall group: PolicyGroup, now: Time | group.name == g ::
              CreatedGroup(ServedAll(rs, valid).groups, group, now).1 == Err(AlreadyExists)
  {
    LaterIsClosed(rs, m, "", g, valid);
    ShapedThroughout(rs, valid);
    assert ValidGroupName(g);
    hide PolicyClosed, ServedAll;
  }

  // ----- what an update of an assignment keeps -----

  predicate SameOrigin(a: PolicyAssignment, b: PolicyAssignment) {
    && a.policyGroup == b.policyGroup && a.created == b.created
    && ParsedPolicy(a.policyVersionId) == ParsedPolicy(b.policyVersionId)
  }

  lemma ServedKeepsOrigin(s: Store, r: Request, valid: Validator, k: string)
    requires Welcome(r) && k in s.assignments && r != DeleteAssignment(k)
    ensures var s' := Served(s, r, valid);
            k in s'.assignments && SameOrigin(s'.assignments[k].source, s.assignments[k].source)
  {
    hide ParsePolicyVersionId, AtomicPolicies.Serve, CreatedGroup, UpdatedGroup, DeletedGroup, TargetsOk;
  }

  /** Whatever requests follow, an assignment keeps its group, its policy and its creation time until it is deleted. */
  lemma {:induction false} AssignmentsKeepOrigin(rs: seq<Request>, m: nat, k: string, valid: Validator)
    requires AllWelcome(rs) && m <= |rs| && k in ServedAll(rs[..m], valid).assignments
    requires forall i | m <= i < |rs| :: rs[i] != DeleteAssignment(k)
    ensures var before, after := ServedAll(rs[..m], valid).assignments, ServedAll(rs, valid).assignments;
            k in after && SameOrigin(after[k].source, before[k].source)
  {
    hide Served, ParsedPolicy;
    if m == |rs| {
      assert rs[..m] == rs;
    } else {
      var n := |rs| - 1;
      assert rs[..n][..m] == rs[..m];
      AssignmentsKeepOrigin(rs[..n], m, k, valid);
      ServedKeepsOrigin(ServedAll(rs[..n], valid), rs[n], valid, k);
    }
  }
}
