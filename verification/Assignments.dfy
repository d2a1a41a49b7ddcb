/** The assignment manager (pkg/policy/assignment_manager.go): which policy version a group evaluates. */
module Assignments {
  import opened Wrappers
  import opened Text
  import opened PolicyIds
  import opened Elastic
  import opened Policies
  import opened PolicyGroups

  datatype PolicyAssignment = PolicyAssignment(
    id: string, policyVersionId: string, policyGroup: string, created: Option<Time>, updated: Option<Time>)

  /** The policy named by an assignment that passes the checks on its own fields. */
  function AssignedTo(a: PolicyAssignment): Result<string> {
    if a.policyGroup == "" || a.policyVersionId == "" then Err(InvalidArgument)
    else
      match ParsePolicyVersionId(a.policyVersionId)
      case Err(_) => Err(Internal)
      case Ok((policyId, version)) => if version == 0 then Err(InvalidArgument) else Ok(policyId)
  }

  function FindAssignment(assignments: Docs<PolicyAssignment>, id: string): Result<PolicyAssignment> {
    if id == "" then Err(InvalidArgument)
    else if id !in assignments then Err(NotFound)
    else Ok(assignments[id].source)
  }

  /** The policy id read from a version id, "" where it does not parse: the error is ignored here. */
  function ParsedPolicy(versionId: string): string {
    match ParsePolicyVersionId(versionId)
    case Err(_) => ""
    case Ok((p, _)) => p
  }

  function CheckUpdate(assignments: Docs<PolicyAssignment>, policyId: string,
                       a: PolicyAssignment): Result<PolicyAssignment> {
    match FindAssignment(assignments, a.id)
    case Err(code) => Err(code)
    case Ok(current) =>
      if current.policyGroup != a.policyGroup then Err(InvalidArgument)
      else if ParsedPolicy(current.policyVersionId) != policyId then Err(InvalidArgument)
      else Ok(a.(created := current.created)) // an update keeps the original timestamp
  }

  function CheckCreate(assignments: Docs<PolicyAssignment>, policyId: string,
                       a: PolicyAssignment): Result<PolicyAssignment> {
    match FindAssignment(assignments, PolicyAssignmentId(policyId, a.policyGroup))
    case Ok(_) => Err(AlreadyExists)
    case Err(code) => if code != NotFound then Err(code) else Ok(a)
  }

  /** The documents an assignment refers to are there, and neither the policy nor the group is deleted. */
  predicate TargetsOk(policies: Docs<PolicyDoc>, groups: Docs<PolicyGroup>, policyId: string, a: PolicyAssignment) {
    && policyId in policies && a.policyVersionId in policies && a.policyGroup in groups
    && !AsPolicy(policies[policyId].source).deleted
    && !groups[a.policyGroup].source.deleted
  }

  function CreatedAssignment(policies: Docs<PolicyDoc>, groups: Docs<PolicyGroup>, assignments: Docs<PolicyAssignment>,
                             a: PolicyAssignment, now: Time)
    : (Docs<PolicyAssignment>, Result<PolicyAssignment>)
  {
    match AssignedTo(a)
    case Err(code) => (assignments, Err(code))
    case Ok(policyId) =>
      match CheckCreate(assignments, policyId, a)
      case Err(code) => (assignments, Err(code))
      case Ok(_) =>
        if !TargetsOk(policies, groups, policyId, a) then (assignments, Err(FailedPrecondition))
        else
          var stored := Stamped(a, policyId, now);
          (Overwritten(assignments, stored.id, stored, None), Ok(stored))
  }

  function Stamped(a: PolicyAssignment, policyId: string, now: Time): PolicyAssignment {
    a.(created := Some(now), updated := Some(now), id := PolicyAssignmentId(policyId, a.policyGroup))
  }

  function UpdatedAssignment(policies: Docs<PolicyDoc>, groups: Docs<PolicyGroup>, assignments: Docs<PolicyAssignment>,
                             a: PolicyAssignment, now: Time)
    : (Docs<PolicyAssignment>, Result<PolicyAssignment>)
  {
    match AssignedTo(a)
    case Err(code) => (assignments, Err(code))
    case Ok(policyId) =>
      match CheckUpdate(assignments, policyId, a)
      case Err(code) => (assignments, Err(code))
      case Ok(checked) =>
        if !TargetsOk(policies, groups, policyId, checked) then (assignments, Err(FailedPrecondition))
        else
          var stored := checked.(updated := Some(now));
          (Overwritten(assignments, a.id, stored, None), Ok(stored))
  }

  /** The search behind ListPolicyAssignments; an empty field does not restrict it. */
  predicate ListQuery(group: string, policyId: string, a: PolicyAssignment) {
    && (group == "" || a.policyGroup == group)
    && (policyId == "" || HasPrefix(a.policyVersionId, policyId + "."))
  }

  class AssignmentManager {
    const policies: Index<PolicyDoc>
    const groups: Index<PolicyGroup>
    const assignments: Index<PolicyAssignment>

    constructor (policies: Index<PolicyDoc>, groups: Index<PolicyGroup>, assignments: Index<PolicyAssignment>)
      ensures this.policies == policies && this.groups == groups && this.assignments == assignments
    {
      this.policies, this.groups, this.assignments := policies, groups, assignments;
    }

    method GetPolicyAssignment(id: string) returns (r: Result<PolicyAssignment>)
      ensures r == FindAssignment(assignments.docs, id)
    {
      if id == "" {
        return Err(InvalidArgument);
      }
      var source := assignments.Get(id);
      match source {
        case None => r := Err(NotFound);
        case Some(a) => r := Ok(a);
      }
    }

    method ValidateCreate(policyId: string, a: PolicyAssignment) returns (r: Result<()>)
      ensures r.Ok? == CheckCreate(assignments.docs, policyId, a).Ok?
      ensures r.Err? ==> r.code == CheckCreate(assignments.docs, policyId, a).code
    {
      var existing := GetPolicyAssignment(PolicyAssignmentId(policyId, a.policyGroup));
      if existing.Ok? {
        return Err(AlreadyExists);
      }
      if existing.code != NotFound {
        return Err(existing.code);
      }
      r := Ok(());
    }

    /** Puts the stored creation time on the passed assignment. */
    method ValidateUpdate(policyId: string, a: Ref<PolicyAssignment>) returns (r: Result<()>)
      modifies a
      ensures var checked := CheckUpdate(assignments.docs, policyId, old(a.v));
              r.Ok? == checked.Ok? && (r.Ok? ==> a.v == checked.value) && (r.Err? ==> r.code == checked.code)
    {
      var found := GetPolicyAssignment(a.v.id);
      if found.Err? {
        return Err(found.code);
      }
      var current := found.value;
      if current.policyGroup != a.v.policyGroup {
        return Err(InvalidArgument);
      }
      if ParsedPolicy(current.policyVersionId) != policyId {
        return Err(InvalidArgument);
      }
      a.v := a.v.(created := current.created);
      r := Ok(());
    }

    method ValidateTargets(policyId: string, a: PolicyAssignment) returns (r: Result<()>)
      ensures r == if TargetsOk(policies.docs, groups.docs, policyId, a) then Ok(()) else Err(FailedPrecondition)
    {
      var found := policies.MultiGet([policyId, a.policyVersionId]);
      var group := groups.MultiGet([a.policyGroup]);
      if found[0].None? || found[1].None? || group[0].None? {
        return Err(FailedPrecondition);
      }
      if AsPolicy(found[0].value).deleted {
        return Err(FailedPrecondition);
      }
      if group[0].value.deleted {
        return Err(FailedPrecondition);
      }
      r := Ok(());
    }

    method CreatePolicyAssignment(a: Ref<PolicyAssignment>, now: Time) returns (r: Result<PolicyAssignment>)
      requires assignments as object != policies && assignments as object != groups
      modifies assignments, a
      ensures (assignments.docs, r) ==
              CreatedAssignment(policies.docs, groups.docs, old(assignments.docs), old(a.v), now)
      ensures r.Ok? ==> a.v == r.value
    {
      hide ParsePolicyVersionId;
      var policyId := AssignedTo(a.v);
      if policyId.Err? {
        return Err(policyId.code);
      }
      var validated := ValidateCreate(policyId.value, a.v);
      if validated.Err? {
        return Err(validated.code);
      }
      validated := ValidateTargets(policyId.value, a.v);
      if validated.Err? {
        return Err(validated.code);
      }
      var assignmentId := PolicyAssignmentId(policyId.value, a.v.policyGroup);
      a.v := a.v.(created := Some(now));
      a.v := a.v.(updated := Some(now));
      a.v := a.v.(id := assignmentId);
      var ok := assignments.Create(assignmentId, a.v);
      if !ok {
        return Err(Internal);
      }
      r := Ok(a.v);
    }

    method UpdatePolicyAssignment(a: Ref<PolicyAssignment>, now: Time) returns (r: Result<PolicyAssignment>)
      requires assignments as object != policies && assignments as object != groups
      modifies assignments, a
      ensures (assignments.docs, r) ==
              UpdatedAssignment(policies.docs, groups.docs, old(assignments.docs), old(a.v), now)
      ensures r.Ok? ==> a.v == r.value
    {
      hide ParsePolicyVersionId;
      var assignmentId := a.v.id;
      var policyId := AssignedTo(a.v);
      if policyId.Err? {
        return Err(policyId.code);
      }
      var validated := ValidateUpdate(policyId.value, a);
      if validated.Err? {
        return Err(validated.code);
      }
      validated := ValidateTargets(policyId.value, a.v);
      if validated.Err? {
        return Err(validated.code);
      }
      a.v := a.v.(updated := Some(now));
      var _ := assignments.Update(assignmentId, a.v);
      r := Ok(a.v);
    }

    method DeletePolicyAssignment(id: string) returns (r: Result<()>)
      modifies assignments
      ensures var found := FindAssignment(old(assignments.docs), id);
              r == (if found.Ok? then Ok(()) else Err(found.code)) &&
              assignments.docs == if found.Ok? then old(assignments.docs) - {id} else old(assignments.docs)
    {
      var found := GetPolicyAssignment(id);
      if found.Err? {
        return Err(found.code);
      }
      assignments.Delete(id);
      r := Ok(());
    }

    /** `hits` is the answer of the search; the listing is its assignments, in that order. */
    method ListPolicyAssignments(hits: seq<string>, group: string, policyId: string)
      returns (listed: seq<PolicyAssignment>)
      requires IsListing(hits, assignments.docs, a => ListQuery(group, policyId, a))
      ensures |listed| == |hits|
      ensures forall i | 0 <= i < |hits| ::
                hits[i] in assignments.docs && listed[i] == assignments.docs[hits[i]].source &&
                ListQuery(group, policyId, listed[i])
    {
      listed := [];
      for i := 0 to |hits|
        invariant |listed| == i
        invariant forall j | 0 <= j < i ::
            hits[j] in assignments.docs && listed[j] == assignments.docs[hits[j]].source &&
            ListQuery(group, policyId, listed[j])
      {
        assert hits[i] in hits;
        listed := listed + [assignments.docs[hits[i]].source];
      }
    }
  }
}
