/** The policy group manager (pkg/policy/policy_group_manager.go). Groups are stored under their names and only
    ever marked as deleted. */
module PolicyGroups {
  import opened Wrappers
  import opened Text
  import opened Elastic

  datatype PolicyGroup = PolicyGroup(
    name: string, description: string, created: Option<Time>, updated: Option<Time>, deleted: bool)

  predicate GroupNameChar(c: char) {
    'a' <= c <= 'z' || '0' <= c <= '9' || c == '-' || c == '_'
  }

  /** The pattern `^[a-z0-9-_]+$`. */
  predicate ValidGroupName(name: string) {
    name != "" && forall i | 0 <= i < |name| :: GroupNameChar(name[i])
  }

  function FindGroup(groups: Docs<PolicyGroup>, name: string): Result<PolicyGroup> {
    if name == "" then Err(InvalidArgument)
    else if name !in groups then Err(NotFound)
    else Ok(groups[name].source)
  }

  function CreatedGroup(groups: Docs<PolicyGroup>, group: PolicyGroup, now: Time)
    : (Docs<PolicyGroup>, Result<PolicyGroup>)
  {
    match FindGroup(groups, group.name)
    case Ok(_) => (groups, Err(AlreadyExists))
    case Err(code) =>
      if code != NotFound then (groups, Err(code))
      else if !ValidGroupName(group.name) then (groups, Err(InvalidArgument))
      else
        var stored := group.(created := Some(now), updated := Some(now));
        (Overwritten(groups, group.name, stored, None), Ok(stored))
  }

  function UpdatedGroup(groups: Docs<PolicyGroup>, request: PolicyGroup, now: Time)
    : (Docs<PolicyGroup>, Result<PolicyGroup>)
  {
    match FindGroup(groups, request.name)
    case Err(code) => (groups, Err(code))
    case Ok(current) =>
      if current.deleted then (groups, Err(FailedPrecondition))
      else
        var stored := current.(description := request.description, updated := Some(now));
        (Overwritten(groups, stored.name, stored, None), Ok(stored))
  }

  function DeletedGroup(groups: Docs<PolicyGroup>, name: string): (Docs<PolicyGroup>, Result<()>) {
    match FindGroup(groups, name)
    case Err(code) => (groups, Err(code))
    case Ok(current) => (Overwritten(groups, name, current.(deleted := true), None), Ok(()))
  }

  /** Every group is stored under its own, well-formed name. */
  predicate GroupsOk(groups: Docs<PolicyGroup>) {
    forall k {:trigger groups[k]} | k in groups :: groups[k].source.name == k && ValidGroupName(k)
  }

  /** A deleted group is never changed again by a whole request, and its name stays taken. */
  lemma DeletedGroupIsFrozen(groups: Docs<PolicyGroup>, name: string, request: PolicyGroup, other: string, now: Time)
    requires GroupsOk(groups) && name in groups && groups[name].source.deleted
    ensures var created := CreatedGroup(groups, request, now);
            GroupsOk(created.0) && name in created.0 && created.0[name].source == groups[name].source &&
            (request.name == name ==> created.1 == Err(AlreadyExists))
    ensures var updated := UpdatedGroup(groups, request, now);
            GroupsOk(updated.0) && name in updated.0 && updated.0[name].source == groups[name].source &&
            (request.name == name ==> updated.1 == Err(FailedPrecondition))
    ensures var deleted := DeletedGroup(groups, other).0;
            GroupsOk(deleted) && name in deleted && deleted[name].source == groups[name].source
  {
    assert name != "";
    if other in groups {
      assert groups[other].source.name == other;
    }
  }

  class PolicyGroupManager {
    const groups: Index<PolicyGroup>

    constructor (groups: Index<PolicyGroup>)
      ensures this.groups == groups
    {
      this.groups := groups;
    }

    method GetPolicyGroup(name: string) returns (r: Result<PolicyGroup>)
      ensures r == FindGroup(groups.docs, name)
    {
      if name == "" {
        return Err(InvalidArgument);
      }
      var source := groups.Get(name);
      match source {
        case None => r := Err(NotFound);
        case Some(group) => r := Ok(group);
      }
    }

    method CreatePolicyGroup(policyGroup: Ref<PolicyGroup>, now: Time) returns (r: Result<PolicyGroup>)
      modifies groups, policyGroup
      ensures (groups.docs, r) == CreatedGroup(old(groups.docs), old(policyGroup.v), now)
      ensures r.Ok? ==> policyGroup.v == r.value
    {
      var existing := GetPolicyGroup(policyGroup.v.name);
      if existing.Ok? {
        return Err(AlreadyExists);
      }
      if existing.code != NotFound {
        return Err(existing.code);
      }
      if !ValidGroupName(policyGroup.v.name) {
        return Err(InvalidArgument);
      }
      policyGroup.v := policyGroup.v.(created := Some(now));
      policyGroup.v := policyGroup.v.(updated := Some(now));
      var ok := groups.Create(policyGroup.v.name, policyGroup.v);
      if !ok {
        return Err(Internal);
      }
      r := Ok(policyGroup.v);
    }

    method UpdatePolicyGroup(request: PolicyGroup, now: Time) returns (r: Result<PolicyGroup>)
      modifies groups
      ensures (groups.docs, r) == UpdatedGroup(old(groups.docs), request, now)
    {
      var found := GetPolicyGroup(request.name);
      if found.Err? {
        return Err(found.code);
      }
      var current := found.value;
      if current.deleted {
        return Err(FailedPrecondition);
      }
      current := current.(description := request.description); // only the description is editable
      current := current.(updated := Some(now));
      var _ := groups.Update(current.name, current);
      r := Ok(current);
    }

    method DeletePolicyGroup(name: string) returns (r: Result<()>)
      modifies groups
      ensures (groups.docs, r) == DeletedGroup(old(groups.docs), name)
    {
      var found := GetPolicyGroup(name);
      if found.Err? {
        return Err(found.code);
      }
      var current := found.value.(deleted := true);
      var _ := groups.Update(name, current);
      r := Ok(());
    }
  }
}
