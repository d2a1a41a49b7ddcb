/** What whole requests to the policy group manager answer and leave in the index, field by field, and that they are
    their steps in the interleaved system. */
module GroupOutcomes {
  import opened Wrappers
  import opened Text
  import opened Elastic
  import opened Policies
  import opened PolicyGroups
  import opened System

  /** The characters of the pattern by their ASCII codes: digits, lower-case letters, dash and underscore. */
  predicate InPattern(c: char) {
    var code := c as int;
    48 <= code <= 57 || 97 <= code <= 122 || code == 45 || code == 95
  }

  /** A create succeeds exactly under a new name that matches the pattern, and adds the group with both times set. */
  lemma CreateOutcome(groups: Docs<PolicyGroup>, group: PolicyGroup, now: Time)
    ensures var (groups', r) := CreatedGroup(groups, group, now);
            var g := group.name;
            (r.Ok? <==> g !in groups && g != "" && forall i | 0 <= i < |g| :: InPattern(g[i])) &&
            (r.Err? ==> groups' == groups) &&
            (r.Err? ==> r.code == if g in groups && g != "" then AlreadyExists else InvalidArgument) &&
            (r.Ok? ==>
               var stored := PolicyGroup(g, group.description, Some(now), Some(now), group.deleted);
               r == Ok(stored) && groups' == groups[g := Doc(stored, None, 1)])
  {
    forall c: char ensures GroupNameChar(c) <==> InPattern(c) {
    }
  }

  /** An update succeeds exactly on a live group, and gives it the description and the time of the request. */
  lemma UpdateOutcome(groups: Docs<PolicyGroup>, request: PolicyGroup, now: Time)
    requires GroupsOk(groups)
    ensures var (groups', r) := UpdatedGroup(groups, request, now);
            var g := request.name;
            (r.Ok? <==> g in groups && !groups[g].source.deleted) &&
            (r.Err? ==>
               groups' == groups &&
               r.code == if g in groups then FailedPrecondition else if g == "" then InvalidArgument else NotFound) &&
            (r.Ok? ==>
               var stored := PolicyGroup(g, request.description, groups[g].source.created, Some(now), false);
               r == Ok(stored) && groups' == groups[g := Doc(stored, None, groups[g].version + 1)])
  {
    assert request.name in groups ==> ValidGroupName(request.name);
  }

  /** A delete succeeds exactly on a stored group, and sets its flag and nothing else. */
  lemma DeleteOutcome(groups: Docs<PolicyGroup>, g: string)
    requires GroupsOk(groups)
    ensures var (groups', r) := DeletedGroup(groups, g);
            (r.Ok? <==> g in groups) &&
            (r.Err? ==> groups' == groups && r.code == if g == "" then InvalidArgument else NotFound) &&
            (r.Ok? ==>
               var was := groups[g].source;
               var stored := PolicyGroup(g, was.description, was.created, was.updated, true);
               groups' == groups[g := Doc(stored, None, groups[g].version + 1)])
  {
    assert g in groups ==> ValidGroupName(g) && groups[g].source.name == g;
  }

  // ----- a whole request is its steps -----

  lemma UpdateIsItsSteps(w: World, c: nat, request: PolicyGroup, now: Time, valid: Validator)
    requires c !in w.calls
    ensures Apply(Apply(w, ReadGroup(c, request.name, request.description), valid), WriteGroup(c, now), valid) ==
            w.(groups := UpdatedGroup(w.groups, request, now).0)
  {
    var w1 := ReadGroupStep(w, c, request.name, Some(request.description));
    assert Apply(w, ReadGroup(c, request.name, request.description), valid) == w1;
    hide PolicySteps.Apply;
    assert w1 != w ==> w1.calls - {c} == w.calls;
    assert c in w1.calls ==> Apply(w1, WriteGroup(c, now), valid) == WriteGroupStep(w1, c, now);
  }

  lemma DeleteIsItsSteps(w: World, c: nat, g: string, now: Time, valid: Validator)
    requires c !in w.calls && GroupsOk(w.groups)
    ensures Apply(Apply(w, ReadGroupForDelete(c, g), valid), WriteGroup(c, now), valid) ==
            w.(groups := DeletedGroup(w.groups, g).0)
  {
    var w1 := ReadGroupStep(w, c, g, None);
    assert Apply(w, ReadGroupForDelete(c, g), valid) == w1;
    assert g in w.groups ==> w.groups[g].source.name == g;
    hide PolicySteps.Apply;
    assert w1 != w ==> w1.calls - {c} == w.calls;
    assert c in w1.calls ==> Apply(w1, WriteGroup(c, now), valid) == WriteGroupStep(w1, c, now);
  }
}
