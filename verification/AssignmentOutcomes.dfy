/** What whole assignment requests answer and leave in the index, field by field, in every state that the interleaved
    system reaches. */
module AssignmentOutcomes {
  import opened Wrappers
  import opened Text
  import opened PolicyIds
  import opened Elastic
  import opened Policies
  import opened PolicyGroups
  import opened Assignments
  import opened System

  /** The policy, the version and the group that an assignment names are there, and neither is deleted. */
  predicate Live(w: World, a: PolicyAssignment) {
    && IsVersion(w.pol.docs, a.policyVersionId) && w.pol.docs[a.policyVersionId].source.entity.version != 0
    && LivePolicy(w.pol.docs, BaseOf(a.policyVersionId))
    && a.policyGroup in w.groups && !w.groups[a.policyGroup].source.deleted
  }

  predicate LivePolicy(docs: Docs<PolicyDoc>, p: string) {
    p in docs && docs[p].source.PolicyDoc? && !docs[p].source.policy.deleted
  }

  predicate SamePair(a: PolicyAssignment, b: PolicyAssignment) {
    BaseOf(a.policyVersionId) == BaseOf(b.policyVersionId) && a.policyGroup == b.policyGroup
  }

  predicate PairIsStored(w: World, a: PolicyAssignment) {
    exists k | k in w.assignments :: SamePair(w.assignments[k].source, a)
  }

  /** The fields name a version, as far as they can be read. */
  predicate Readable(a: PolicyAssignment) {
    && a.policyGroup != "" && a.policyVersionId != ""
    && ParsePolicyVersionId(a.policyVersionId).Ok? && ParsePolicyVersionId(a.policyVersionId).value.1 != 0
  }

  /** A version id that does not parse is answered as an internal error. */
  function UnreadableCode(a: PolicyAssignment): Code {
    if a.policyGroup != "" && a.policyVersionId != "" && ParsePolicyVersionId(a.policyVersionId).Err? then Internal
    else InvalidArgument
  }

  function IdFor(a: PolicyAssignment): string {
    "policies/" + BaseOf(a.policyVersionId) + "/assignments/" + a.policyGroup
  }

  lemma LiveIsReadable(w: World, a: PolicyAssignment)
    requires Inv(w) && Live(w, a)
    ensures Readable(a) && AssignedTo(a) == Ok(BaseOf(a.policyVersionId))
    ensures TargetsOk(w.pol.docs, w.groups, BaseOf(a.policyVersionId), a)
  {
    StoredVersionParses(w.pol.docs, a.policyVersionId);
    assert ValidGroupName(a.policyGroup);
    assert a.policyVersionId != "" by { assert !DotFree(a.policyVersionId); }
  }

  lemma TargetsAreLive(w: World, a: PolicyAssignment)
    requires Inv(w) && AssignedTo(a).Ok?
    ensures TargetsOk(w.pol.docs, w.groups, AssignedTo(a).value, a) <==> Live(w, a)
    ensures forall created: Option<Time> ::
              TargetsOk(w.pol.docs, w.groups, AssignedTo(a).value, a.(created := created)) <==> Live(w, a)
    ensures AssignedTo(a).value == BaseOf(a.policyVersionId)
  {
    var p, v := AssignedTo(a).value, ParsePolicyVersionId(a.policyVersionId).value.1;
    assert !DotFree(a.policyVersionId);
    PiecesOf(a.policyVersionId);
    if TargetsOk(w.pol.docs, w.groups, p, a) {
      ParsedVersionIsVersion(w.pol.docs, a.policyVersionId, p, v);
    }
    if Live(w, a) {
      LiveIsReadable(w, a);
    }
  }

  /** For a slash-free policy id the pair is stored exactly when the id built from it is taken. */
  lemma PairHasItsId(w: World, a: PolicyAssignment)
    requires Inv(w) && SlashFree(BaseOf(a.policyVersionId))
    ensures PairIsStored(w, a) <==> IdFor(a) in w.assignments
  {
    var p := BaseOf(a.policyVersionId);
    assert IdFor(a) == PolicyAssignmentId(p, a.policyGroup);
    if PairIsStored(w, a) {
      var k :| k in w.assignments && SamePair(w.assignments[k].source, a);
      assert AssignmentOk(w.pol.docs, w.groups, k, w.assignments[k].source);
    }
    if IdFor(a) in w.assignments {
      var b := w.assignments[IdFor(a)].source;
      assert AssignmentOk(w.pol.docs, w.groups, IdFor(a), b);
      StoredVersionParses(w.pol.docs, b.policyVersionId);
      AssignmentIdInjective(p, a.policyGroup, BaseOf(b.policyVersionId), b.policyGroup);
      assert SamePair(b, a);
    }
  }

  lemma LiveIsSlashFree(w: World, a: PolicyAssignment)
    requires Inv(w) && Live(w, a)
    ensures SlashFree(BaseOf(a.policyVersionId))
  {
    StoredVersionParses(w.pol.docs, a.policyVersionId);
  }

  /** A create succeeds exactly when the version, its policy and the group are there, policy and group are not deleted,
      and no stored assignment has that policy and that group; it then adds the stamped assignment under its id. */
  lemma CreateOutcome(w: World, a: PolicyAssignment, now: Time)
    requires Inv(w)
    ensures var (assignments', r) := CreatedAssignment(w.pol.docs, w.groups, w.assignments, a, now);
            (r.Ok? <==> Live(w, a) && !PairIsStored(w, a)) &&
            (r.Err? ==>
               assignments' == w.assignments &&
               (!Readable(a) ==> r.code == UnreadableCode(a)) &&
               (r.code == AlreadyExists <==> Readable(a) && IdFor(a) in w.assignments) &&
               (r.code == FailedPrecondition <==> Readable(a) && IdFor(a) !in w.assignments)) &&
            (r.Ok? ==>
               var stored := PolicyAssignment(IdFor(a), a.policyVersionId, a.policyGroup, Some(now), Some(now));
               r == Ok(stored) && assignments' == w.assignments[IdFor(a) := Doc(stored, None, 1)])
  {
    if Live(w, a) {
      LiveIsReadable(w, a);
      LiveIsSlashFree(w, a);
      PairHasItsId(w, a);
    }
    if AssignedTo(a).Ok? {
      TargetsAreLive(w, a);
      assert IdFor(a) == PolicyAssignmentId(AssignedTo(a).value, a.policyGroup);
      assert IdFor(a) != "";
    }
    hide Inv, ParsePolicyVersionId, BaseOf, Live, PairIsStored, TargetsOk, PolicyAssignmentId, IdFor;
  }

  /** An update succeeds exactly for a stored id, with its policy and its group, when they and the version are live; it
      then changes the version and the update time, and nothing else. */
  lemma UpdateOutcome(w: World, a: PolicyAssignment, now: Time)
    requires Inv(w)
    ensures var (assignments', r) := UpdatedAssignment(w.pol.docs, w.groups, w.assignments, a, now);
            (r.Ok? <==> Live(w, a) && a.id in w.assignments && SamePair(w.assignments[a.id].source, a)) &&
            (r.Err? ==>
               assignments' == w.assignments &&
               (!Readable(a) ==> r.code == UnreadableCode(a)) &&
               (r.code == NotFound <==> Readable(a) && a.id != "" && a.id !in w.assignments) &&
               (r.code == FailedPrecondition <==>
                Readable(a) && a.id in w.assignments && SamePair(w.assignments[a.id].source, a))) &&
            (r.Ok? ==>
               var was := w.assignments[a.id];
               var stored :=
                 PolicyAssignment(a.id, a.policyVersionId, was.source.policyGroup, was.source.created, Some(now));
               r == Ok(stored) && assignments' == w.assignments[a.id := Doc(stored, None, was.version + 1)])
  {
    if Live(w, a) {
      LiveIsReadable(w, a);
    }
    if AssignedTo(a).Ok? {
      TargetsAreLive(w, a);
      if a.id in w.assignments {
        StoredPolicyIsBase(w, a.id);
      }
    }
    hide Inv, ParsePolicyVersionId, BaseOf, Live, TargetsOk, PolicyAssignmentId, ParsedPolicy;
  }

  lemma StoredPolicyIsBase(w: World, k: string)
    requires Inv(w) && k in w.assignments
    ensures ParsedPolicy(w.assignments[k].source.policyVersionId) == BaseOf(w.assignments[k].source.policyVersionId)
    ensures k != ""
  {
    var b := w.assignments[k].source;
    assert AssignmentOk(w.pol.docs, w.groups, k, b);
    StoredVersionParses(w.pol.docs, b.policyVersionId);
  }
}
