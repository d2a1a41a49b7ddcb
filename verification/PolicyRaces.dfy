/** How whole requests relate to their steps, what interleaving can and cannot do to a policy, and what ids the
    write operations may be given. */
module PolicyRaces {
  import opened Wrappers
  import opened Text
  import opened PolicyIds
  import opened Elastic
  import opened Policies
  import opened PolicySteps

  // ----- a request is its steps, run without interruption -----

  function UpdateSteps(s: State, c: nat, request: Policy, now: Time, valid: Validator): State {
    var s1 := Apply(s, ReadPolicy(c, request), valid);
    var s2 := Apply(s1, ReadVersion(c, now), valid);
    var s3 := Apply(s2, Bump(c), valid);
    Apply(s3, Commit(c), valid)
  }

  lemma UpdateIsItsSteps(s: State, c: nat, request: Policy, now: Time, valid: Validator)
    requires c !in s.calls && request.entity.Some?
    ensures UpdateSteps(s, c, request, now, valid).docs == Updated(s.docs, request, now, valid).0
    ensures UpdateSteps(s, c, request, now, valid).calls == s.calls
  {
    hide ParsePolicyVersionId, PolicyVersionId, PolicyCounterId, Updated, Written, FindJoined, Join;
    ReadAsUpdate(s, c, request, now, valid);
    var s1 := Apply(s, ReadPolicy(c, request), valid);
    if c in s1.calls {
      assert s1.calls - {c} == s.calls;
      var s2 := Decide(s1, c, s1.calls[c], now, valid);
      assert s2 == Apply(s1, ReadVersion(c, now), valid);
      DecidesAsUpdate(s1, c, now, valid);
      assert s2.calls - {c} == s.calls;
      hide Apply;
      WritesAfterDecision(s2, c, valid);
    }
  }

  /** The first read either ends the call, as the update does, or holds what the update goes on with. */
  lemma ReadAsUpdate(s: State, c: nat, request: Policy, now: Time, valid: Validator)
    requires c !in s.calls && request.entity.Some?
    ensures var s1 := Apply(s, ReadPolicy(c, request), valid);
            if c in s1.calls then
              s1.docs == s.docs && s1.calls[c].GotPolicy? && s1.calls[c].request == request &&
              FindJoined(s.docs, request.id) == Join(s.docs, s1.calls[c].snapshot, s1.calls[c].versionId)
            else s1 == s && Updated(s.docs, request, now, valid).0 == s.docs
  {
    hide ParsePolicyVersionId, PolicyVersionId, PolicyCounterId;
  }

  lemma DecidesAsUpdate(s: State, c: nat, now: Time, valid: Validator)
    requires c in s.calls && s.calls[c].GotPolicy? && s.calls[c].request.entity.Some?
    requires var call := s.calls[c];
             FindJoined(s.docs, call.request.id) == Join(s.docs, call.snapshot, call.versionId)
    ensures var call, s' := s.calls[c], Decide(s, c, s.calls[c], now, valid);
            Updated(s.docs, call.request, now, valid).0 ==
            if c in s'.calls then Written(s.docs, s'.calls[c]) else s.docs
  {
  }

  /** The documents an update in flight writes, when it has decided and nothing comes in between. */
  function Written(docs: Docs<PolicyDoc>, call: Call): Docs<PolicyDoc> {
    match call
    case Committing(id, policy, added) =>
      (match ApplyBulk(docs, UpdateActions(id, policy, added)) case None => docs case Some(docs') => docs')
    case NeedsNumber(id, policy, next, now) =>
      var bumped := Bumped(docs, id);
      var version := ToUint32(CounterOf(bumped, id));
      var entity := Numbered(next, id, version, now);
      Committed(bumped, id, policy.(currentVersion := version), Some(entity), entity).0
    case _ => docs
  }

  lemma WritesAfterDecision(s: State, c: nat, valid: Validator)
    requires c in s.calls ==> s.calls[c].Committing? || s.calls[c].NeedsNumber?
    ensures var s' := Apply(Apply(s, Bump(c), valid), Commit(c), valid);
            s'.calls == s.calls - {c} && s'.docs == if c in s.calls then Written(s.docs, s.calls[c]) else s.docs
  {
    if c in s.calls {
      var s1 := Apply(s, Bump(c), valid);
      assert s1.calls - {c} == s.calls - {c};
      if s.calls[c].NeedsNumber? {
        assert s1 == Number(s, c, s.calls[c]);
      } else {
        assert s1 == s;
      }
    } else {
      assert s.calls - {c} == s.calls;
    }
  }

  lemma DeleteIsItsSteps(s: State, c: nat, id: string, valid: Validator)
    requires c !in s.calls
    ensures var s' := Apply(Apply(s, ReadForDelete(c, id), valid), WriteDelete(c), valid);
            s'.docs == Deleted(s.docs, id).0 && s'.calls == s.calls
  {
    var s1 := Apply(s, ReadForDelete(c, id), valid);
    assert s1.calls - {c} == s.calls;
  }

  // ----- what an interleaved write can undo -----

  function ReadTwice(s: State, c: nat, request: Policy, now: Time, valid: Validator): State {
    Apply(Apply(s, ReadPolicy(c, request), valid), ReadVersion(c, now), valid)
  }

  function DeleteSteps(s: State, d: nat, id: string, valid: Validator): State {
    Apply(Apply(s, ReadForDelete(d, id), valid), WriteDelete(d), valid)
  }

  lemma EditInFlight(s: State, id: string, c: nat, request: Policy, now: Time, valid: Validator)
    requires Inv(s) && HasPolicy(s.docs, id) && !s.docs[id].source.policy.deleted
    requires c !in s.calls && request.id == id && FindJoined(s.docs, id).Ok?
    requires request.entity == FindJoined(s.docs, id).value.entity && request.entity.Some?
    ensures var s1 := ReadTwice(s, c, request, now, valid);
            s1.docs == s.docs && c in s1.calls && s1.calls[c].Committing? && s1.calls[c].id == id &&
            s1.calls[c].added.None? && !s1.calls[c].policy.deleted && s1.calls.Keys == s.calls.Keys + {c}
  {
    assert WellFormedAt(s.docs, id);
    StoredPolicyIsReadable(s.docs, id);
    var s0 := Apply(s, ReadPolicy(c, request), valid);
    assert ReadTwice(s, c, request, now, valid) == Decide(s0, c, s0.calls[c], now, valid);
  }

  /** An update that read the policy before a delete was written brings the policy back:
      in every state, for every stored live policy and any two unused call numbers. */
  lemma UpdateUndoesDelete(s: State, id: string, c: nat, d: nat, request: Policy, now: Time, valid: Validator)
    requires Inv(s) && HasPolicy(s.docs, id) && !s.docs[id].source.policy.deleted
    requires c !in s.calls && d !in s.calls && c != d && request.id == id && FindJoined(s.docs, id).Ok?
    requires request.entity == FindJoined(s.docs, id).value.entity && request.entity.Some?
    ensures var s2 := DeleteSteps(ReadTwice(s, c, request, now, valid), d, id, valid);
            var s3 := Apply(s2, Commit(c), valid);
            HasPolicy(s2.docs, id) && s2.docs[id].source.policy.deleted &&
            HasPolicy(s3.docs, id) && !s3.docs[id].source.policy.deleted
  {
    var s1 := ReadTwice(s, c, request, now, valid);
    EditInFlight(s, id, c, request, now, valid);
    assert WellFormedAt(s.docs, id);
    DeleteIsItsSteps(s1, d, id, valid);
    var s2 := DeleteSteps(s1, d, id, valid);
    assert s2.docs == Deleted(s1.docs, id).0;
    EditBulk(s2.docs, id, s2.calls[c].policy);
  }

  // ----- ids the write operations may be given -----

  /** DeletePolicy does not check its id. It keeps the documents in shape exactly when the id has no dot or names
      nothing: any other id is that of a version or counter document, which it overwrites. */
  lemma DeleteKeepsShapeExactly(docs: Docs<PolicyDoc>, id: string)
    requires WellFormed(docs)
    ensures WellFormed(Deleted(docs, id).0) <==> DotFree(id) || id !in docs
  {
    var docs' := Deleted(docs, id).0;
    if id in docs && id != "" {
      if DotFree(id) {
        FoundIsStorable(docs, id);
        OverwriteKeepsShape(docs, id, FindPolicy(docs, id).value.(deleted := true));
      } else {
        assert docs'[id].source.PolicyDoc?;
        assert !WellFormedAt(docs', id);
      }
    } else if id == "" && id in docs {
      assert WellFormedAt(docs, id);
    }
  }

  /** An update that passes its checks and goes on to write. */
  predicate Writes(docs: Docs<PolicyDoc>, request: Policy, now: Time, valid: Validator)
    requires request.entity.Some?
  {
    var current := FindJoined(docs, request.id);
    current.Ok? && !Prepare(current.value, request, now, valid).Rejected?
  }

  /** Nor does UpdatePolicy: an id with a dot passes its read and is then written to. */
  lemma UpdateKeepsShapeExactly(docs: Docs<PolicyDoc>, request: Policy, now: Time, valid: Validator)
    requires WellFormed(docs) && request.entity.Some?
    ensures WellFormed(Updated(docs, request, now, valid).0)
            <==> DotFree(request.id) || !Writes(docs, request, now, valid)
  {
    if Writes(docs, request, now, valid) {
      if DotFree(request.id) {
        DotFreeUpdateKeepsShape(docs, request, now, valid);
      } else {
        DottedUpdateBreaksShape(docs, request, now, valid);
      }
    }
  }

  lemma DotFreeUpdateKeepsShape(docs: Docs<PolicyDoc>, request: Policy, now: Time, valid: Validator)
    requires WellFormed(docs) && request.entity.Some? && DotFree(request.id) && Writes(docs, request, now, valid)
    ensures WellFormed(Updated(docs, request, now, valid).0)
  {
    var id := request.id;
    FoundIsStorable(docs, id);
    match Prepare(FindJoined(docs, id).value, request, now, valid)
    case KeepsContent(policy, _) =>
      EditBulk(docs, id, policy);
      OverwriteKeepsShape(docs, id, policy);
    case ChangesContent(policy, next) =>
      BumpKeepsShape(docs, id);
      var bumped := Bumped(docs, id);
      BumpCountsOne(docs, id, id);
      var version := ToUint32(CounterOf(bumped, id));
      var e := Numbered(next, id, version, now);
      HasDot(id, Decimal(version));
      CommitBulk(bumped, id, policy.(currentVersion := version), e);
      if e.id !in bumped {
        AddVersionKeepsShape(bumped, id, policy.(currentVersion := version), e);
      }
  }

  lemma DottedUpdateBreaksShape(docs: Docs<PolicyDoc>, request: Policy, now: Time, valid: Validator)
    requires WellFormed(docs) && request.entity.Some? && !DotFree(request.id) && Writes(docs, request, now, valid)
    ensures !WellFormed(Updated(docs, request, now, valid).0)
  {
    var id := request.id;
    var docs' := Updated(docs, request, now, valid).0;
    match Prepare(FindJoined(docs, id).value, request, now, valid)
    case KeepsContent(policy, _) =>
      EditBulk(docs, id, policy);
      assert !WellFormedAt(docs', id);
    case ChangesContent(policy, next) =>
      var bumped := Bumped(docs, id);
      var version := ToUint32(CounterOf(bumped, id));
      var e := Numbered(next, id, version, now);
      TwoDotsHoldNothing(docs, id, Decimal(version));
      SameLengthSuffix(id, version);
      CommitBulk(bumped, id, policy.(currentVersion := version), e);
      assert docs'[id].source.PolicyDoc?;
      assert !WellFormedAt(docs', id);
  }

  lemma SameLengthSuffix(id: string, v: uint32)
    ensures PolicyVersionId(id, v) != PolicyCounterId(id) && PolicyVersionId(id, v) != id
  {
    CounterIdIsItsOwn(id, id, v);
  }

  /** No document has an id with two dots. */
  lemma TwoDotsHoldNothing(docs: Docs<PolicyDoc>, id: string, suffix: string)
    requires WellFormed(docs) && !DotFree(id)
    ensures id + "." + suffix !in docs
  {
    var k := id + "." + suffix;
    SplitCounts(id, '.', suffix);
    if k in docs {
      assert WellFormedAt(docs, k);
      OneDot(docs, k);
    }
  }

  lemma {:induction false} OneDot(docs: Docs<PolicyDoc>, k: string)
    requires k in docs && WellFormedAt(docs, k) && (!docs[k].source.PolicyDoc? ==> DotFree(BaseOf(k)))
    ensures |Split(k, '.')| <= 2
  {
    match docs[k].source
    case PolicyDoc(_) =>
    case CounterDoc => SuffixedId(BaseOf(k), "counter");
    case VersionDoc(e) =>
      AtoiOfDecimal(e.version);
      SuffixedId(BaseOf(k), Decimal(e.version));
  }
}
