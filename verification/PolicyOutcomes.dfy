/** What whole requests to the policy manager answer and leave in the index, field by field, and that reading a policy
    back gives what the request was answered. */
module PolicyOutcomes {
  import opened Wrappers
  import opened Text
  import opened PolicyIds
  import opened Elastic
  import opened Policies
  import opened PolicySteps
  import PolicyNumbers

  // ----- ids, written out -----

  lemma {:induction false} IdsAre(p: string, v: uint32)
    requires DotFree(p)
    ensures PolicyCounterId(p) == p + ".counter" && PolicyVersionId(p, v) == p + "." + Decimal(v)
    ensures p != p + ".counter" && p != p + "." + Decimal(v) && p + ".counter" != p + "." + Decimal(v)
  {
    assert p + "." + "counter" == p + ".counter";
    IdSpacesAreDisjoint(p, v, p, v);
    HasDot(p, "counter");
    HasDot(p, Decimal(v));
  }

  // ----- creating -----

  predicate CanCreate(docs: Docs<PolicyDoc>, request: Policy, p: string, valid: Validator) {
    && request.name != "" && request.entity.Some?
    && request.entity.value.regoContent != "" && valid(request.entity.value.regoContent)
    && p !in docs && p + ".counter" !in docs && p + ".1" !in docs
  }

  /** The first version has the content of the request and the server's message, whatever message was sent. */
  function FirstVersion(entity: PolicyEntity, p: string, now: Time): PolicyEntity {
    PolicyEntity(p + ".1", 1, "Initial policy creation", entity.regoContent, entity.sourcePath, Some(now))
  }

  function FirstPolicy(request: Policy, p: string, now: Time): Policy {
    Policy(p, request.name, request.description, 1, None, Some(now), Some(now), request.deleted)
  }

  function ThreeDocuments(docs: Docs<PolicyDoc>, policy: Policy, e: PolicyEntity): Docs<PolicyDoc> {
    docs[policy.id := Doc(PolicyDoc(policy), None, 1)][policy.id + ".counter" := Doc(CounterDoc, None, 1)]
      [policy.id + ".1" := Doc(VersionDoc(e), Some(policy.id), 1)]
  }

  /** A create is accepted exactly for a named policy with accepted content and unused ids, and then adds these three
      documents; a refused one changes nothing. */
  lemma CreateOutcome(docs: Docs<PolicyDoc>, request: Policy, p: string, now: Time, valid: Validator)
    requires p != "" && DotFree(p) && SlashFree(p)
    ensures var (docs', r) := Created(docs, request, p, now, valid);
            (r.Ok? <==> CanCreate(docs, request, p, valid)) &&
            (r.Err? ==> docs' == docs) &&
            (r.Err? && p !in docs && p + ".counter" !in docs && p + ".1" !in docs ==> r.code == InvalidArgument) &&
            (r.Ok? ==>
               var policy, e := FirstPolicy(request, p, now), FirstVersion(request.entity.value, p, now);
               docs' == ThreeDocuments(docs, policy, e) && r == Ok(policy.(entity := Some(e))))
  {
    FirstId(p);
    IdsAre(p, 1);
    if request.entity.Some? {
      CreateBulk(docs, InitialPolicy(request, p, now), InitialEntity(request.entity.value, p, now));
    }
    hide ApplyBulk, CreateActions, PolicyVersionId, PolicyCounterId;
  }

  /** The created policy reads back as answered. */
  lemma CreatedReadsBack(docs: Docs<PolicyDoc>, request: Policy, p: string, now: Time, valid: Validator)
    requires p != "" && DotFree(p) && SlashFree(p)
    ensures var (docs', r) := Created(docs, request, p, now, valid); r.Ok? ==> FindJoined(docs', p) == r
  {
    CreateOutcome(docs, request, p, now, valid);
    FirstId(p);
    IdsAre(p, 1);
    ParseUndoesVersionId(p, 1);
    DotFreeParses(p);
    hide Created, PolicyVersionId, PolicyCounterId, ParsePolicyVersionId;
  }

  lemma FirstId(p: string)
    ensures PolicyVersionId(p, 1) == p + ".1"
  {
    assert Decimal(1) == "1";
  }

  lemma DotFreeParses(p: string)
    requires DotFree(p)
    ensures ParsePolicyVersionId(p) == Ok((p, 0))
  {
  }

  // ----- updating -----

  predicate SameAs(current: PolicyEntity, updated: PolicyEntity) {
    current.regoContent == updated.regoContent && current.sourcePath == updated.sourcePath
  }

  /** A policy with its counter and its current version, as all stored ones are. */
  predicate Complete(docs: Docs<PolicyDoc>, p: string) {
    && HasPolicy(docs, p) && docs[p].source.policy.id == p && p + ".counter" in docs
    && HasVersion(docs, p, docs[p].source.policy.currentVersion)
  }

  lemma StoredIsComplete(docs: Docs<PolicyDoc>, p: string)
    requires WellFormed(docs)
    ensures Complete(docs, p) <==> HasPolicy(docs, p)
    ensures HasPolicy(docs, p) ==> p != "" && DotFree(p)
    ensures DotFree(p) && p in docs ==> HasPolicy(docs, p)
  {
    if p in docs {
      assert WellFormedAt(docs, p);
      HasDot(BaseOf(p), "counter");
      if docs[p].source.VersionDoc? {
        HasDot(BaseOf(p), Decimal(docs[p].source.entity.version));
      } else if docs[p].source.PolicyDoc? {
        IdsAre(p, 0);
      }
    }
  }

  /** The content of the current version. */
  function Content(docs: Docs<PolicyDoc>, p: string): PolicyEntity
    requires Complete(docs, p)
  {
    docs[PolicyVersionId(p, docs[p].source.policy.currentVersion)].source.entity
  }

  /** The number an update with new content gets. */
  function NextNumber(docs: Docs<PolicyDoc>, p: string): uint32
    requires Complete(docs, p)
  {
    (docs[p + ".counter"].version + 1) % 0x1_0000_0000
  }

  function NextVersion(entity: PolicyEntity, p: string, n: uint32, now: Time): PolicyEntity {
    PolicyEntity(p + "." + Decimal(n), n, if entity.message == "" then "Updated policy" else entity.message,
                 entity.regoContent, entity.sourcePath, Some(now))
  }

  /** Name and description are the request's, everything else is the server's. */
  function Renamed(policy: Policy, request: Policy, n: uint32, now: Time): Policy {
    Policy(policy.id, request.name, request.description, n, None, policy.created, Some(now), false)
  }

  /** The update changed the policy document and nothing else. */
  predicate Edits(docs: Docs<PolicyDoc>, request: Policy, now: Time, docs': Docs<PolicyDoc>, answer: Policy)
    requires Complete(docs, request.id)
  {
    var p := request.id;
    var policy := Renamed(docs[p].source.policy, request, docs[p].source.policy.currentVersion, now);
    && docs' == docs[p := Doc(PolicyDoc(policy), None, docs[p].version + 1)]
    && answer == policy.(entity := Some(Content(docs, p)))
  }

  /** The update counted, wrote the policy document and added one version with the request's content. */
  predicate AddsVersion(docs: Docs<PolicyDoc>, request: Policy, now: Time, docs': Docs<PolicyDoc>, answer: Policy)
    requires Complete(docs, request.id) && request.entity.Some?
  {
    var p, n := request.id, NextNumber(docs, request.id);
    var policy, e := Renamed(docs[p].source.policy, request, n, now), NextVersion(request.entity.value, p, n, now);
    && e.id !in docs
    && docs' == docs[p + ".counter" := Doc(CounterDoc, None, docs[p + ".counter"].version + 1)]
         [p := Doc(PolicyDoc(policy), None, docs[p].version + 1)][e.id := Doc(VersionDoc(e), Some(p), 1)]
    && answer == policy.(entity := Some(e))
  }

  predicate AcceptedContent(e: PolicyEntity, valid: Validator) {
    e.regoContent != "" && valid(e.regoContent)
  }

  /** Why an update is refused. */
  predicate RefusedWith(docs: Docs<PolicyDoc>, request: Policy, valid: Validator, code: Code)
    requires request.entity.Some?
  {
    var p, e := request.id, request.entity.value;
    if p == "" then code == InvalidArgument
    else if !Complete(docs, p) then code == NotFound
    else if docs[p].source.policy.deleted then code == FailedPrecondition
    else if SameAs(Content(docs, p), e) then false
    else if !AcceptedContent(e, valid) then code == InvalidArgument
    else code == Internal && p + "." + Decimal(NextNumber(docs, p)) in docs
  }

  /** An update of a live policy that keeps both the Rego and the source path edits the policy document; one that
      changes either adds exactly one version, when the new content is accepted; everything else is refused. */
  lemma UpdateOutcome(docs: Docs<PolicyDoc>, request: Policy, now: Time, valid: Validator)
    requires WellFormed(docs) && DotFree(request.id) && request.entity.Some?
    ensures var (docs', r) := Updated(docs, request, now, valid);
            (r.Err? ==> RefusedWith(docs, request, valid, r.code) && (r.code != Internal ==> docs' == docs)) &&
            (r.Ok? ==>
               Complete(docs, request.id) && !docs[request.id].source.policy.deleted &&
               if SameAs(Content(docs, request.id), request.entity.value)
               then Edits(docs, request, now, docs', r.value)
               else AcceptedContent(request.entity.value, valid) && AddsVersion(docs, request, now, docs', r.value))
  {
    var p := request.id;
    StoredIsComplete(docs, p);
    DotFreeParses(p);
    if HasPolicy(docs, p) {
      UpdateOfStored(docs, request, now, valid);
    } else {
      hide WellFormed, Complete;
    }
  }

  lemma UpdateOfStored(docs: Docs<PolicyDoc>, request: Policy, now: Time, valid: Validator)
    requires WellFormed(docs) && DotFree(request.id) && request.entity.Some? && Complete(docs, request.id)
    requires request.id != ""
    ensures var (docs', r) := Updated(docs, request, now, valid);
            (r.Err? ==> RefusedWith(docs, request, valid, r.code) && (r.code != Internal ==> docs' == docs)) &&
            (r.Ok? ==>
               !docs[request.id].source.policy.deleted &&
               if SameAs(Content(docs, request.id), request.entity.value)
               then Edits(docs, request, now, docs', r.value)
               else AcceptedContent(request.entity.value, valid) && AddsVersion(docs, request, now, docs', r.value))
  {
    var p := request.id;
    StoredPolicyIsReadable(docs, p);
    var n := NextNumber(docs, p);
    IdsAre(p, n);
    var current := FindJoined(docs, p).value;
    assert current == docs[p].source.policy.(entity := Some(Content(docs, p)));
    BumpedIs(docs, p);
    hide WellFormed, PolicyVersionId, PolicyCounterId, FindJoined, ApplyBulk, UpdateActions, Complete, Content, Bumped,
      CounterOf, AddsVersion;
    match Prepare(current, request, now, valid) {
      case Rejected(_) =>
      case KeepsContent(policy, _) => EditBulk(docs, p, policy);
      case ChangesContent(policy, next) =>
        hide Committed, Edits, Renamed;
        ChangeIs(docs, request, now, policy, next);
    }
  }

  /** The bulk request of an update with new content. */
  lemma ChangeIs(docs: Docs<PolicyDoc>, request: Policy, now: Time, policy: Policy, next: PolicyEntity)
    requires DotFree(request.id) && request.entity == Some(next) && Complete(docs, request.id)
    requires policy == Renamed(docs[request.id].source.policy, request,
                               docs[request.id].source.policy.currentVersion, now)
    ensures var p, n := request.id, NextNumber(docs, request.id);
            var e := Numbered(next, p, n, now);
            var (docs', r) := Committed(Bumped(docs, p), p, policy.(currentVersion := n), Some(e), e);
            if p + "." + Decimal(n) in docs then r == Err(Internal)
            else r.Ok? && AddsVersion(docs, request, now, docs', r.value)
  {
    var p, n := request.id, NextNumber(docs, request.id);
    IdsAre(p, n);
    BumpedIs(docs, p);
    hide PolicyVersionId, PolicyCounterId, ApplyBulk, UpdateActions, Complete, Content, Bumped, CounterOf;
    CommitBulk(Bumped(docs, p), p, policy.(currentVersion := n), Numbered(next, p, n, now));
  }

  lemma BumpedIs(docs: Docs<PolicyDoc>, p: string)
    requires Complete(docs, p) && DotFree(p)
    ensures Bumped(docs, p) == docs[p + ".counter" := Doc(CounterDoc, None, docs[p + ".counter"].version + 1)]
    ensures ToUint32(CounterOf(Bumped(docs, p), p)) == NextNumber(docs, p)
  {
    IdsAre(p, 0);
  }

  /** The caller's entity becomes the new version when the content changes and is accepted, and is left alone
      otherwise. */
  lemma EntityOutcome(docs: Docs<PolicyDoc>, request: Policy, now: Time, valid: Validator)
    requires WellFormed(docs) && DotFree(request.id) && request.entity.Some?
    ensures var p, e := request.id, request.entity.value;
            EntityAfter(docs, request, now, valid) ==
            if Complete(docs, p) && !docs[p].source.policy.deleted && !SameAs(Content(docs, p), e) &&
               AcceptedContent(e, valid)
            then NextVersion(e, p, NextNumber(docs, p), now) else e
  {
    var p := request.id;
    StoredIsComplete(docs, p);
    DotFreeParses(p);
    if HasPolicy(docs, p) {
      StoredPolicyIsReadable(docs, p);
      BumpedIs(docs, p);
      IdsAre(p, NextNumber(docs, p));
      hide WellFormed, PolicyVersionId, PolicyCounterId, FindJoined, Complete, Content, Bumped, CounterOf;
    } else {
      hide WellFormed, Complete;
    }
  }

  /** The updated policy reads back as answered, with exactly the Rego and the source path of the request. */
  lemma UpdatedReadsBack(docs: Docs<PolicyDoc>, request: Policy, now: Time, valid: Validator)
    requires WellFormed(docs) && DotFree(request.id) && request.entity.Some?
    ensures var (docs', r) := Updated(docs, request, now, valid);
            r.Ok? ==>
              FindJoined(docs', request.id) == r &&
              r.value.entity.value.regoContent == request.entity.value.regoContent &&
              r.value.entity.value.sourcePath == request.entity.value.sourcePath
  {
    var (docs', r) := Updated(docs, request, now, valid);
    UpdateOutcome(docs, request, now, valid);
    if r.Ok? {
      var p := request.id;
      StoredIsComplete(docs, p);
      DotFreeParses(p);
      var n := if SameAs(Content(docs, p), request.entity.value) then docs[p].source.policy.currentVersion
               else NextNumber(docs, p);
      IdsAre(p, n);
      ParseUndoesVersionId(p, n);
      hide Updated, ParsePolicyVersionId, PolicyVersionId, PolicyCounterId, WellFormed;
    }
  }

  /** The policy gets one more version exactly when the request's content differs from the one read before, and no
      version of any policy is changed or lost. */
  lemma VersionsAfterUpdate(docs: Docs<PolicyDoc>, request: Policy, now: Time, valid: Validator, q: string, v: uint32)
    requires WellFormed(docs) && DotFree(request.id) && request.entity.Some? && DotFree(q)
    ensures var (docs', r) := Updated(docs, request, now, valid);
            r.Ok? ==>
              Complete(docs, request.id) &&
              var isNew := !SameAs(Content(docs, request.id), request.entity.value) && q == request.id &&
                           v == NextNumber(docs, request.id);
              (HasVersion(docs', q, v) <==> HasVersion(docs, q, v) || isNew) &&
              (HasVersion(docs, q, v) ==>
                 !isNew && docs'[PolicyVersionId(q, v)] == docs[PolicyVersionId(q, v)])
  {
    var (docs', r) := Updated(docs, request, now, valid);
    UpdateOutcome(docs, request, now, valid);
    if r.Ok? {
      IdSpacesAreDisjoint(request.id, v, q, v);
      hide Updated, PolicyVersionId, WellFormed, Complete, Content, SameAs;
      if SameAs(Content(docs, request.id), request.entity.value) {
        hide Renamed;
      } else {
        VersionsAfterAdding(docs, request, now, docs', r.value, q, v);
      }
    }
  }

  lemma VersionsAfterAdding(docs: Docs<PolicyDoc>, request: Policy, now: Time, docs': Docs<PolicyDoc>, answer: Policy,
                            q: string, v: uint32)
    requires DotFree(request.id) && request.entity.Some? && DotFree(q) && Complete(docs, request.id)
    requires AddsVersion(docs, request, now, docs', answer)
    ensures var isNew := q == request.id && v == NextNumber(docs, request.id);
            (HasVersion(docs', q, v) <==> HasVersion(docs, q, v) || isNew) &&
            (HasVersion(docs, q, v) ==> !isNew && docs'[PolicyVersionId(q, v)] == docs[PolicyVersionId(q, v)])
  {
    var p, n := request.id, NextNumber(docs, request.id);
    IdsAre(p, n);
    IdSpacesAreDisjoint(p, n, q, v);
    IdSpacesAreDisjoint(q, v, p, v);
    hide PolicyVersionId, PolicyCounterId, Complete, Renamed, NextNumber, DotFree, Content;
  }

  // ----- deleting -----

  /** A delete succeeds exactly on a stored policy, and sets its flag and nothing else. */
  lemma DeleteOutcome(docs: Docs<PolicyDoc>, p: string)
    requires WellFormed(docs) && DotFree(p)
    ensures var (docs', r) := Deleted(docs, p);
            (r.Ok? <==> HasPolicy(docs, p)) &&
            (r.Err? ==> docs' == docs && r.code == if p == "" then InvalidArgument else NotFound) &&
            (r.Ok? ==>
               var was := docs[p].source.policy;
               var policy := Policy(
                 was.id, was.name, was.description, was.currentVersion, was.entity, was.created, was.updated, true);
               docs' == docs[p := Doc(PolicyDoc(policy), None, docs[p].version + 1)])
  {
    StoredIsComplete(docs, p);
    hide WellFormed, Complete;
  }

  // ----- reading -----

  /** A policy id reads the current version, a version id that version; other ids name nothing. */
  lemma {:induction false} GetOutcome(docs: Docs<PolicyDoc>, p: string, v: uint32)
    requires WellFormed(docs) && DotFree(p)
    ensures FindJoined(docs, p) ==
            if p == "" then Err(InvalidArgument)
            else if !HasPolicy(docs, p) then Err(NotFound)
            else Ok(docs[p].source.policy.(entity := Some((StoredIsComplete(docs, p); Content(docs, p)))))
    ensures v != 0 ==>
              FindJoined(docs, p + "." + Decimal(v)) ==
              if p == "" then Err(InvalidArgument)
              else if !HasPolicy(docs, p) then Err(NotFound)
              else if !HasVersion(docs, p, v) then Err(Internal)
              else Ok(docs[p].source.policy.(entity := Some(docs[PolicyVersionId(p, v)].source.entity)))
  {
    StoredIsComplete(docs, p);
    DotFreeParses(p);
    ParseUndoesVersionId(p, v);
    IdsAre(p, v);
    if HasPolicy(docs, p) {
      StoredPolicyIsReadable(docs, p);
      if PolicyVersionId(p, v) in docs {
        PolicyNumbers.VersionIdHoldsVersion(docs, p, v);
      }
    }
    hide WellFormed, PolicyVersionId;
  }

  /** The lookup of a version answers with it, or with nothing. */
  lemma {:induction false} VersionOutcome(docs: Docs<PolicyDoc>, p: string, v: uint32)
    requires WellFormed(docs) && DotFree(p) && HasPolicy(docs, p)
    ensures FindVersion(docs, p + "." + Decimal(v)) ==
            Ok(if HasVersion(docs, p, v) then Some(docs[PolicyVersionId(p, v)].source.entity) else None)
  {
    ParseUndoesVersionId(p, v);
    IdsAre(p, v);
    if PolicyVersionId(p, v) in docs {
      PolicyNumbers.VersionIdHoldsVersion(docs, p, v);
    }
    hide WellFormed, PolicyVersionId;
  }

  /** A listing holds exactly the stored policies that are not marked as deleted, and each as reading it gives it. */
  lemma ListingOutcome(docs: Docs<PolicyDoc>, hits: seq<string>, p: string, listed: Policy)
    requires WellFormed(docs) && IsListing(hits, docs, IsLivePolicy)
    ensures p in hits <==> HasPolicy(docs, p) && !docs[p].source.policy.deleted
    ensures p in hits ==> (ListedAs(docs, p, listed) <==> FindJoined(docs, p) == Ok(listed))
  {
    if p in hits {
      StoredIsComplete(docs, p);
      StoredPolicyIsReadable(docs, p);
      hide WellFormed, PolicyVersionId, FindJoined;
    }
  }

  /** So a listing that starts after a delete does not hold the policy, and lists the same others. */
  lemma DeletedIsNotListed(docs: Docs<PolicyDoc>, p: string, before: seq<string>, after: seq<string>)
    requires WellFormed(docs) && HasPolicy(docs, p) && IsListing(before, docs, IsLivePolicy)
    requires IsListing(after, Deleted(docs, p).0, IsLivePolicy)
    ensures forall q :: q in after <==> q in before && q != p
  {
    StoredIsComplete(docs, p);
    DeleteOutcome(docs, p);
    hide Deleted, WellFormed;
  }

  /** In every state that interleaved requests reach, a create or an update that is answered reads back as answered. */
  lemma {:induction false} AnswersReadBack(labels: seq<Label>, request: Policy, p: string, now: Time, valid: Validator)
    requires AllAddressed(labels) && DotFree(request.id) && request.entity.Some?
    requires p != "" && DotFree(p) && SlashFree(p)
    ensures var docs := Run(labels, valid).docs;
            var (created, r) := Created(docs, request, p, now, valid);
            var (updated, u) := Updated(docs, request, now, valid);
            (r.Ok? ==> FindJoined(created, p) == r) && (u.Ok? ==> FindJoined(updated, request.id) == u)
  {
    Reachable(labels, valid);
    var docs := Run(labels, valid).docs;
    hide Run, WellFormed, Created, Updated, FindJoined;
    CreatedReadsBack(docs, request, p, now, valid);
    UpdatedReadsBack(docs, request, now, valid);
  }
}
