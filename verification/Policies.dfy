/** The policy manager (pkg/policy/manager.go). A policy is three kinds of document in one index:
    the policy, an empty counter document whose document version allocates version numbers, and one
    document per policy version. */
module Policies {
  import opened Wrappers
  import opened Text
  import opened PolicyIds
  import opened Elastic

  datatype PolicyEntity = PolicyEntity(
    id: string, version: uint32, message: string, regoContent: string, sourcePath: string, created: Option<Time>)

  datatype Policy = Policy(
    id: string, name: string, description: string, currentVersion: uint32, entity: Option<PolicyEntity>,
    created: Option<Time>, updated: Option<Time>, deleted: bool)

  datatype PolicyDoc = PolicyDoc(policy: Policy) | CounterDoc | VersionDoc(entity: PolicyEntity)

  /** Compiling a module and checking its required rules is a parameter. */
  type Validator = string -> bool

  predicate Accepts(valid: Validator, rego: string) {
    rego != "" && valid(rego)
  }

  const EMPTY_ENTITY := PolicyEntity("", 0, "", "", "", None)

  /** Unmarshalling discards unknown fields, so any document reads as a policy ... */
  function AsPolicy(doc: PolicyDoc): Policy {
    match doc
    case PolicyDoc(p) => p
    case CounterDoc => Policy("", "", "", 0, None, None, None, false)
    case VersionDoc(e) => Policy(e.id, "", "", 0, None, e.created, None, false)
  }

  /** ... and as a policy version. */
  function AsEntity(doc: PolicyDoc): PolicyEntity {
    match doc
    case PolicyDoc(p) => EMPTY_ENTITY.(id := p.id, created := p.created)
    case CounterDoc => EMPTY_ENTITY
    case VersionDoc(e) => e
  }

  // ----- what each operation computes -----

  /** getPolicy: the lookup of a policy document. */
  function FindPolicy(docs: Docs<PolicyDoc>, id: string): Result<Policy> {
    if id == "" then Err(InvalidArgument)
    else if id !in docs then Err(NotFound)
    else Ok(AsPolicy(docs[id].source))
  }

  function FindVersion(docs: Docs<PolicyDoc>, id: string): Result<Option<PolicyEntity>> {
    if ParsePolicyVersionId(id).Err? then Err(Internal)
    else if id !in docs then Ok(None)
    else Ok(Some(AsEntity(docs[id].source)))
  }

  /** The version document a policy lookup goes on to read; version 0 asks for the current one. */
  function WantedVersion(policy: Policy, version: uint32): string {
    PolicyVersionId(policy.id, if version == 0 then policy.currentVersion else version)
  }

  function Join(docs: Docs<PolicyDoc>, policy: Policy, versionId: string): (r: Result<Policy>)
    ensures r.Ok? ==> r.value.entity.Some?
  {
    match FindVersion(docs, versionId)
    case Err(_) => Err(Internal)
    case Ok(None) => Err(Internal)
    case Ok(Some(e)) => Ok(policy.(entity := Some(e)))
  }

  function FindJoined(docs: Docs<PolicyDoc>, id: string): (r: Result<Policy>)
    ensures r.Ok? ==> r.value.entity.Some?
  {
    match ParsePolicyVersionId(id)
    case Err(_) => Err(InvalidArgument)
    case Ok((p, v)) =>
      match FindPolicy(docs, p)
      case Err(code) => Err(code)
      case Ok(policy) => Join(docs, policy, WantedVersion(policy, v))
  }

  predicate HasPolicyContentChanges(current: PolicyEntity, updated: PolicyEntity) {
    !(updated.regoContent == current.regoContent && updated.sourcePath == current.sourcePath)
  }

  function InitialPolicy(request: Policy, newId: string, now: Time): Policy {
    request.(id := newId, created := Some(now), updated := Some(now), currentVersion := 1, entity := None)
  }

  function InitialEntity(entity: PolicyEntity, newId: string, now: Time): PolicyEntity {
    entity.(id := PolicyVersionId(newId, 1), version := 1, message := "Initial policy creation", created := Some(now))
  }

  function CreateActions(policy: Policy, entity: PolicyEntity): seq<Action<PolicyDoc>> {
    [Action(BulkCreate, policy.id, PolicyDoc(policy), None),
     Action(BulkCreate, PolicyCounterId(policy.id), CounterDoc, None),
     Action(BulkCreate, entity.id, VersionDoc(entity), Some(policy.id))]
  }

  function Created(docs: Docs<PolicyDoc>, request: Policy, newId: string, now: Time, valid: Validator)
    : (Docs<PolicyDoc>, Result<Policy>)
  {
    if request.name == "" || request.entity.None? then
      (docs, Err(InvalidArgument))
    else
      var policy := InitialPolicy(request, newId, now);
      var entity := InitialEntity(request.entity.value, newId, now);
      if !Accepts(valid, entity.regoContent) then
        (docs, Err(InvalidArgument))
      else
        match ApplyBulk(docs, CreateActions(policy, entity))
        case None => (docs, Err(Internal))
        case Some(docs') => (docs', Ok(policy.(entity := Some(entity))))
  }

  /** The decision an update takes between its reads and its writes. */
  datatype Prepared =
    | Rejected(code: Code)
    | KeepsContent(policy: Policy, current: PolicyEntity)
    | ChangesContent(policy: Policy, next: PolicyEntity)

  function Prepare(current: Policy, request: Policy, now: Time, valid: Validator): Prepared
    requires current.entity.Some? && request.entity.Some?
  {
    if current.deleted then
      Rejected(FailedPrecondition)
    else
      var edited := current.(
        name := request.name, description := request.description, updated := Some(now), entity := None);
      var entity, next := current.entity.value, request.entity.value;
      if !HasPolicyContentChanges(entity, next) then KeepsContent(edited, entity)
      else if !Accepts(valid, next.regoContent) then Rejected(InvalidArgument)
      else ChangesContent(edited, next)
  }

  function Numbered(next: PolicyEntity, policyId: string, version: uint32, now: Time): PolicyEntity {
    next.(id := PolicyVersionId(policyId, version), version := version, created := Some(now),
    message := if next.message == "" then "Updated policy" else next.message)
  }

  function Bumped(docs: Docs<PolicyDoc>, policyId: string): Docs<PolicyDoc> {
    Overwritten(docs, PolicyCounterId(policyId), CounterDoc, None)
  }

  /** The document version of the counter: 0 when there is none. */
  function CounterOf(docs: Docs<PolicyDoc>, policyId: string): nat {
    var id := PolicyCounterId(policyId);
    if id in docs then docs[id].version else 0
  }

  function UpdateActions(policyId: string, policy: Policy, next: Option<PolicyEntity>): seq<Action<PolicyDoc>> {
    [Action(BulkIndex, policyId, PolicyDoc(policy), None)] +
    if next.None? then [] else [Action(BulkCreate, next.value.id, VersionDoc(next.value), Some(policyId))]
  }

  function Updated(docs: Docs<PolicyDoc>, request: Policy, now: Time, valid: Validator)
    : (Docs<PolicyDoc>, Result<Policy>)
    requires request.entity.Some?
  {
    match FindJoined(docs, request.id)
    case Err(code) => (docs, Err(code))
    case Ok(current) =>
      match Prepare(current, request, now, valid)
      case Rejected(code) => (docs, Err(code))
      case KeepsContent(policy, entity) => Committed(docs, request.id, policy, None, entity)
      case ChangesContent(policy, next) =>
        var bumped := Bumped(docs, request.id);
        var version := ToUint32(CounterOf(bumped, request.id));
        var entity := Numbered(next, request.id, version, now);
        Committed(bumped, request.id, policy.(currentVersion := version), Some(entity), entity)
  }

  /** What an update leaves in the entity it was given, which becomes the new version when the content changes. */
  function EntityAfter(docs: Docs<PolicyDoc>, request: Policy, now: Time, valid: Validator): PolicyEntity
    requires request.entity.Some?
  {
    match FindJoined(docs, request.id)
    case Err(_) => request.entity.value
    case Ok(current) =>
      match Prepare(current, request, now, valid)
      case ChangesContent(_, next) =>
        Numbered(next, request.id, ToUint32(CounterOf(Bumped(docs, request.id), request.id)), now)
      case _ => request.entity.value
  }

  function Committed(docs: Docs<PolicyDoc>, id: string, policy: Policy, next: Option<PolicyEntity>,
                     entity: PolicyEntity)
    : (Docs<PolicyDoc>, Result<Policy>)
  {
    match ApplyBulk(docs, UpdateActions(id, policy, next))
    case None => (docs, Err(Internal))
    case Some(docs') => (docs', Ok(policy.(entity := Some(entity))))
  }

  function Deleted(docs: Docs<PolicyDoc>, id: string): (Docs<PolicyDoc>, Result<()>) {
    match FindPolicy(docs, id)
    case Err(code) => (docs, Err(code))
    case Ok(policy) => (Overwritten(docs, id, PolicyDoc(policy.(deleted := true)), None), Ok(()))
  }

  /** The search behind ListPolicies: policy documents not marked as deleted. */
  predicate IsLivePolicy(doc: PolicyDoc) {
    doc.PolicyDoc? && !doc.policy.deleted
  }

  /** The i-th listed policy: the i-th hit with the version document that its current version names. */
  predicate ListedAs(docs: Docs<PolicyDoc>, id: string, listed: Policy) {
    && id in docs
    && var policy := AsPolicy(docs[id].source).(id := id);
    && PolicyVersionId(id, policy.currentVersion) in docs
    && listed == policy.(entity := Some(AsEntity(docs[PolicyVersionId(id, policy.currentVersion)].source)))
  }

  class PolicyManager {
    const policies: Index<PolicyDoc>
    const valid: Validator

    constructor (policies: Index<PolicyDoc>, valid: Validator)
      ensures this.policies == policies && this.valid == valid
    {
      this.policies, this.valid := policies, valid;
    }

    method CreatePolicy(policy: Ref<PolicyDoc>, newId: string, now: Time) returns (r: Result<Policy>)
      requires policy.v.PolicyDoc?
      modifies policies, policy
      ensures (policies.docs, r) == Created(old(policies.docs), old(policy.v.policy), newId, now, valid)
      ensures r.Ok? ==> policy.v == PolicyDoc(r.value)
    {
      if policy.v.policy.name == "" {
        return Err(InvalidArgument);
      }
      if policy.v.policy.entity.None? {
        return Err(InvalidArgument);
      }
      var policyVersion := new Ref(VersionDoc(policy.v.policy.entity.value));
      policy.v := PolicyDoc(
        policy.v.policy.(id := newId, created := Some(now), updated := Some(now), currentVersion := 1));
      policy.v := PolicyDoc(policy.v.policy.(entity := None)); // the entity is not stored in the policy document
      policyVersion.v := VersionDoc(policyVersion.v.entity.(id := PolicyVersionId(newId, 1), version := 1));
      policyVersion.v := VersionDoc(
        policyVersion.v.entity.(message := "Initial policy creation", created := Some(now)));

      if !Accepts(valid, policyVersion.v.entity.regoContent) {
        return Err(InvalidArgument);
      }
      var empty := new Ref(CounterDoc);
      var items := [
        BulkItem(BulkCreate, newId, policy, None),
        BulkItem(BulkCreate, PolicyCounterId(newId), empty, None),
        BulkItem(BulkCreate, policyVersion.v.entity.id, policyVersion, Some(newId))];
      assert Marshalled(items) == CreateActions(policy.v.policy, policyVersion.v.entity);
      var ok := policies.Bulk(items);
      if !ok {
        return Err(Internal);
      }
      policy.v := PolicyDoc(policy.v.policy.(entity := Some(policyVersion.v.entity)));
      r := Ok(policy.v.policy);
    }

    method GetPolicyVersion(id: string) returns (r: Result<Option<PolicyEntity>>)
      ensures r == FindVersion(policies.docs, id)
    {
      if ParsePolicyVersionId(id).Err? {
        return Err(Internal);
      }
      var source := policies.Get(id);
      match source {
        case None => r := Ok(None);
        case Some(doc) => r := Ok(Some(AsEntity(doc)));
      }
    }

    method FetchPolicy(id: string) returns (r: Result<Policy>)
      ensures r == FindPolicy(policies.docs, id)
    {
      if id == "" {
        return Err(InvalidArgument);
      }
      var source := policies.Get(id);
      match source {
        case None => r := Err(NotFound);
        case Some(doc) => r := Ok(AsPolicy(doc));
      }
    }

    method GetPolicy(id: string) returns (r: Result<Policy>)
      ensures r == FindJoined(policies.docs, id)
    {
      var parsed := ParsePolicyVersionId(id);
      if parsed.Err? {
        return Err(InvalidArgument);
      }
      var (policyId, version) := parsed.value;
      var fetched := FetchPolicy(policyId);
      if fetched.Err? {
        return Err(fetched.code);
      }
      var policy := fetched.value;
      if version == 0 {
        version := policy.currentVersion;
      }
      var entity := GetPolicyVersion(PolicyVersionId(policy.id, version));
      if entity.Err? || entity.value.None? {
        return Err(Internal);
      }
      r := Ok(policy.(entity := entity.value));
    }

    method DeletePolicy(id: string) returns (r: Result<()>)
      modifies policies
      ensures (policies.docs, r) == Deleted(old(policies.docs), id)
    {
      var fetched := FetchPolicy(id);
      if fetched.Err? {
        return Err(fetched.code);
      }
      var policy := fetched.value.(deleted := true);
      var _ := policies.Update(id, PolicyDoc(policy));
      r := Ok(());
    }

    method IncrementPolicyVersion(policyId: string) returns (version: uint32)
      modifies policies
      ensures policies.docs == Bumped(old(policies.docs), policyId)
      ensures version == ToUint32(CounterOf(policies.docs, policyId))
    {
      var counter := policies.Update(PolicyCounterId(policyId), CounterDoc);
      version := ToUint32(counter);
    }

    /** The item for the policy document is queued first and its message completed afterwards: the bulk request
        sends what the shared message says when it is sent. `entity` is the caller's message, which is completed too
        and then stored. */
    method UpdatePolicy(request: Policy, entity: Ref<PolicyDoc>, now: Time) returns (r: Result<Policy>)
      requires request.entity.Some? && entity.v == VersionDoc(request.entity.value)
      modifies policies, entity
      ensures (policies.docs, r) == Updated(old(policies.docs), request, now, valid)
      ensures entity.v == VersionDoc(EntityAfter(old(policies.docs), request, now, valid))
    {
      hide ParsePolicyVersionId, PolicyVersionId, PolicyCounterId;
      var policyId := request.id;
      var fetched := GetPolicy(policyId);
      if fetched.Err? {
        return Err(fetched.code);
      }
      var currentPolicy := new Ref(PolicyDoc(fetched.value));
      if currentPolicy.v.policy.deleted {
        return Err(FailedPrecondition);
      }
      currentPolicy.v := PolicyDoc(
        currentPolicy.v.policy.(name := request.name, description := request.description, updated := Some(now)));
      var policyVersion := new Ref(VersionDoc(fetched.value.entity.value));
      var items := [BulkItem(BulkIndex, policyId, currentPolicy, None)];

      if HasPolicyContentChanges(fetched.value.entity.value, request.entity.value) {
        policyVersion := entity;
        if !Accepts(valid, policyVersion.v.entity.regoContent) {
          return Err(InvalidArgument);
        }
        var newVersion := IncrementPolicyVersion(policyId);
        currentPolicy.v := PolicyDoc(currentPolicy.v.policy.(currentVersion := newVersion));
        policyVersion.v := VersionDoc(policyVersion.v.entity.(
          id := PolicyVersionId(policyId, newVersion), created := Some(now), version := newVersion));
        if policyVersion.v.entity.message == "" {
          policyVersion.v := VersionDoc(policyVersion.v.entity.(message := "Updated policy"));
        }
        items := items + [BulkItem(BulkCreate, policyVersion.v.entity.id, policyVersion, Some(policyId))];
      }
      r := SendUpdate(policyId, currentPolicy, policyVersion, items);
    }

    /** The last part of UpdatePolicy. The message of the first item still embeds the entity when the items are
        queued; it is unset before they are sent and put back for the response. */
    method SendUpdate(policyId: string, currentPolicy: Ref<PolicyDoc>, policyVersion: Ref<PolicyDoc>,
                      items: seq<BulkItem<PolicyDoc>>)
      returns (r: Result<Policy>)
      requires currentPolicy != policyVersion && currentPolicy.v.PolicyDoc? && policyVersion.v.VersionDoc?
      requires 1 <= |items| <= 2
      requires items[0] == BulkItem(BulkIndex, policyId, currentPolicy, None)
      requires |items| == 2 ==>
                 items[1] == BulkItem(BulkCreate, policyVersion.v.entity.id, policyVersion, Some(policyId))
      modifies policies, currentPolicy
      ensures (policies.docs, r) ==
              Committed(old(policies.docs), policyId, old(currentPolicy.v.policy.(entity := None)),
                        if |items| == 1 then None else Some(policyVersion.v.entity), policyVersion.v.entity)
    {
      currentPolicy.v := PolicyDoc(currentPolicy.v.policy.(entity := None));
      ghost var next := if |items| == 1 then None else Some(policyVersion.v.entity);
      assert Marshalled(items) == UpdateActions(policyId, currentPolicy.v.policy, next);
      var ok := policies.Bulk(items);
      if !ok {
        return Err(Internal);
      }
      currentPolicy.v := PolicyDoc(currentPolicy.v.policy.(entity := Some(policyVersion.v.entity)));
      r := Ok(currentPolicy.v.policy);
    }

    /** `hits` is the answer of the search. The i-th listed policy is the i-th hit, joined with its current
        version; the listing fails exactly when some hit's current version has no document. */
    method ListPolicies(hits: seq<string>) returns (r: Result<seq<Policy>>)
      requires IsListing(hits, policies.docs, IsLivePolicy)
      ensures r.Ok? <==> forall i | 0 <= i < |hits| ::
                PolicyVersionId(hits[i], AsPolicy(policies.docs[hits[i]].source).currentVersion) in policies.docs
      ensures r.Ok? ==> |r.value| == |hits| &&
                        forall i | 0 <= i < |hits| :: ListedAs(policies.docs, hits[i], r.value[i])
    {
      var listed: seq<Policy> := [];
      var versionItems: seq<string> := [];
      for i := 0 to |hits|
        invariant |listed| == |versionItems| == i
        invariant forall j | 0 <= j < i ::
            listed[j] == AsPolicy(policies.docs[hits[j]].source).(id := hits[j]) &&
            versionItems[j] == PolicyVersionId(hits[j], listed[j].currentVersion)
      {
        var policy := AsPolicy(policies.docs[hits[i]].source).(id := hits[i]);
        listed := listed + [policy];
        versionItems := versionItems + [PolicyVersionId(policy.id, policy.currentVersion)];
      }
      var versions := policies.MultiGet(versionItems);
      for i := 0 to |versions|
        invariant |listed| == |hits| == |versions|
        invariant forall j | 0 <= j < i :: ListedAs(policies.docs, hits[j], listed[j])
        invariant forall j | i <= j < |hits| :: listed[j] == AsPolicy(policies.docs[hits[j]].source).(id := hits[j])
      {
        if versions[i].None? {
          return Err(Internal);
        }
        listed := listed[i := listed[i].(entity := Some(AsEntity(versions[i].value)))];
      }
      r := Ok(listed);
    }
  }
}
