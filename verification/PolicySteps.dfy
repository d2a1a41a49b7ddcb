/** Policy requests as they really run: UpdatePolicy is read, read, decide, bump, bulk without any lock and
    DeletePolicy is read, write, so any number of calls interleave between two requests to Elasticsearch. */
module PolicySteps {
  import opened Wrappers
  import opened Text
  import opened PolicyIds
  import opened Elastic
  import opened Policies

  /** A call in flight, by what it still holds in memory. */
  datatype Call =
    | GotPolicy(request: Policy, snapshot: Policy, versionId: string)
    | NeedsNumber(id: string, policy: Policy, next: PolicyEntity, now: Time)
    | Committing(id: string, policy: Policy, added: Option<PolicyEntity>)
    | Deleting(id: string, snapshot: Policy)

  /** `handed` records, per policy, every version number given out so far, in order. */
  datatype State = State(docs: Docs<PolicyDoc>, calls: map<nat, Call>, handed: map<string, seq<uint32>>)

  /** One request to Elasticsearch, with the local work up to the next one. Any request may fail. */
  datatype Label =
    | Create(request: Policy, newId: string, now: Time)
    | ReadPolicy(c: nat, request: Policy)
    | ReadVersion(c: nat, now: Time)
    | Bump(c: nat)
    | Commit(c: nat)
    | ReadForDelete(c: nat, id: string)
    | WriteDelete(c: nat)
    | Fail(c: nat)

  const INITIAL := State(map[], map[], map[])

  function Finish(s: State, c: nat): State {
    s.(calls := s.calls - {c})
  }

  function Decide(s: State, c: nat, call: Call, now: Time, valid: Validator): State
    requires call.GotPolicy? && call.request.entity.Some?
  {
    match Join(s.docs, call.snapshot, call.versionId)
    case Err(_) => Finish(s, c)
    case Ok(current) =>
      match Prepare(current, call.request, now, valid)
      case Rejected(_) => Finish(s, c)
      case KeepsContent(policy, _) => s.(calls := s.calls[c := Committing(call.request.id, policy, None)])
      case ChangesContent(policy, next) => s.(calls := s.calls[c := NeedsNumber(call.request.id, policy, next, now)])
  }

  function HandOut(handed: map<string, seq<uint32>>, id: string, version: uint32): map<string, seq<uint32>> {
    handed[id := (if id in handed then handed[id] else []) + [version]]
  }

  function Number(s: State, c: nat, call: Call): State
    requires call.NeedsNumber?
  {
    var docs := Bumped(s.docs, call.id);
    var version := ToUint32(CounterOf(docs, call.id));
    var entity := Numbered(call.next, call.id, version, call.now);
    State(docs,
          s.calls[c := Committing(call.id, call.policy.(currentVersion := version), Some(entity))],
          HandOut(s.handed, call.id, version))
  }

  function Start(s: State, request: Policy, newId: string, now: Time, valid: Validator): State {
    var (docs, r) := Created(s.docs, request, newId, now, valid);
    if r.Ok? then State(docs, s.calls, HandOut(s.handed, newId, 1)) else s
  }

  function Read(s: State, c: nat, request: Policy): State {
    match ParsePolicyVersionId(request.id)
    case Err(_) => s
    case Ok((p, v)) =>
      match FindPolicy(s.docs, p)
      case Err(_) => s
      case Ok(policy) => s.(calls := s.calls[c := GotPolicy(request, policy, WantedVersion(policy, v))])
  }

  function Write(s: State, c: nat, call: Call): State
    requires call.Committing?
  {
    match ApplyBulk(s.docs, UpdateActions(call.id, call.policy, call.added))
    case None => Finish(s, c)
    case Some(docs) => Finish(s.(docs := docs), c)
  }

  function ReadDeleted(s: State, c: nat, id: string): State {
    match FindPolicy(s.docs, id)
    case Err(_) => s
    case Ok(policy) => s.(calls := s.calls[c := Deleting(id, policy)])
  }

  function WriteDeleted(s: State, c: nat, call: Call): State
    requires call.Deleting?
  {
    Finish(s.(docs := Overwritten(s.docs, call.id, PolicyDoc(call.snapshot.(deleted := true)), None)), c)
  }

  /** A label that is not enabled changes nothing. */
  function Apply(s: State, l: Label, valid: Validator): State {
    match l
    case Create(request, newId, now) => Start(s, request, newId, now, valid)
    case ReadPolicy(c, request) => if c in s.calls || request.entity.None? then s else Read(s, c, request)
    case ReadVersion(c, now) =>
      if c in s.calls && s.calls[c].GotPolicy? && s.calls[c].request.entity.Some?
      then Decide(s, c, s.calls[c], now, valid) else s
    case Bump(c) => if c in s.calls && s.calls[c].NeedsNumber? then Number(s, c, s.calls[c]) else s
    case Commit(c) => if c in s.calls && s.calls[c].Committing? then Write(s, c, s.calls[c]) else s
    case ReadForDelete(c, id) => if c in s.calls then s else ReadDeleted(s, c, id)
    case WriteDelete(c) => if c in s.calls && s.calls[c].Deleting? then WriteDeleted(s, c, s.calls[c]) else s
    case Fail(c) => Finish(s, c)
  }

  /** The state after the labels, from an empty index. */
  function Run(labels: seq<Label>, valid: Validator): State
    decreases |labels|
  {
    if labels == [] then INITIAL
    else Apply(Run(labels[..|labels| - 1], valid), labels[|labels| - 1], valid)
  }

  /** What clients and the UUID generator are trusted with: policies are addressed by dot-free ids. */
  predicate Addressed(l: Label) {
    match l
    case Create(_, newId, _) => newId != "" && DotFree(newId) && SlashFree(newId)
    case ReadPolicy(_, request) => DotFree(request.id)
    case ReadForDelete(_, id) => DotFree(id)
    case _ => true
  }

  predicate AllAddressed(labels: seq<Label>) {
    forall i | 0 <= i < |labels| :: Addressed(labels[i])
  }

  // ----- the invariant -----

  predicate HasPolicy(docs: Docs<PolicyDoc>, id: string) {
    id in docs && docs[id].source.PolicyDoc?
  }

  predicate HasVersion(docs: Docs<PolicyDoc>, id: string, v: uint32) {
    PolicyVersionId(id, v) in docs && docs[PolicyVersionId(id, v)].source.VersionDoc?
  }

  predicate HasCounter(docs: Docs<PolicyDoc>, id: string) {
    PolicyCounterId(id) in docs && docs[PolicyCounterId(id)].source.CounterDoc?
  }

  /** A policy value that may be stored under `id`: its current version names a version document. */
  predicate Storable(docs: Docs<PolicyDoc>, id: string, policy: Policy) {
    HasPolicy(docs, id) && policy.id == id && policy.entity.None? && HasVersion(docs, id, policy.currentVersion)
  }

  predicate WellFormedAt(docs: Docs<PolicyDoc>, k: string)
    requires k in docs
  {
    match docs[k].source
    case PolicyDoc(policy) =>
      k != "" && DotFree(k) && SlashFree(k) && Storable(docs, k, policy) && HasCounter(docs, k)
    case CounterDoc =>
      var p := BaseOf(k);
      k == PolicyCounterId(p) && HasPolicy(docs, p)
    case VersionDoc(e) =>
      var p := BaseOf(k);
      k == e.id == PolicyVersionId(p, e.version) && HasPolicy(docs, p) && docs[k].parent == Some(p)
  }

  /** Base, counter and version documents sit under ids of their own kind and point at each other. */
  predicate WellFormed(docs: Docs<PolicyDoc>) {
    forall k {:trigger WellFormedAt(docs, k)} | k in docs :: WellFormedAt(docs, k)
  }

  predicate CallOk(docs: Docs<PolicyDoc>, call: Call) {
    match call
    case GotPolicy(request, snapshot, versionId) =>
      request.id == snapshot.id && Storable(docs, request.id, snapshot) &&
      versionId == PolicyVersionId(snapshot.id, snapshot.currentVersion)
    case NeedsNumber(id, policy, _, _) => Storable(docs, id, policy)
    case Committing(id, policy, None) => Storable(docs, id, policy)
    case Committing(id, policy, Some(e)) =>
      HasPolicy(docs, id) && policy.id == id && policy.entity.None? &&
      policy.currentVersion == e.version && e.id == PolicyVersionId(id, e.version)
    case Deleting(id, snapshot) => Storable(docs, id, snapshot)
  }

  predicate CallsOk(docs: Docs<PolicyDoc>, calls: map<nat, Call>) {
    forall c | c in calls :: CallOk(docs, calls[c])
  }

  /** The i-th number given out for a policy is i, modulo the 32-bit conversion, and the counter has counted them. */
  predicate HandedOk(s: State) {
    && (forall id | id in s.docs && s.docs[id].source.PolicyDoc? :: id in s.handed)
    && (forall id | id in s.handed ::
          HasPolicy(s.docs, id) && CountsUp(s.handed[id]) && |s.handed[id]| == CounterOf(s.docs, id) >= 1)
  }

  predicate CountsUp(numbers: seq<uint32>) {
    forall i | 0 <= i < |numbers| :: numbers[i] == ToUint32(i + 1)
  }

  predicate Inv(s: State) {
    WellFormed(s.docs) && CallsOk(s.docs, s.calls) && HandedOk(s)
  }

  /** What no step ever undoes: documents stay, keep their kind, and version documents keep their content. */
  predicate Grows(docs: Docs<PolicyDoc>, docs': Docs<PolicyDoc>) {
    forall k | k in docs ::
      k in docs' &&
      match docs[k].source
      case PolicyDoc(_) => docs'[k].source.PolicyDoc?
      case CounterDoc => docs'[k].source.CounterDoc? && docs[k].version <= docs'[k].version
      case VersionDoc(_) => docs'[k].source == docs[k].source && docs'[k].parent == docs[k].parent
  }

  // ----- preservation -----

  lemma CallSurvives(docs: Docs<PolicyDoc>, docs': Docs<PolicyDoc>, call: Call)
    requires CallOk(docs, call) && Grows(docs, docs')
    ensures CallOk(docs', call)
  {
  }

  lemma CallsSurvive(docs: Docs<PolicyDoc>, docs': Docs<PolicyDoc>, calls: map<nat, Call>)
    requires CallsOk(docs, calls) && Grows(docs, docs')
    ensures CallsOk(docs', calls)
  {
    forall c | c in calls ensures CallOk(docs', calls[c]) {
      CallSurvives(docs, docs', calls[c]);
    }
  }

  lemma ShapeSurvivesAt(docs: Docs<PolicyDoc>, docs': Docs<PolicyDoc>, k: string)
    requires k in docs && WellFormedAt(docs, k) && Grows(docs, docs')
    requires docs'[k].source.PolicyDoc? ==> Storable(docs', k, docs'[k].source.policy)
    ensures WellFormedAt(docs', k)
  {
    match docs[k].source
    case PolicyDoc(_) => assert docs[PolicyCounterId(k)].source.CounterDoc?;
    case CounterDoc => assert docs[BaseOf(k)].source.PolicyDoc?;
    case VersionDoc(_) => assert docs[BaseOf(k)].source.PolicyDoc?;
  }

  lemma StorableSurvives(docs: Docs<PolicyDoc>, docs': Docs<PolicyDoc>, id: string, policy: Policy)
    requires Storable(docs, id, policy) && Grows(docs, docs')
    ensures Storable(docs', id, policy)
  {
  }

  /** A counter id ends in a letter, a version id in a digit, and both contain a dot. */
  lemma CounterIdIsItsOwn(p: string, id: string, v: uint32)
    ensures PolicyCounterId(p) != PolicyVersionId(id, v)
    ensures DotFree(id) ==> PolicyCounterId(p) != id
    ensures PolicyCounterId(p) == PolicyCounterId(id) <==> p == id
  {
    var c, d := PolicyCounterId(p), PolicyVersionId(id, v);
    assert c[|p|] == '.';
    assert c[|c| - 1] == "counter"[6] == 'r';
    assert d[|d| - 1] == Decimal(v)[|Decimal(v)| - 1];
    assert p == c[..|c| - 8];
    var c' := PolicyCounterId(id);
    assert id == c'[..|c'| - 8];
  }

  /** Growing keeps every document in shape, when no policy document is changed except to a storable one. */
  lemma ShapeSurvives(docs: Docs<PolicyDoc>, docs': Docs<PolicyDoc>, id: string)
    requires WellFormed(docs) && Grows(docs, docs')
    requires forall k | k in docs && k != id && docs[k].source.PolicyDoc? :: docs'[k].source == docs[k].source
    requires HasPolicy(docs', id) ==> Storable(docs', id, docs'[id].source.policy)
    ensures forall k {:trigger WellFormedAt(docs', k)} | k in docs :: WellFormedAt(docs', k)
  {
    forall k | k in docs ensures WellFormedAt(docs', k) {
      assert WellFormedAt(docs, k);
      if k != id && docs[k].source.PolicyDoc? {
        StorableSurvives(docs, docs', k, docs[k].source.policy);
      }
      ShapeSurvivesAt(docs, docs', k);
    }
  }

  lemma OverwriteKeepsShape(docs: Docs<PolicyDoc>, id: string, policy: Policy)
    requires WellFormed(docs) && Storable(docs, id, policy)
    ensures var docs' := Overwritten(docs, id, PolicyDoc(policy), None);
            WellFormed(docs') && Grows(docs, docs')
  {
    var docs' := Overwritten(docs, id, PolicyDoc(policy), None);
    assert Grows(docs, docs');
    StorableSurvives(docs, docs', id, policy);
    ShapeSurvives(docs, docs', id);
  }

  lemma OverwriteKeepsCounters(docs: Docs<PolicyDoc>, id: string, policy: Policy)
    requires WellFormed(docs) && HasPolicy(docs, id)
    ensures SameCounters(docs, Overwritten(docs, id, PolicyDoc(policy), None))
  {
    var docs' := Overwritten(docs, id, PolicyDoc(policy), None);
    assert WellFormedAt(docs, id);
    forall p ensures CounterOf(docs', p) == CounterOf(docs, p) && (HasPolicy(docs', p) <==> HasPolicy(docs, p)) {
      CounterIdIsItsOwn(p, id, 0);
    }
  }

  /** Every policy has the number of the last document, and no policy appears or goes. */
  ghost predicate SameCounters(docs: Docs<PolicyDoc>, docs': Docs<PolicyDoc>) {
    forall p :: CounterOf(docs', p) == CounterOf(docs, p) && (HasPolicy(docs', p) <==> HasPolicy(docs, p))
  }

  lemma BumpKeepsShape(docs: Docs<PolicyDoc>, id: string)
    requires WellFormed(docs) && HasPolicy(docs, id)
    ensures WellFormed(Bumped(docs, id)) && Grows(docs, Bumped(docs, id))
    ensures Bumped(docs, id).Keys == docs.Keys
  {
    var docs' := Bumped(docs, id);
    assert WellFormedAt(docs, id);
    assert Grows(docs, docs');
    StorableSurvives(docs, docs', id, docs[id].source.policy);
    CounterIdIsItsOwn(id, id, 0);
    ShapeSurvives(docs, docs', id);
  }

  lemma BumpCountsOne(docs: Docs<PolicyDoc>, id: string, p: string)
    requires WellFormed(docs) && HasPolicy(docs, id)
    ensures CounterOf(Bumped(docs, id), p) == CounterOf(docs, p) + if p == id then 1 else 0
    ensures HasPolicy(Bumped(docs, id), p) <==> HasPolicy(docs, p)
  {
    assert WellFormedAt(docs, id);
    CounterIdIsItsOwn(p, id, 0);
  }

  /** The documents after a version is committed. */
  function WithVersion(docs: Docs<PolicyDoc>, id: string, policy: Policy, e: PolicyEntity): Docs<PolicyDoc> {
    Overwritten(Overwritten(docs, id, PolicyDoc(policy), None), e.id, VersionDoc(e), Some(id))
  }

  /** The bulk request that commits a new version fails exactly on an existing version id. */
  lemma {:induction false} CommitBulk(docs: Docs<PolicyDoc>, id: string, policy: Policy, e: PolicyEntity)
    requires e.id != id
    ensures ApplyBulk(docs, UpdateActions(id, policy, Some(e))) ==
            if e.id in docs then None else Some(WithVersion(docs, id, policy, e))
  {
    var actions := UpdateActions(id, policy, Some(e));
    var rest := actions[1..];
    assert rest == [Action(BulkCreate, e.id, VersionDoc(e), Some(id))];
    var docs1 := Overwritten(docs, id, PolicyDoc(policy), None);
    assert ApplyBulk(docs, actions) == ApplyBulk(docs1, rest);
    if e.id !in docs {
      assert rest[1..] == [];
      assert ApplyBulk(docs1, rest) == ApplyBulk(WithVersion(docs, id, policy, e), rest[1..]);
    }
  }

  lemma AddVersionKeepsShape(docs: Docs<PolicyDoc>, id: string, policy: Policy, e: PolicyEntity)
    requires WellFormed(docs) && HasPolicy(docs, id)
    requires policy.id == id && policy.entity.None? && policy.currentVersion == e.version
    requires e.id == PolicyVersionId(id, e.version) && e.id !in docs && e.id != id
    ensures var docs' := WithVersion(docs, id, policy, e);
            WellFormed(docs') && Grows(docs, docs')
  {
    var docs' := WithVersion(docs, id, policy, e);
    assert WellFormedAt(docs, id);
    assert Grows(docs, docs');
    assert Storable(docs', id, policy);
    ShapeSurvives(docs, docs', id);
    ParseUndoesVersionId(id, e.version);
    assert WellFormedAt(docs', e.id);
  }

  lemma AddVersionKeepsCounters(docs: Docs<PolicyDoc>, id: string, policy: Policy, e: PolicyEntity)
    requires WellFormed(docs) && HasPolicy(docs, id)
    requires e.id == PolicyVersionId(id, e.version) && e.id !in docs
    ensures SameCounters(docs, WithVersion(docs, id, policy, e))
  {
    var docs' := WithVersion(docs, id, policy, e);
    assert WellFormedAt(docs, id);
    forall p ensures CounterOf(docs', p) == CounterOf(docs, p) && (HasPolicy(docs', p) <==> HasPolicy(docs, p)) {
      CounterIdIsItsOwn(p, id, e.version);
    }
  }

  /** The documents after a policy is created. */
  function WithPolicy(docs: Docs<PolicyDoc>, policy: Policy, e: PolicyEntity): Docs<PolicyDoc> {
    docs[policy.id := Doc(PolicyDoc(policy), None, 1)]
      [PolicyCounterId(policy.id) := Doc(CounterDoc, None, 1)]
      [e.id := Doc(VersionDoc(e), Some(policy.id), 1)]
  }

  lemma {:induction false} CreateBulk(docs: Docs<PolicyDoc>, policy: Policy, e: PolicyEntity)
    requires DotFree(policy.id) && e.id == PolicyVersionId(policy.id, e.version)
    ensures var id, counter := policy.id, PolicyCounterId(policy.id);
            id != counter && id != e.id && counter != e.id &&
            ApplyBulk(docs, CreateActions(policy, e)) ==
            if id in docs || counter in docs || e.id in docs then None else Some(WithPolicy(docs, policy, e))
  {
    var id, counter := policy.id, PolicyCounterId(policy.id);
    CounterIdIsItsOwn(id, id, e.version);
    assert e.id[|id|] == '.';
    var actions := CreateActions(policy, e);
    var docs1 := Overwritten(docs, id, PolicyDoc(policy), None);
    var docs2 := Overwritten(docs1, counter, CounterDoc, None);
    var second, third := actions[1..], actions[2..];
    assert second[1..] == third && third[1..] == [];
    if id !in docs {
      assert ApplyBulk(docs, actions) == ApplyBulk(docs1, second);
      if counter !in docs {
        assert ApplyBulk(docs1, second) == ApplyBulk(docs2, third);
        if e.id !in docs {
          assert ApplyBulk(docs2, third) == ApplyBulk(WithPolicy(docs, policy, e), []);
        }
      }
    }
  }

  lemma CreateKeepsShape(docs: Docs<PolicyDoc>, policy: Policy, e: PolicyEntity)
    requires WellFormed(docs)
    requires policy.id != "" && DotFree(policy.id) && SlashFree(policy.id)
    requires policy.entity.None? && policy.currentVersion == e.version
    requires e.id == PolicyVersionId(policy.id, e.version)
    requires policy.id !in docs && PolicyCounterId(policy.id) !in docs && e.id !in docs
    ensures WellFormed(WithPolicy(docs, policy, e)) && Grows(docs, WithPolicy(docs, policy, e))
    ensures CounterOf(WithPolicy(docs, policy, e), policy.id) == 1
  {
    var id, counter := policy.id, PolicyCounterId(policy.id);
    var docs' := WithPolicy(docs, policy, e);
    CreateBulk(docs, policy, e);
    assert Grows(docs, docs');
    ShapeSurvives(docs, docs', id);
    NewPolicyHasShape(docs', policy, e);
  }

  lemma NewPolicyHasShape(docs: Docs<PolicyDoc>, policy: Policy, e: PolicyEntity)
    requires policy.id != "" && DotFree(policy.id) && SlashFree(policy.id)
    requires policy.entity.None? && policy.currentVersion == e.version
    requires e.id == PolicyVersionId(policy.id, e.version)
    requires policy.id in docs && docs[policy.id].source == PolicyDoc(policy)
    requires HasCounter(docs, policy.id)
    requires e.id in docs && docs[e.id].source == VersionDoc(e) && docs[e.id].parent == Some(policy.id)
    ensures WellFormedAt(docs, policy.id)
    ensures WellFormedAt(docs, PolicyCounterId(policy.id)) && WellFormedAt(docs, e.id)
  {
    ParseUndoesVersionId(policy.id, e.version);
    CounterIdDoesNotParse(policy.id);
  }

  lemma CreateKeepsOtherCounters(docs: Docs<PolicyDoc>, policy: Policy, e: PolicyEntity, p: string)
    requires DotFree(policy.id) && e.id == PolicyVersionId(policy.id, e.version) && p != policy.id
    ensures CounterOf(WithPolicy(docs, policy, e), p) == CounterOf(docs, p)
    ensures HasPolicy(docs, p) && e.id !in docs && PolicyCounterId(policy.id) !in docs
            ==> HasPolicy(WithPolicy(docs, policy, e), p)
  {
    CounterIdIsItsOwn(p, policy.id, e.version);
  }

  // ----- every step keeps the invariant -----

  lemma CreateStep(s: State, request: Policy, newId: string, now: Time, valid: Validator)
    requires Inv(s) && Addressed(Create(request, newId, now))
    ensures var s' := Apply(s, Create(request, newId, now), valid); Inv(s') && Grows(s.docs, s'.docs)
  {
    var s' := Apply(s, Create(request, newId, now), valid);
    if s' != s {
      var policy := InitialPolicy(request, newId, now);
      var e := InitialEntity(request.entity.value, newId, now);
      CreateBulk(s.docs, policy, e);
      assert s'.docs == WithPolicy(s.docs, policy, e);
      CreateKeepsShape(s.docs, policy, e);
      CallsSurvive(s.docs, s'.docs, s.calls);
      CreateKeepsHandedOk(s, policy, e);
    }
  }

  lemma CreateKeepsHandedOk(s: State, policy: Policy, e: PolicyEntity)
    requires WellFormed(s.docs) && HandedOk(s)
    requires DotFree(policy.id) && e.id == PolicyVersionId(policy.id, e.version)
    requires policy.id !in s.docs && PolicyCounterId(policy.id) !in s.docs && e.id !in s.docs
    requires HasPolicy(WithPolicy(s.docs, policy, e), policy.id)
    requires CounterOf(WithPolicy(s.docs, policy, e), policy.id) == 1
    ensures HandedOk(State(WithPolicy(s.docs, policy, e), s.calls, HandOut(s.handed, policy.id, 1)))
  {
    var s' := State(WithPolicy(s.docs, policy, e), s.calls, HandOut(s.handed, policy.id, 1));
    assert policy.id !in s.handed;
    forall id | id in s'.handed
      ensures HasPolicy(s'.docs, id) && CountsUp(s'.handed[id]) && |s'.handed[id]| == CounterOf(s'.docs, id) >= 1
    {
      if id != policy.id {
        CreateKeepsOtherCounters(s.docs, policy, e, id);
      }
    }
  }

  lemma BumpKeepsHandedOk(s: State, id: string)
    requires WellFormed(s.docs) && HandedOk(s) && HasPolicy(s.docs, id)
    ensures var docs := Bumped(s.docs, id);
            HandedOk(State(docs, s.calls, HandOut(s.handed, id, ToUint32(CounterOf(docs, id)))))
  {
    var docs := Bumped(s.docs, id);
    var s' := State(docs, s.calls, HandOut(s.handed, id, ToUint32(CounterOf(docs, id))));
    assert id in s.handed;
    forall p | p in s'.docs && s'.docs[p].source.PolicyDoc? ensures p in s'.handed {
      BumpCountsOne(s.docs, id, p);
    }
    forall p | p in s'.handed
      ensures HasPolicy(docs, p) && CountsUp(s'.handed[p]) && |s'.handed[p]| == CounterOf(docs, p) >= 1
    {
      BumpCountsOne(s.docs, id, p);
      BumpCountsOne(s.docs, id, id);
      assert p in s.handed;
    }
  }

  lemma SameCountersKeepHandedOk(s: State, s': State)
    requires HandedOk(s) && SameCounters(s.docs, s'.docs) && s'.handed == s.handed
    ensures HandedOk(s')
  {
    forall id | id in s'.docs && s'.docs[id].source.PolicyDoc? ensures id in s'.handed {
      assert HasPolicy(s'.docs, id);
      assert HasPolicy(s.docs, id);
    }
  }

  lemma NumberStep(s: State, c: nat)
    requires Inv(s) && c in s.calls && s.calls[c].NeedsNumber?
    ensures var s' := Number(s, c, s.calls[c]); Inv(s') && Grows(s.docs, s'.docs)
  {
    var call := s.calls[c];
    var s' := Number(s, c, call);
    assert CallOk(s.docs, call);
    BumpKeepsShape(s.docs, call.id);
    CallsSurvive(s.docs, s'.docs, s.calls);
    assert CallOk(s'.docs, s'.calls[c]);
    BumpKeepsHandedOk(s, call.id);
  }

  lemma EditStep(s: State, c: nat, valid: Validator)
    requires Inv(s) && c in s.calls && s.calls[c].Committing? && s.calls[c].added.None?
    ensures var s' := Apply(s, Commit(c), valid); Inv(s') && Grows(s.docs, s'.docs)
  {
    var call := s.calls[c];
    assert CallOk(s.docs, call);
    var s' := Apply(s, Commit(c), valid);
    EditBulk(s.docs, call.id, call.policy);
    OverwriteKeepsShape(s.docs, call.id, call.policy);
    OverwriteKeepsCounters(s.docs, call.id, call.policy);
    CallsSurvive(s.docs, s'.docs, s'.calls);
    SameCountersKeepHandedOk(s, s');
  }

  lemma {:induction false} EditBulk(docs: Docs<PolicyDoc>, id: string, policy: Policy)
    ensures ApplyBulk(docs, UpdateActions(id, policy, None)) == Some(Overwritten(docs, id, PolicyDoc(policy), None))
  {
    var actions := UpdateActions(id, policy, None);
    assert actions[1..] == [];
  }

  lemma AddVersionStep(s: State, c: nat, valid: Validator)
    requires Inv(s) && c in s.calls && s.calls[c].Committing? && s.calls[c].added.Some?
    ensures var s' := Apply(s, Commit(c), valid); Inv(s') && Grows(s.docs, s'.docs)
  {
    var call, e := s.calls[c], s.calls[c].added.value;
    assert CallOk(s.docs, call) && HasPolicy(s.docs, call.id);
    HasDot(call.id, Decimal(e.version));
    assert WellFormedAt(s.docs, call.id);
    CommitBulk(s.docs, call.id, call.policy, e);
    var s' := Apply(s, Commit(c), valid);
    if e.id !in s.docs {
      AddVersionKeepsShape(s.docs, call.id, call.policy, e);
      AddVersionKeepsCounters(s.docs, call.id, call.policy, e);
      CallsSurvive(s.docs, s'.docs, s'.calls);
      SameCountersKeepHandedOk(s, s');
    }
  }

  lemma DeleteStep(s: State, c: nat, valid: Validator)
    requires Inv(s) && c in s.calls && s.calls[c].Deleting?
    ensures var s' := Apply(s, WriteDelete(c), valid); Inv(s') && Grows(s.docs, s'.docs)
  {
    var call := s.calls[c];
    var policy := call.snapshot.(deleted := true);
    var s' := Apply(s, WriteDelete(c), valid);
    assert CallOk(s.docs, call);
    assert Storable(s.docs, call.id, policy);
    OverwriteKeepsShape(s.docs, call.id, policy);
    OverwriteKeepsCounters(s.docs, call.id, policy);
    CallsSurvive(s.docs, s'.docs, s.calls);
    SameCountersKeepHandedOk(s, s');
  }

  lemma HasDot(p: string, suffix: string)
    ensures !DotFree(p + "." + suffix)
  {
    assert (p + "." + suffix)[|p|] == '.';
  }

  /** A policy found under a dot-free id can be stored back as it was read. */
  lemma FoundIsStorable(docs: Docs<PolicyDoc>, id: string)
    requires WellFormed(docs) && DotFree(id) && FindPolicy(docs, id).Ok?
    ensures Storable(docs, id, FindPolicy(docs, id).value) && FindPolicy(docs, id).value == docs[id].source.policy
  {
    assert WellFormedAt(docs, id);
    match docs[id].source
    case PolicyDoc(_) =>
    case CounterDoc => HasDot(BaseOf(id), "counter");
    case VersionDoc(e) => HasDot(BaseOf(id), Decimal(e.version));
  }

  lemma ReadStep(s: State, l: Label, valid: Validator)
    requires Inv(s) && Addressed(l) && (l.ReadPolicy? || l.ReadForDelete?)
    ensures var s' := Apply(s, l, valid); Inv(s') && s'.docs == s.docs
  {
    var s' := Apply(s, l, valid);
    if s' != s {
      var id := if l.ReadPolicy? then l.request.id else l.id;
      FoundIsStorable(s.docs, id);
      OneMoreCall(s, s', l.c);
    }
  }

  lemma OneMoreCall(s: State, s': State, c: nat)
    requires Inv(s) && s'.docs == s.docs && s'.handed == s.handed && c in s'.calls
    requires s'.calls == s.calls[c := s'.calls[c]] && CallOk(s.docs, s'.calls[c])
    ensures Inv(s')
  {
    forall d | d in s'.calls ensures CallOk(s'.docs, s'.calls[d]) {
      assert d in s.calls || d == c;
    }
  }

  lemma DecideStep(s: State, c: nat, now: Time, valid: Validator)
    requires Inv(s) && c in s.calls && s.calls[c].GotPolicy? && s.calls[c].request.entity.Some?
    ensures var s' := Decide(s, c, s.calls[c], now, valid); Inv(s') && s'.docs == s.docs
  {
    hide ParsePolicyVersionId, PolicyVersionId, FindVersion, WellFormed, Accepts;
    var s' := Decide(s, c, s.calls[c], now, valid);
    assert CallOk(s.docs, s.calls[c]);
    if c in s'.calls {
      OneMoreCall(s, s', c);
    }
  }

  lemma Step(s: State, l: Label, valid: Validator)
    requires Inv(s) && Addressed(l)
    ensures Inv(Apply(s, l, valid)) && Grows(s.docs, Apply(s, l, valid).docs)
  {
    match l
    case Create(request, newId, now) => CreateStep(s, request, newId, now, valid);
    case ReadVersion(c, now) =>
      if c in s.calls && s.calls[c].GotPolicy? && s.calls[c].request.entity.Some? { DecideStep(s, c, now, valid); }
    case Bump(c) => if c in s.calls && s.calls[c].NeedsNumber? { NumberStep(s, c); }
    case Commit(c) =>
      if c in s.calls && s.calls[c].Committing? {
        if s.calls[c].added.None? { EditStep(s, c, valid); } else { AddVersionStep(s, c, valid); }
      }
    case WriteDelete(c) => if c in s.calls && s.calls[c].Deleting? { DeleteStep(s, c, valid); }
    case Fail(c) =>
    case _ => ReadStep(s, l, valid);
  }

  // ----- main results over all interleavings -----

  lemma GrowsTransitive(a: Docs<PolicyDoc>, b: Docs<PolicyDoc>, c: Docs<PolicyDoc>)
    requires Grows(a, b) && Grows(b, c)
    ensures Grows(a, c)
  {
  }

  lemma {:induction false} Reachable(labels: seq<Label>, valid: Validator)
    requires AllAddressed(labels)
    ensures Inv(Run(labels, valid))
  {
    if labels != [] {
      var n := |labels| - 1;
      Reachable(labels[..n], valid);
      Step(Run(labels[..n], valid), labels[n], valid);
    }
  }

  /** Nothing is ever lost between an earlier and a later state of a run. */
  lemma {:induction false} RunGrows(labels: seq<Label>, m: nat, valid: Validator)
    requires AllAddressed(labels) && m <= |labels|
    ensures Grows(Run(labels[..m], valid).docs, Run(labels, valid).docs)
  {
    var n := |labels| - 1;
    if m <= n {
      RunGrows(labels[..n], m, valid);
      assert labels[..n][..m] == labels[..m];
      Reachable(labels[..n], valid);
      Step(Run(labels[..n], valid), labels[n], valid);
      GrowsTransitive(Run(labels[..m], valid).docs, Run(labels[..n], valid).docs, Run(labels, valid).docs);
    } else {
      assert labels[..m] == labels;
    }
  }

  /** A version document, once written, never changes. */
  lemma {:induction false} VersionsNeverChange(labels: seq<Label>, m: nat, k: string, valid: Validator)
    requires AllAddressed(labels) && m <= |labels|
    requires var docs := Run(labels[..m], valid).docs; k in docs && docs[k].source.VersionDoc?
    ensures var docs, docs' := Run(labels[..m], valid).docs, Run(labels, valid).docs;
            k in docs' && docs'[k].source == docs[k].source && docs'[k].parent == docs[k].parent
  {
    RunGrows(labels, m, valid);
  }

  /** GetPolicy on the id of a stored policy finds the version document its current version names. */
  lemma StoredPolicyIsReadable(docs: Docs<PolicyDoc>, id: string)
    requires WellFormed(docs) && HasPolicy(docs, id)
    ensures var current := docs[id].source.policy.currentVersion;
            HasVersion(docs, id, current) &&
            FindJoined(docs, id) ==
            Ok(docs[id].source.policy.(entity := Some(docs[PolicyVersionId(id, current)].source.entity)))
  {
    assert WellFormedAt(docs, id);
    ParseUndoesVersionId(id, docs[id].source.policy.currentVersion);
  }

  /** So does the second read of an update in flight, however much happened since its first read. */
  lemma SnapshotIsReadable(s: State, c: nat)
    requires Inv(s) && c in s.calls && s.calls[c].GotPolicy?
    ensures Join(s.docs, s.calls[c].snapshot, s.calls[c].versionId).Ok?
  {
    var call := s.calls[c];
    assert CallOk(s.docs, call);
    assert WellFormedAt(s.docs, call.request.id);
    ParseUndoesVersionId(call.request.id, call.snapshot.currentVersion);
  }

  /** What a listing goes on to read has a document when it is found ... */
  lemma ListingFindsVersions(docs: Docs<PolicyDoc>, hits: seq<string>)
    requires WellFormed(docs) && IsListing(hits, docs, IsLivePolicy)
    ensures forall i | 0 <= i < |hits| ::
              HasVersion(docs, hits[i], AsPolicy(docs[hits[i]].source).currentVersion)
  {
    forall i | 0 <= i < |hits| ensures HasVersion(docs, hits[i], AsPolicy(docs[hits[i]].source).currentVersion) {
      assert hits[i] in hits;
      assert WellFormedAt(docs, hits[i]);
    }
  }

  /** ... and still when it is joined, with the same content, whatever happened between the search and the join. */
  lemma {:induction false} ListingNeverFails(labels: seq<Label>, m: nat, hits: seq<string>, valid: Validator)
    requires AllAddressed(labels) && m <= |labels| && IsListing(hits, Run(labels[..m], valid).docs, IsLivePolicy)
    ensures var before, after := Run(labels[..m], valid).docs, Run(labels, valid).docs;
            forall i | 0 <= i < |hits| ::
              var v := AsPolicy(before[hits[i]].source).currentVersion;
              HasVersion(before, hits[i], v) && HasVersion(after, hits[i], v) &&
              after[PolicyVersionId(hits[i], v)].source == before[PolicyVersionId(hits[i], v)].source
  {
    assert AllAddressed(labels[..m]);
    Reachable(labels[..m], valid);
    RunGrows(labels, m, valid);
    var before, after := Run(labels[..m], valid).docs, Run(labels, valid).docs;
    hide Run, CallsOk, HandedOk, PolicyVersionId;
    ListingFindsVersions(before, hits);
    forall i | 0 <= i < |hits|
      ensures var v := AsPolicy(before[hits[i]].source).currentVersion;
              HasVersion(before, hits[i], v) && HasVersion(after, hits[i], v) &&
              after[PolicyVersionId(hits[i], v)].source == before[PolicyVersionId(hits[i], v)].source
    {
      assert HasVersion(before, hits[i], AsPolicy(before[hits[i]].source).currentVersion);
    }
  }

  /** The numbers given out for one policy are pairwise distinct exactly while at most 2^32 were given,
      and increasing exactly while the conversion has not wrapped around. */
  lemma NumbersHandedOut(s: State, id: string)
    requires Inv(s) && id in s.handed
    ensures Distinct(s.handed[id]) <==> CounterOf(s.docs, id) <= TWO_TO_THE_32
    ensures Increasing(s.handed[id]) <==> CounterOf(s.docs, id) < TWO_TO_THE_32
  {
    var numbers := s.handed[id];
    if |numbers| > TWO_TO_THE_32 {
      assert numbers[0] == numbers[TWO_TO_THE_32];
    }
    if |numbers| >= TWO_TO_THE_32 {
      assert numbers[TWO_TO_THE_32 - 2] == TWO_TO_THE_32 - 1 && numbers[TWO_TO_THE_32 - 1] == 0;
    }
  }

  predicate Distinct(numbers: seq<uint32>) {
    forall i, j | 0 <= i < j < |numbers| :: numbers[i] != numbers[j]
  }

  predicate Increasing(numbers: seq<uint32>) {
    forall i, j | 0 <= i < j < |numbers| :: numbers[i] < numbers[j]
  }

  /** Under every interleaving: reading a stored policy finds the version its current version names, and so does the
      second read of every update in flight. */
  lemma {:induction false} ReadsNeverMissAVersion(labels: seq<Label>, valid: Validator)
    requires AllAddressed(labels)
    ensures var s := Run(labels, valid);
            (forall id | HasPolicy(s.docs, id) :: FindJoined(s.docs, id).Ok?) &&
            (forall c | c in s.calls && s.calls[c].GotPolicy? ::
               Join(s.docs, s.calls[c].snapshot, s.calls[c].versionId).Ok?)
  {
    var s := Run(labels, valid);
    Reachable(labels, valid);
    hide Run, CallsOk, HandedOk, HasVersion;
    forall id | HasPolicy(s.docs, id) ensures FindJoined(s.docs, id).Ok? {
      StoredPolicyIsReadable(s.docs, id);
    }
    forall c | c in s.calls && s.calls[c].GotPolicy?
      ensures Join(s.docs, s.calls[c].snapshot, s.calls[c].versionId).Ok?
    {
      SnapshotIsReadable(s, c);
    }
  }

  /** Under every interleaving: one number is given out for each time the counter was raised, and the numbers are
      pairwise distinct, and increasing, exactly as long as 32 bits hold them. */
  lemma {:induction false} NumbersAreHandedOutOnce(labels: seq<Label>, id: string, valid: Validator)
    requires AllAddressed(labels) && HasPolicy(Run(labels, valid).docs, id)
    ensures var s := Run(labels, valid);
            id in s.handed && |s.handed[id]| == CounterOf(s.docs, id) &&
            (Distinct(s.handed[id]) <==> CounterOf(s.docs, id) <= TWO_TO_THE_32) &&
            (Increasing(s.handed[id]) <==> CounterOf(s.docs, id) < TWO_TO_THE_32)
  {
    Reachable(labels, valid);
    NumbersHandedOut(Run(labels, valid), id);
  }

  // ----- what is stored has been validated -----

  /** The content that a call in flight has checked. */
  predicate CallAccepted(call: Call, valid: Validator) {
    match call
    case NeedsNumber(_, _, next, _) => Accepts(valid, next.regoContent)
    case Committing(_, _, Some(e)) => Accepts(valid, e.regoContent)
    case _ => true
  }

  ghost predicate AllAccepted(s: State, valid: Validator) {
    && (forall k | k in s.docs && s.docs[k].source.VersionDoc? :: Accepts(valid, s.docs[k].source.entity.regoContent))
    && (forall c {:trigger CallAccepted(s.calls[c], valid)} | c in s.calls :: CallAccepted(s.calls[c], valid))
  }

  lemma AcceptedWrite(s: State, c: nat, valid: Validator)
    requires Inv(s) && AllAccepted(s, valid) && c in s.calls && s.calls[c].Committing?
    ensures AllAccepted(Apply(s, Commit(c), valid), valid)
  {
    var call := s.calls[c];
    assert CallOk(s.docs, call) && CallAccepted(call, valid);
    hide Inv, Accepts, ApplyBulk, UpdateActions, WellFormed;
    if call.added.None? {
      EditBulk(s.docs, call.id, call.policy);
    } else {
      HasDot(call.id, Decimal(call.added.value.version));
      BasesHaveNoDot(s.docs, call.id);
      CommitBulk(s.docs, call.id, call.policy, call.added.value);
    }
    var s' := Apply(s, Commit(c), valid);
    forall d | d in s'.calls ensures CallAccepted(s'.calls[d], valid) {
      assert CallAccepted(s.calls[d], valid);
    }
  }

  lemma BasesHaveNoDot(docs: Docs<PolicyDoc>, id: string)
    requires WellFormed(docs) && HasPolicy(docs, id)
    ensures DotFree(id)
  {
    assert WellFormedAt(docs, id);
  }

  lemma AcceptedCreate(s: State, l: Label, valid: Validator)
    requires AllAccepted(s, valid) && Addressed(l) && l.Create?
    ensures AllAccepted(Apply(s, l, valid), valid)
  {
    var s' := Apply(s, l, valid);
    if s' != s {
      var policy := InitialPolicy(l.request, l.newId, l.now);
      var e := InitialEntity(l.request.entity.value, l.newId, l.now);
      CreateBulk(s.docs, policy, e);
      hide ApplyBulk, CreateActions;
      assert s'.docs == WithPolicy(s.docs, policy, e);
      hide Apply, PolicyVersionId, PolicyCounterId;
    }
  }

  lemma AcceptedReads(s: State, l: Label, valid: Validator)
    requires AllAccepted(s, valid) && (l.ReadPolicy? || l.ReadVersion? || l.ReadForDelete? || l.Fail?)
    ensures AllAccepted(Apply(s, l, valid), valid)
  {
    hide Accepts, FindPolicy, FindVersion, ParsePolicyVersionId, PolicyVersionId;
    var s' := Apply(s, l, valid);
    forall d | d in s'.calls ensures CallAccepted(s'.calls[d], valid) {
      assert d in s.calls ==> CallAccepted(s.calls[d], valid);
    }
  }

  lemma AcceptedCounts(s: State, l: Label, valid: Validator)
    requires AllAccepted(s, valid) && (l.Bump? || l.WriteDelete?)
    ensures AllAccepted(Apply(s, l, valid), valid)
  {
    hide Accepts, CounterOf, PolicyVersionId, PolicyCounterId, HandOut;
    var s' := Apply(s, l, valid);
    forall d | d in s'.calls ensures CallAccepted(s'.calls[d], valid) {
      assert d in s.calls ==> CallAccepted(s.calls[d], valid);
    }
  }

  lemma AcceptedStep(s: State, l: Label, valid: Validator)
    requires Inv(s) && Addressed(l) && AllAccepted(s, valid)
    ensures AllAccepted(Apply(s, l, valid), valid)
  {
    hide Inv, AllAccepted, Start, Read, Decide, Number, Write, ReadDeleted, WriteDeleted;
    match l
    case Create(_, _, _) => AcceptedCreate(s, l, valid);
    case Commit(c) => if c in s.calls && s.calls[c].Committing? { AcceptedWrite(s, c, valid); }
    case Bump(_) => AcceptedCounts(s, l, valid);
    case WriteDelete(_) => AcceptedCounts(s, l, valid);
    case _ => AcceptedReads(s, l, valid);
  }

  /** Under every interleaving: all Rego that is stored, or that a call in flight is about to store, passed
      validation. */
  lemma {:induction false} StoredIsAccepted(labels: seq<Label>, valid: Validator)
    requires AllAddressed(labels)
    ensures AllAccepted(Run(labels, valid), valid)
  {
    hide Inv, Apply, Accepts;
    if labels != [] {
      var n := |labels| - 1;
      StoredIsAccepted(labels[..n], valid);
      Reachable(labels[..n], valid);
      AcceptedStep(Run(labels[..n], valid), labels[n], valid);
    }
  }
}
