/** Runs in which requests do not interleave: the versions of a policy are its accepted contents, numbered 1..n. */
module AtomicPolicies {
  import opened Wrappers
  import opened Text
  import opened PolicyIds
  import opened Elastic
  import opened Policies
  import opened PolicySteps
  import opened PolicyNumbers
  import opened PolicyRaces

  datatype Content = Content(regoContent: string, sourcePath: string)

  function ContentOf(e: PolicyEntity): Content {
    Content(e.regoContent, e.sourcePath)
  }

  datatype Request =
    | CreateRequest(policy: Policy, newId: string, now: Time)
    | UpdateRequest(policy: Policy, now: Time)
    | DeleteRequest(id: string)

  /** The index and, per policy, the contents that requests changed it to, in order. */
  datatype History = History(docs: Docs<PolicyDoc>, log: map<string, seq<Content>>)

  /** A request changes the content when it creates a policy, or gives an existing one another content. */
  function Serve(h: History, r: Request, valid: Validator): (History, bool)
    requires r.UpdateRequest? ==> r.policy.entity.Some?
  {
    match r
    case CreateRequest(policy, newId, now) =>
      var (docs, result) := Created(h.docs, policy, newId, now, valid);
      (History(docs, if result.Ok? then h.log[newId := [ContentOf(policy.entity.value)]] else h.log), result.Ok?)
    case UpdateRequest(policy, now) =>
      var before := FindJoined(h.docs, policy.id);
      var (docs, result) := Updated(h.docs, policy, now, valid);
      var changed := result.Ok? && ContentOf(policy.entity.value) != ContentOf(before.value.entity.value);
      (History(docs, if changed then Logged(h.log, policy.id, ContentOf(policy.entity.value)) else h.log), result.Ok?)
    case DeleteRequest(id) =>
      var (docs, result) := Deleted(h.docs, id);
      (History(docs, h.log), result.Ok?)
  }

  function Logged(log: map<string, seq<Content>>, id: string, content: Content): map<string, seq<Content>> {
    log[id := (if id in log then log[id] else []) + [content]]
  }

  predicate Welcome(r: Request) {
    match r
    case CreateRequest(_, newId, _) => newId != "" && DotFree(newId) && SlashFree(newId)
    case UpdateRequest(policy, _) => DotFree(policy.id) && policy.entity.Some?
    case DeleteRequest(id) => DotFree(id)
  }

  predicate AllWelcome(rs: seq<Request>) {
    forall i | 0 <= i < |rs| :: Welcome(rs[i])
  }

  function ServeAll(rs: seq<Request>, valid: Validator): History
    requires AllWelcome(rs)
    decreases |rs|
  {
    if rs == [] then History(map[], map[])
    else Serve(ServeAll(rs[..|rs| - 1], valid), rs[|rs| - 1], valid).0
  }

  // ----- the invariant -----

  /** The versions of one policy are the logged contents 1..n, the counter and the current version are n,
      every content was validated, and neighbours differ. */
  predicate Dense(docs: Docs<PolicyDoc>, id: string, contents: seq<Content>, valid: Validator) {
    && HasPolicy(docs, id)
    && 1 <= |contents| == CounterOf(docs, id) == docs[id].source.policy.currentVersion
    && (forall v: uint32 {:trigger HasVersion(docs, id, v)} :: HasVersion(docs, id, v) <==> 1 <= v <= |contents|)
    && (forall v: uint32 {:trigger HasVersion(docs, id, v)} | HasVersion(docs, id, v) ::
          ContentOf(docs[PolicyVersionId(id, v)].source.entity) == contents[v - 1])
    && (forall i | 0 <= i < |contents| :: Accepts(valid, contents[i].regoContent))
    && (forall i | 0 <= i < |contents| - 1 :: contents[i] != contents[i + 1])
  }

  ghost predicate Faithful(h: History, valid: Validator) {
    && WellFormed(h.docs)
    && (forall id | id in h.docs && h.docs[id].source.PolicyDoc? :: id in h.log)
    && (forall id {:trigger Dense(h.docs, id, h.log[id], valid)} | id in h.log :: Dense(h.docs, id, h.log[id], valid))
  }

  /** No policy has 2^32 versions. */
  predicate Small(log: map<string, seq<Content>>) {
    forall id | id in log :: |log[id]| < TWO_TO_THE_32
  }

  /** Nothing about the policy `id` differs in the two indexes, except perhaps its name, description and flags. */
  ghost predicate SamePolicyData(docs: Docs<PolicyDoc>, docs': Docs<PolicyDoc>, id: string) {
    && (HasPolicy(docs, id) ==>
          (HasPolicy(docs', id) &&
           docs'[id].source.policy.currentVersion == docs[id].source.policy.currentVersion))
    && CounterOf(docs', id) == CounterOf(docs, id)
    && (forall v: uint32 {:trigger HasVersion(docs', id, v)} ::
          (HasVersion(docs', id, v) <==> HasVersion(docs, id, v)) &&
          (HasVersion(docs, id, v) ==>
             docs'[PolicyVersionId(id, v)].source == docs[PolicyVersionId(id, v)].source))
  }

  lemma DenseSurvives(docs: Docs<PolicyDoc>, docs': Docs<PolicyDoc>, id: string, contents: seq<Content>,
                      valid: Validator)
    requires Dense(docs, id, contents, valid) && SamePolicyData(docs, docs', id)
    ensures Dense(docs', id, contents, valid)
  {
  }

  // ----- what each write leaves alone -----

  lemma EditLeavesData(docs: Docs<PolicyDoc>, id: string, policy: Policy, p: string)
    requires WellFormed(docs) && HasPolicy(docs, id)
    requires policy.currentVersion == docs[id].source.policy.currentVersion
    ensures SamePolicyData(docs, Overwritten(docs, id, PolicyDoc(policy), None), p)
  {
    var docs' := Overwritten(docs, id, PolicyDoc(policy), None);
    OverwriteKeepsCounters(docs, id, policy);
    assert CounterOf(docs', p) == CounterOf(docs, p);
    assert WellFormedAt(docs, id);
    forall v: uint32
      ensures (HasVersion(docs', p, v) <==> HasVersion(docs, p, v)) &&
              (HasVersion(docs, p, v) ==> docs'[PolicyVersionId(p, v)].source == docs[PolicyVersionId(p, v)].source)
    {
      HasDot(p, Decimal(v));
    }
  }

  lemma BumpLeavesVersions(docs: Docs<PolicyDoc>, id: string, p: string, v: uint32)
    requires WellFormed(docs) && HasPolicy(docs, id)
    ensures var k := PolicyVersionId(p, v);
            (k in docs <==> k in Bumped(docs, id)) && (k in docs ==> Bumped(docs, id)[k] == docs[k])
  {
    CounterIdIsItsOwn(id, p, v);
    assert WellFormedAt(docs, id);
  }

  /** The documents after an update that changes the content. */
  function Changed(docs: Docs<PolicyDoc>, id: string, policy: Policy, e: PolicyEntity): Docs<PolicyDoc> {
    WithVersion(Bumped(docs, id), id, policy, e)
  }

  lemma ChangeLeavesOthers(docs: Docs<PolicyDoc>, id: string, policy: Policy, e: PolicyEntity, p: string)
    requires WellFormed(docs) && HasPolicy(docs, id) && HasPolicy(docs, p) && p != id
    requires e.id == PolicyVersionId(id, e.version) && e.id !in docs
    ensures SamePolicyData(docs, Changed(docs, id, policy, e), p)
  {
    var docs' := Changed(docs, id, policy, e);
    BumpKeepsShape(docs, id);
    BumpCountsOne(docs, id, id);
    BumpCountsOne(docs, id, p);
    AddVersionKeepsCounters(Bumped(docs, id), id, policy, e);
    assert CounterOf(docs', p) == CounterOf(Bumped(docs, id), p);
    assert WellFormedAt(docs, id) && WellFormedAt(docs, p);
    HasDot(id, Decimal(e.version));
    CounterIdIsItsOwn(id, p, e.version);
    forall v: uint32
      ensures (HasVersion(docs', p, v) <==> HasVersion(docs, p, v)) &&
              (HasVersion(docs, p, v) ==> docs'[PolicyVersionId(p, v)].source == docs[PolicyVersionId(p, v)].source)
    {
      BumpLeavesVersions(docs, id, p, v);
      HasDot(p, Decimal(v));
      IdSpacesAreDisjoint(id, e.version, p, v);
    }
  }

  lemma CreateLeavesOthers(docs: Docs<PolicyDoc>, policy: Policy, e: PolicyEntity, p: string)
    requires WellFormed(docs) && HasPolicy(docs, p) && p != policy.id && DotFree(policy.id)
    requires e.id == PolicyVersionId(policy.id, e.version)
    requires PolicyCounterId(policy.id) !in docs && e.id !in docs
    ensures SamePolicyData(docs, WithPolicy(docs, policy, e), p)
  {
    var docs' := WithPolicy(docs, policy, e);
    CreateKeepsOtherCounters(docs, policy, e, p);
    assert WellFormedAt(docs, p);
    HasDot(policy.id, "counter");
    HasDot(policy.id, Decimal(e.version));
    forall v: uint32
      ensures (HasVersion(docs', p, v) <==> HasVersion(docs, p, v)) &&
              (HasVersion(docs, p, v) ==> docs'[PolicyVersionId(p, v)].source == docs[PolicyVersionId(p, v)].source)
    {
      HasDot(p, Decimal(v));
      IdSpacesAreDisjoint(policy.id, e.version, p, v);
      CounterIdIsItsOwn(policy.id, p, v);
    }
  }

  // ----- what each write adds -----

  lemma ChangeAddsOne(docs: Docs<PolicyDoc>, id: string, policy: Policy, e: PolicyEntity, contents: seq<Content>,
                      valid: Validator)
    requires WellFormed(docs) && Dense(docs, id, contents, valid)
    requires e.id == PolicyVersionId(id, e.version) && e.version == |contents| + 1 && policy.currentVersion == e.version
    requires Accepts(valid, e.regoContent) && ContentOf(e) != contents[|contents| - 1]
    ensures e.id !in docs
    ensures Dense(Changed(docs, id, policy, e), id, contents + [ContentOf(e)], valid)
  {
    var docs', contents' := Changed(docs, id, policy, e), contents + [ContentOf(e)];
    assert !HasVersion(docs, id, e.version);
    if e.id in docs {
      VersionIdHoldsVersion(docs, id, e.version);
    }
    BumpKeepsShape(docs, id);
    BumpCountsOne(docs, id, id);
    AddVersionKeepsCounters(Bumped(docs, id), id, policy, e);
    assert CounterOf(docs', id) == CounterOf(Bumped(docs, id), id);
    assert WellFormedAt(docs, id);
    HasDot(id, Decimal(e.version));
    forall v: uint32
      ensures HasVersion(docs', id, v) <==> 1 <= v <= |contents'|
      ensures HasVersion(docs', id, v) ==> ContentOf(docs'[PolicyVersionId(id, v)].source.entity) == contents'[v - 1]
    {
      BumpLeavesVersions(docs, id, id, v);
      HasDot(id, Decimal(v));
      IdSpacesAreDisjoint(id, e.version, id, v);
      assert HasVersion(docs, id, v) <==> 1 <= v <= |contents|;
    }
  }

  lemma CreateIsDense(docs: Docs<PolicyDoc>, policy: Policy, e: PolicyEntity, valid: Validator)
    requires WellFormed(docs)
    requires policy.id != "" && DotFree(policy.id) && SlashFree(policy.id)
    requires policy.entity.None? && policy.currentVersion == e.version == 1 && Accepts(valid, e.regoContent)
    requires e.id == PolicyVersionId(policy.id, 1)
    requires policy.id !in docs && PolicyCounterId(policy.id) !in docs && e.id !in docs
    ensures Dense(WithPolicy(docs, policy, e), policy.id, [ContentOf(e)], valid)
  {
    var id, docs' := policy.id, WithPolicy(docs, policy, e);
    CreateKeepsShape(docs, policy, e);
    CreateBulk(docs, policy, e);
    forall v: uint32
      ensures HasVersion(docs', id, v) <==> v == 1
      ensures HasVersion(docs', id, v) ==> docs'[PolicyVersionId(id, v)].source.entity == e
    {
      IdSpacesAreDisjoint(id, 1, id, v);
      HasDot(id, Decimal(v));
      if PolicyVersionId(id, v) in docs {
        NoVersionWithoutPolicy(docs, id, v);
      }
    }
  }

  lemma NoVersionWithoutPolicy(docs: Docs<PolicyDoc>, id: string, v: uint32)
    requires WellFormed(docs) && DotFree(id)
    ensures HasVersion(docs, id, v) ==> HasPolicy(docs, id)
  {
    if HasVersion(docs, id, v) {
      assert WellFormedAt(docs, PolicyVersionId(id, v));
      ParseUndoesVersionId(id, v);
    }
  }

  // ----- one request -----

  /** A write that leaves every policy's data alone keeps the history faithful. */
  lemma QuietStep(h: History, docs': Docs<PolicyDoc>, valid: Validator)
    requires Faithful(h, valid) && WellFormed(docs')
    requires forall p | p in h.log :: SamePolicyData(h.docs, docs', p)
    requires forall p | p in docs' && docs'[p].source.PolicyDoc? :: p in h.log
    ensures Faithful(History(docs', h.log), valid)
  {
    forall p | p in h.log ensures Dense(docs', p, h.log[p], valid) {
      assert Dense(h.docs, p, h.log[p], valid);
      DenseSurvives(h.docs, docs', p, h.log[p], valid);
    }
  }

  lemma EditKeepsFaithful(h: History, id: string, policy: Policy, valid: Validator)
    requires Faithful(h, valid) && Storable(h.docs, id, policy)
    requires policy.currentVersion == h.docs[id].source.policy.currentVersion
    ensures Faithful(History(Overwritten(h.docs, id, PolicyDoc(policy), None), h.log), valid)
  {
    var docs' := Overwritten(h.docs, id, PolicyDoc(policy), None);
    OverwriteKeepsShape(h.docs, id, policy);
    forall p | p in h.log ensures SamePolicyData(h.docs, docs', p) {
      EditLeavesData(h.docs, id, policy, p);
    }
    QuietStep(h, docs', valid);
  }

  lemma ChangeKeepsFaithful(h: History, id: string, policy: Policy, e: PolicyEntity, valid: Validator)
    requires Faithful(h, valid) && id in h.log && h.log[id] != []
    requires e.id == PolicyVersionId(id, e.version) && e.version == |h.log[id]| + 1
    requires policy.id == id && policy.entity.None? && policy.currentVersion == e.version
    requires Accepts(valid, e.regoContent) && ContentOf(e) != h.log[id][|h.log[id]| - 1]
    ensures e.id !in h.docs
    ensures Faithful(History(Changed(h.docs, id, policy, e), Logged(h.log, id, ContentOf(e))), valid)
  {
    var h' := History(Changed(h.docs, id, policy, e), Logged(h.log, id, ContentOf(e)));
    assert Dense(h.docs, id, h.log[id], valid) && WellFormedAt(h.docs, id);
    ChangeAddsOne(h.docs, id, policy, e, h.log[id], valid);
    BumpKeepsShape(h.docs, id);
    BumpCountsOne(h.docs, id, id);
    HasDot(id, Decimal(e.version));
    AddVersionKeepsShape(Bumped(h.docs, id), id, policy, e);
    forall p | p in h'.log ensures Dense(h'.docs, p, h'.log[p], valid) {
      if p != id {
        assert Dense(h.docs, p, h.log[p], valid);
        ChangeLeavesOthers(h.docs, id, policy, e, p);
        DenseSurvives(h.docs, h'.docs, p, h.log[p], valid);
      }
    }
    ChangeAddsNoPolicy(h.docs, id, policy, e);
  }

  lemma ChangeAddsNoPolicy(docs: Docs<PolicyDoc>, id: string, policy: Policy, e: PolicyEntity)
    requires WellFormed(docs) && HasPolicy(docs, id)
    ensures forall p | HasPolicy(Changed(docs, id, policy, e), p) && p in Changed(docs, id, policy, e) ::
              HasPolicy(docs, p)
  {
  }

  lemma CreateKeepsFaithful(h: History, policy: Policy, e: PolicyEntity, valid: Validator)
    requires Faithful(h, valid)
    requires policy.id != "" && DotFree(policy.id) && SlashFree(policy.id)
    requires policy.entity.None? && policy.currentVersion == e.version == 1 && Accepts(valid, e.regoContent)
    requires e.id == PolicyVersionId(policy.id, 1)
    requires policy.id !in h.docs && PolicyCounterId(policy.id) !in h.docs && e.id !in h.docs
    ensures Faithful(History(WithPolicy(h.docs, policy, e), h.log[policy.id := [ContentOf(e)]]), valid)
  {
    var h' := History(WithPolicy(h.docs, policy, e), h.log[policy.id := [ContentOf(e)]]);
    CreateKeepsShape(h.docs, policy, e);
    CreateIsDense(h.docs, policy, e, valid);
    forall p | p in h'.log ensures Dense(h'.docs, p, h'.log[p], valid) {
      if p != policy.id {
        assert Dense(h.docs, p, h.log[p], valid);
        CreateLeavesOthers(h.docs, policy, e, p);
        DenseSurvives(h.docs, h'.docs, p, h.log[p], valid);
      }
    }
  }

  /** Whatever the counter says, the version id an update with changed content builds is unused, so its bulk
      request succeeds; the version is the next one unless the number wraps around. */
  lemma UpdateChanges(h: History, request: Policy, now: Time, valid: Validator, policy: Policy, next: PolicyEntity)
    requires Faithful(h, valid) && DotFree(request.id) && request.entity.Some?
    requires FindJoined(h.docs, request.id).Ok?
    requires Prepare(FindJoined(h.docs, request.id).value, request, now, valid) == ChangesContent(policy, next)
    ensures var id := request.id;
            id in h.log && h.log[id] != [] && HasPolicy(h.docs, id) && next == request.entity.value &&
            policy.id == id && policy.entity.None? && Accepts(valid, next.regoContent) &&
            ContentOf(next) != h.log[id][|h.log[id]| - 1] &&
            var version := ToUint32(|h.log[id]| + 1);
            var e := Numbered(next, id, version, now);
            e.id !in h.docs &&
            Updated(h.docs, request, now, valid) ==
            (Changed(h.docs, id, policy.(currentVersion := version), e),
             Ok(policy.(currentVersion := version, entity := Some(e))))
  {
    UpdatePrepares(h, request, now, valid, policy, next);
    UpdateCommits(h, request, now, valid, policy, next);
  }

  lemma UpdatePrepares(h: History, request: Policy, now: Time, valid: Validator, policy: Policy, next: PolicyEntity)
    requires Faithful(h, valid) && DotFree(request.id) && request.entity.Some?
    requires FindJoined(h.docs, request.id).Ok?
    requires Prepare(FindJoined(h.docs, request.id).value, request, now, valid) == ChangesContent(policy, next)
    ensures var id := request.id;
            id in h.log && h.log[id] != [] && HasPolicy(h.docs, id) && next == request.entity.value &&
            policy.id == id && policy.entity.None? && Accepts(valid, next.regoContent) &&
            ContentOf(next) != h.log[id][|h.log[id]| - 1]
  {
    var id := request.id;
    FoundIsStorable(h.docs, id);
    StoredPolicyIsReadable(h.docs, id);
    assert WellFormedAt(h.docs, id) && Dense(h.docs, id, h.log[id], valid);
  }

  lemma UpdateCommits(h: History, request: Policy, now: Time, valid: Validator, policy: Policy, next: PolicyEntity)
    requires Faithful(h, valid) && DotFree(request.id) && request.entity.Some?
    requires request.id in h.log && HasPolicy(h.docs, request.id) && policy.id == request.id && policy.entity.None?
    requires FindJoined(h.docs, request.id).Ok?
    requires Prepare(FindJoined(h.docs, request.id).value, request, now, valid) == ChangesContent(policy, next)
    ensures var id := request.id;
            var version := ToUint32(|h.log[id]| + 1);
            var e := Numbered(next, id, version, now);
            e.id !in h.docs &&
            Updated(h.docs, request, now, valid) ==
            (Changed(h.docs, id, policy.(currentVersion := version), e),
             Ok(policy.(currentVersion := version, entity := Some(e))))
  {
    var id := request.id;
    UpdatedIsCommitted(h.docs, request, now, valid, policy, next);
    assert WellFormedAt(h.docs, id) && Dense(h.docs, id, h.log[id], valid);
    hide FindJoined, Prepare, Faithful, WellFormed, WellFormedAt, Updated, ApplyBulk, PolicyCounterId;
    BumpCountsOne(h.docs, id, id);
    BumpKeepsShape(h.docs, id);
    var version := ToUint32(|h.log[id]| + 1);
    var e := Numbered(next, id, version, now);
    NextIsUnused(h.docs, id, h.log[id], valid);
    HasDot(id, Decimal(version));
    BumpLeavesVersions(h.docs, id, id, version);
    hide Bumped, PolicyVersionId, HasVersion;
    CommitBulk(Bumped(h.docs, id), id, policy.(currentVersion := version), e);
  }

  lemma UpdatedIsCommitted(docs: Docs<PolicyDoc>, request: Policy, now: Time, valid: Validator, policy: Policy,
                           next: PolicyEntity)
    requires request.entity.Some? && FindJoined(docs, request.id).Ok?
    requires Prepare(FindJoined(docs, request.id).value, request, now, valid) == ChangesContent(policy, next)
    ensures var bumped := Bumped(docs, request.id);
            var version := ToUint32(CounterOf(bumped, request.id));
            var e := Numbered(next, request.id, version, now);
            Updated(docs, request, now, valid) ==
            Committed(bumped, request.id, policy.(currentVersion := version), Some(e), e)
  {
    hide FindJoined, Prepare, Bumped, CounterOf, Numbered, Committed;
  }

  lemma NextIsUnused(docs: Docs<PolicyDoc>, id: string, contents: seq<Content>, valid: Validator)
    requires WellFormed(docs) && Dense(docs, id, contents, valid)
    ensures PolicyVersionId(id, ToUint32(|contents| + 1)) !in docs
  {
    var v := ToUint32(|contents| + 1);
    assert v == 0 || v == |contents| + 1;
    assert !HasVersion(docs, id, v);
    if PolicyVersionId(id, v) in docs {
      VersionIdHoldsVersion(docs, id, v);
    }
  }

  lemma UpdateServed(h: History, request: Policy, now: Time, valid: Validator)
    requires Faithful(h, valid) && DotFree(request.id) && request.entity.Some?
    requires Small(Serve(h, UpdateRequest(request, now), valid).0.log)
    ensures var (h', ok) := Serve(h, UpdateRequest(request, now), valid); Faithful(h', valid) && (!ok ==> h' == h)
  {
    hide ParsePolicyVersionId, PolicyVersionId, PolicyCounterId, Faithful, FindJoined, WellFormed;
    var found := FindJoined(h.docs, request.id);
    if found.Ok? {
      match Prepare(found.value, request, now, valid) {
        case Rejected(_) =>
        case KeepsContent(policy, entity) =>
          EditBulk(h.docs, request.id, policy);
          EditServed(h, request, now, valid, policy, entity);
        case ChangesContent(policy, next) =>
          UpdateChanges(h, request, now, valid, policy, next);
          var version := ToUint32(|h.log[request.id]| + 1);
          var log' := Logged(h.log, request.id, ContentOf(next));
          assert Serve(h, UpdateRequest(request, now), valid).0.log == log';
          assert request.id in log';
          assert |h.log[request.id] + [ContentOf(next)]| < TWO_TO_THE_32;
          ChangeKeepsFaithful(h, request.id, policy.(currentVersion := version),
                              Numbered(next, request.id, version, now), valid);
      }
    }
  }

  lemma EditServed(h: History, request: Policy, now: Time, valid: Validator, policy: Policy, entity: PolicyEntity)
    requires Faithful(h, valid) && DotFree(request.id) && request.entity.Some? && FindJoined(h.docs, request.id).Ok?
    requires Prepare(FindJoined(h.docs, request.id).value, request, now, valid) == KeepsContent(policy, entity)
    ensures Faithful(History(Overwritten(h.docs, request.id, PolicyDoc(policy), None), h.log), valid)
  {
    FoundIsStorable(h.docs, request.id);
    StoredPolicyIsReadable(h.docs, request.id);
    EditKeepsFaithful(h, request.id, policy, valid);
  }

  /** Every request keeps the history faithful, and one that is refused changes nothing: it uses up no number. */
  lemma Served(h: History, r: Request, valid: Validator)
    requires Faithful(h, valid) && Welcome(r) && Small(Serve(h, r, valid).0.log)
    ensures var (h', ok) := Serve(h, r, valid); Faithful(h', valid) && (!ok ==> h' == h)
  {
    match r
    case CreateRequest(request, newId, now) =>
      if Serve(h, r, valid).1 {
        var policy := InitialPolicy(request, newId, now);
        var e := InitialEntity(request.entity.value, newId, now);
        CreateBulk(h.docs, policy, e);
        CreateKeepsFaithful(h, policy, e, valid);
      }
    case UpdateRequest(request, now) => UpdateServed(h, request, now, valid);
    case DeleteRequest(id) =>
      if Serve(h, r, valid).1 {
        FoundIsStorable(h.docs, id);
        EditKeepsFaithful(h, id, FindPolicy(h.docs, id).value.(deleted := true), valid);
      }
  }

  // ----- all runs -----

  ghost predicate SmallThroughout(rs: seq<Request>, valid: Validator)
    requires AllWelcome(rs)
  {
    forall n {:trigger ServeAll(rs[..n], valid)} | 0 <= n <= |rs| :: Small(ServeAll(rs[..n], valid).log)
  }

  lemma {:induction false} HistoryIsFaithful(rs: seq<Request>, valid: Validator)
    requires AllWelcome(rs) && SmallThroughout(rs, valid)
    ensures Faithful(ServeAll(rs, valid), valid)
  {
    hide Serve, Faithful, Small;
    if rs == [] {
      NothingIsFaithful(valid);
    } else {
      var n := |rs| - 1;
      SmallBefore(rs, valid);
      HistoryIsFaithful(rs[..n], valid);
      Served(ServeAll(rs[..n], valid), rs[n], valid);
    }
  }

  lemma NothingIsFaithful(valid: Validator)
    ensures Faithful(History(map[], map[]), valid)
  {
  }

  lemma {:induction false} SmallBefore(rs: seq<Request>, valid: Validator)
    requires AllWelcome(rs) && SmallThroughout(rs, valid) && rs != []
    ensures SmallThroughout(rs[..|rs| - 1], valid) && Small(ServeAll(rs, valid).log)
  {
    var n := |rs| - 1;
    assert rs[..|rs|] == rs;
    hide Serve, Small;
    forall m | 0 <= m <= n ensures Small(ServeAll(rs[..n][..m], valid).log) {
      assert rs[..n][..m] == rs[..m];
    }
  }

  /** After any run, a policy's versions are numbered 1..n, where n is its counter, its current version and the
      number of contents accepted for it; reading "p.k" gives the k-th accepted content; each of them was
      validated and differs from the one before. */
  lemma {:induction false} VersionsAreTheAcceptedContents(rs: seq<Request>, valid: Validator, id: string)
    requires AllWelcome(rs) && SmallThroughout(rs, valid) && HasPolicy(ServeAll(rs, valid).docs, id)
    ensures var h := ServeAll(rs, valid);
            id in h.log &&
            var n := |h.log[id]|;
            1 <= n == CounterOf(h.docs, id) == h.docs[id].source.policy.currentVersion &&
            (forall v: uint32 {:trigger HasVersion(h.docs, id, v)} :: HasVersion(h.docs, id, v) <==> 1 <= v <= n) &&
            (forall v: uint32 {:trigger PolicyVersionId(id, v)} | 1 <= v <= n ::
               var found := FindJoined(h.docs, PolicyVersionId(id, v));
               found.Ok? && ContentOf(found.value.entity.value) == h.log[id][v - 1]) &&
            (forall i | 0 <= i < n :: Accepts(valid, h.log[id][i].regoContent)) &&
            (forall i | 0 <= i < n - 1 :: h.log[id][i] != h.log[id][i + 1])
  {
    var h := ServeAll(rs, valid);
    HistoryIsFaithful(rs, valid);
    assert Dense(h.docs, id, h.log[id], valid);
    forall v: uint32 | 1 <= v <= |h.log[id]|
      ensures var found := FindJoined(h.docs, PolicyVersionId(id, v));
              found.Ok? && ContentOf(found.value.entity.value) == h.log[id][v - 1]
    {
      assert HasVersion(h.docs, id, v);
      VersionIsReadable(h.docs, id, v);
    }
  }

  lemma VersionIsReadable(docs: Docs<PolicyDoc>, id: string, v: uint32)
    requires WellFormed(docs) && HasPolicy(docs, id) && HasVersion(docs, id, v) && v != 0
    ensures FindJoined(docs, PolicyVersionId(id, v)) ==
            Ok(docs[id].source.policy.(entity := Some(docs[PolicyVersionId(id, v)].source.entity)))
  {
    assert WellFormedAt(docs, id);
    ParseUndoesVersionId(id, v);
  }

  // ----- deletion is permanent -----

  lemma CreateServedKeepsShape(docs: Docs<PolicyDoc>, request: Policy, newId: string, now: Time, valid: Validator)
    requires WellFormed(docs) && Welcome(CreateRequest(request, newId, now))
    ensures WellFormed(Created(docs, request, newId, now, valid).0)
    ensures forall p | HasPolicy(docs, p) ::
              SamePolicyData(docs, Created(docs, request, newId, now, valid).0, p) &&
              Created(docs, request, newId, now, valid).0[p].source == docs[p].source
  {
    if Created(docs, request, newId, now, valid).1.Ok? {
      var policy := InitialPolicy(request, newId, now);
      var e := InitialEntity(request.entity.value, newId, now);
      CreateBulk(docs, policy, e);
      CreateKeepsShape(docs, policy, e);
      forall p | HasPolicy(docs, p)
        ensures SamePolicyData(docs, WithPolicy(docs, policy, e), p) &&
                  WithPolicy(docs, policy, e)[p].source == docs[p].source
      {
        CreateLeavesOthers(docs, policy, e, p);
        assert WellFormedAt(docs, p);
        HasDot(newId, "counter");
        HasDot(newId, Decimal(1));
      }
    }
  }

  lemma BumpLeavesOthers(docs: Docs<PolicyDoc>, id: string, p: string)
    requires WellFormed(docs) && HasPolicy(docs, id) && HasPolicy(docs, p) && p != id
    ensures SamePolicyData(docs, Bumped(docs, id), p) && Bumped(docs, id)[p].source == docs[p].source
  {
    assert WellFormedAt(docs, p) && WellFormedAt(docs, id);
    BumpCountsOne(docs, id, p);
    HasDot(id, "counter");
    forall v: uint32
      ensures var k := PolicyVersionId(p, v);
              (k in docs <==> k in Bumped(docs, id)) && (k in docs ==> Bumped(docs, id)[k] == docs[k])
    {
      BumpLeavesVersions(docs, id, p, v);
    }
  }

  /** A policy marked as deleted, at the end of an update: it was another policy's update, or it was refused. */
  lemma UpdateLeavesDeleted(docs: Docs<PolicyDoc>, request: Policy, now: Time, valid: Validator, p: string)
    requires WellFormed(docs) && DotFree(request.id) && request.entity.Some?
    requires HasPolicy(docs, p) && docs[p].source.policy.deleted
    ensures var docs' := Updated(docs, request, now, valid).0;
            SamePolicyData(docs, docs', p) && HasPolicy(docs', p) && docs'[p].source == docs[p].source
  {
    var id := request.id;
    var found := FindJoined(docs, id);
    if found.Ok? {
      FoundIsStorable(docs, id);
      assert WellFormedAt(docs, id);
      match Prepare(found.value, request, now, valid) {
        case Rejected(_) =>
        case KeepsContent(policy, _) =>
          EditBulk(docs, id, policy);
          EditLeavesData(docs, id, policy, p);
        case ChangesContent(policy, next) =>
          ChangeLeavesDeleted(docs, id, policy, next, now, p);
      }
    }
  }

  lemma ChangeLeavesDeleted(docs: Docs<PolicyDoc>, id: string, policy: Policy, next: PolicyEntity, now: Time, p: string)
    requires WellFormed(docs) && HasPolicy(docs, id) && HasPolicy(docs, p) && p != id
    ensures var bumped := Bumped(docs, id);
            var version := ToUint32(CounterOf(bumped, id));
            var e := Numbered(next, id, version, now);
            var docs' := Committed(bumped, id, policy.(currentVersion := version), Some(e), e);
            (docs'.1.Err? ==> SamePolicyData(docs, bumped, p) && bumped[p].source == docs[p].source) &&
            (docs'.1.Ok? ==> SamePolicyData(docs, docs'.0, p) && docs'.0[p].source == docs[p].source) &&
            (docs'.1.Err? ==> docs'.0 == bumped)
  {
    var bumped := Bumped(docs, id);
    var version := ToUint32(CounterOf(bumped, id));
    var e := Numbered(next, id, version, now);
    BumpLeavesOthers(docs, id, p);
    BumpKeepsShape(docs, id);
    assert WellFormedAt(docs, id) && WellFormedAt(docs, p);
    HasDot(id, Decimal(version));
    CommitBulk(bumped, id, policy.(currentVersion := version), e);
    if e.id !in bumped {
      ChangeLeavesOthers(docs, id, policy.(currentVersion := version), e, p);
    }
  }

  lemma DeleteLeavesDeleted(docs: Docs<PolicyDoc>, id: string, p: string)
    requires WellFormed(docs) && DotFree(id) && HasPolicy(docs, p) && docs[p].source.policy.deleted
    ensures var docs' := Deleted(docs, id).0;
            SamePolicyData(docs, docs', p) && HasPolicy(docs', p) && docs'[p].source == docs[p].source
  {
    if FindPolicy(docs, id).Ok? {
      FoundIsStorable(docs, id);
      EditLeavesData(docs, id, FindPolicy(docs, id).value.(deleted := true), p);
    }
  }

  lemma ServedKeepsShape(h: History, r: Request, valid: Validator)
    requires WellFormed(h.docs) && Welcome(r)
    ensures WellFormed(Serve(h, r, valid).0.docs)
  {
    match r
    case CreateRequest(request, newId, now) => CreateServedKeepsShape(h.docs, request, newId, now, valid);
    case UpdateRequest(request, now) => UpdateKeepsShapeExactly(h.docs, request, now, valid);
    case DeleteRequest(id) => DeleteKeepsShapeExactly(h.docs, id);
  }

  lemma ServedLeavesDeleted(h: History, r: Request, valid: Validator, p: string)
    requires WellFormed(h.docs) && Welcome(r) && HasPolicy(h.docs, p) && h.docs[p].source.policy.deleted
    ensures var docs' := Serve(h, r, valid).0.docs;
            SamePolicyData(h.docs, docs', p) && HasPolicy(docs', p) && docs'[p].source == h.docs[p].source
  {
    match r
    case CreateRequest(request, newId, now) => CreateServedKeepsShape(h.docs, request, newId, now, valid);
    case UpdateRequest(request, now) => UpdateLeavesDeleted(h.docs, request, now, valid, p);
    case DeleteRequest(id) => DeleteLeavesDeleted(h.docs, id, p);
  }

  lemma EmptyIsWellFormed()
    ensures WellFormed(map[])
  {
  }
}
