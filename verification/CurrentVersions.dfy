/** The current version of a policy while updates and deletes of it are in flight: which steps lower it. */
module CurrentVersions {
  import opened Wrappers
  import opened Text
  import opened PolicyIds
  import opened Elastic
  import opened Policies
  import opened PolicyRaces
  import opened PolicySteps
  import opened DeletionRaces
  import PolicyNumbers

  function CurrentOf(docs: Docs<PolicyDoc>, p: string): uint32
    requires HasPolicy(docs, p)
  {
    docs[p].source.policy.currentVersion
  }

  /** The step writes back an older version than the policy has by now. */
  predicate Reverts(s: State, l: Label, p: string)
    requires HasPolicy(s.docs, p)
  {
    WritesPolicy(s, l, p) && PolicyToWrite(s.calls[l.c]).currentVersion < CurrentOf(s.docs, p)
  }

  /** Exactly two kinds of step make an older version current again: the commit of an update, and the write of a delete,
      that hold an older version than the current one. */
  lemma CurrentVersionFallsExactly(s: State, l: Label, valid: Validator, p: string)
    requires Inv(s) && Addressed(l) && HasPolicy(s.docs, p)
    ensures var docs' := Apply(s, l, valid).docs;
            HasPolicy(docs', p) && (CurrentOf(docs', p) < CurrentOf(s.docs, p) <==> Reverts(s, l, p))
  {
    hide Inv, Apply;
    PolicyWrittenExactly(s, l, valid, p);
  }

  // ----- the ways to get there -----

  /** A live policy with no version above its counter. While no counter has reached 2^32 every live policy is like
      that, whatever is in flight: see LivePoliciesAreSettled. */
  ghost predicate Settled(s: State, p: string) {
    && Inv(s) && HasPolicy(s.docs, p) && !s.docs[p].source.policy.deleted
    && CurrentOf(s.docs, p) <= CounterOf(s.docs, p) && Unused(s.docs, p, CounterOf(s.docs, p))
  }

  /** No version above `n` has a document. */
  ghost predicate Unused(docs: Docs<PolicyDoc>, p: string, n: nat) {
    forall v: uint32 {:trigger PolicyVersionId(p, v)} | v > n :: PolicyVersionId(p, v) !in docs
  }

  /** In every interleaving in which no counter has reached 2^32. */
  lemma {:induction false} LivePoliciesAreSettled(labels: seq<Label>, p: string, valid: Validator)
    requires AllAddressed(labels) && PolicyNumbers.Bounded(Run(labels, valid).docs)
    requires var docs := Run(labels, valid).docs; HasPolicy(docs, p) && !docs[p].source.policy.deleted
    ensures Settled(Run(labels, valid), p)
  {
    var s := Run(labels, valid);
    Reachable(labels, valid);
    PolicyNumbers.FreshReachable(labels, valid);
    assert WellFormedAt(s.docs, p);
    hide Run, PolicyVersionId, PolicyNumbers.Fresh, CounterOf, WellFormed, CallsOk, HandedOk;
    PolicyNumbers.StoredNumberIsCounted(s, p, CurrentOf(s.docs, p));
    forall v: uint32 | v > CounterOf(s.docs, p) ensures PolicyVersionId(p, v) !in s.docs {
      PolicyNumbers.StoredNumberIsCounted(s, p, v);
    }
  }

  function ContentAt(docs: Docs<PolicyDoc>, p: string): PolicyEntity
    requires HasPolicy(docs, p)
  {
    AsEntity(if PolicyVersionId(p, CurrentOf(docs, p)) in docs then docs[PolicyVersionId(p, CurrentOf(docs, p))].source
             else CounterDoc)
  }

  predicate SameContent(a: PolicyEntity, b: PolicyEntity) {
    a.regoContent == b.regoContent && a.sourcePath == b.sourcePath
  }

  /** The request changes the policy's content to one that is accepted. */
  predicate Changes(docs: Docs<PolicyDoc>, request: Policy, valid: Validator) {
    && HasPolicy(docs, request.id) && request.entity.Some?
    && !SameContent(ContentAt(docs, request.id), request.entity.value)
    && Accepts(valid, request.entity.value.regoContent)
  }

  predicate Keeps(docs: Docs<PolicyDoc>, request: Policy) {
    && HasPolicy(docs, request.id) && request.entity.Some?
    && SameContent(ContentAt(docs, request.id), request.entity.value)
  }

  function Edited(docs: Docs<PolicyDoc>, request: Policy, now: Time): Policy
    requires HasPolicy(docs, request.id)
  {
    docs[request.id].source.policy.(
      name := request.name, description := request.description, updated := Some(now), entity := None)
  }

  lemma Reads(s: State, c: nat, request: Policy, valid: Validator)
    requires Inv(s) && HasPolicy(s.docs, request.id) && c !in s.calls && request.entity.Some?
    ensures var policy := s.docs[request.id].source.policy;
            var versionId := PolicyVersionId(policy.id, policy.currentVersion);
            Apply(s, ReadPolicy(c, request), valid)
            == s.(calls := s.calls[c := GotPolicy(request, policy, versionId)]) &&
            Join(s.docs, policy, versionId) == Ok(policy.(entity := Some(ContentAt(s.docs, request.id)))) &&
            policy.id == request.id
  {
    assert WellFormedAt(s.docs, request.id);
    StoredPolicyIsReadable(s.docs, request.id);
    hide WellFormed, WellFormedAt, HandedOk, CallsOk;
  }

  lemma Decides(s: State, c: nat, request: Policy, now: Time, valid: Validator)
    requires Inv(s) && HasPolicy(s.docs, request.id) && !s.docs[request.id].source.policy.deleted && c !in s.calls
    ensures var s' := ReadTwice(s, c, request, now, valid);
            var edited := Edited(s.docs, request, now);
            (Keeps(s.docs, request) ==> s' == s.(calls := s.calls[c := Committing(request.id, edited, None)])) &&
            (Changes(s.docs, request, valid) ==>
               s' == s.(calls := s.calls[c := NeedsNumber(request.id, edited, request.entity.value, now)]))
  {
    if request.entity.Some? {
      Reads(s, c, request, valid);
      hide Inv, PolicyVersionId, ContentAt, Accepts, Join;
      var s1 := Apply(s, ReadPolicy(c, request), valid);
      assert ReadTwice(s, c, request, now, valid) == Decide(s1, c, s1.calls[c], now, valid);
      hide Apply, ReadTwice;
      var edited := Edited(s.docs, request, now);
      Replaced(s.calls, c, s1.calls[c], Committing(request.id, edited, None));
      Replaced(s.calls, c, s1.calls[c], NeedsNumber(request.id, edited, request.entity.value, now));
    }
  }

  lemma Replaced(calls: map<nat, Call>, c: nat, first: Call, second: Call)
    ensures calls[c := first][c := second] == calls[c := second]
  {
  }

  function WithNumber(call: Call, n: uint32): Call
    requires call.NeedsNumber?
  {
    Committing(call.id, call.policy.(currentVersion := n), Some(Numbered(call.next, call.id, n, call.now)))
  }

  lemma BumpGives(s: State, c: nat, valid: Validator)
    requires Inv(s) && c in s.calls && s.calls[c].NeedsNumber?
    requires CounterOf(s.docs, s.calls[c].id) + 1 < TWO_TO_THE_32
    ensures var s', p := Apply(s, Bump(c), valid), s.calls[c].id;
            var n := CounterOf(s.docs, p) + 1;
            s'.calls == s.calls[c := WithNumber(s.calls[c], n)] && CounterOf(s'.docs, p) == n &&
            s'.docs == Bumped(s.docs, p) && s'.docs.Keys == s.docs.Keys + {PolicyCounterId(p)} &&
            HasPolicy(s'.docs, p) && s'.docs[p] == s.docs[p]
  {
    hide Inv, Apply, Bumped, CounterOf, WithNumber, HasPolicy;
    CallHasPolicy(s, c);
    BumpLeavesPolicy(s.docs, s.calls[c].id);
    BumpIs(s, c, valid);
  }

  lemma CallHasPolicy(s: State, c: nat)
    requires Inv(s) && c in s.calls && s.calls[c].NeedsNumber?
    ensures WellFormed(s.docs) && HasPolicy(s.docs, s.calls[c].id)
  {
    assert CallOk(s.docs, s.calls[c]);
  }

  lemma BumpLeavesPolicy(docs: Docs<PolicyDoc>, p: string)
    requires WellFormed(docs) && HasPolicy(docs, p)
    ensures HasPolicy(Bumped(docs, p), p) && Bumped(docs, p)[p] == docs[p]
    ensures CounterOf(Bumped(docs, p), p) == CounterOf(docs, p) + 1
  {
    BaseHasNoDot(docs, p);
    BumpCountsOne(docs, p, p);
    CounterIsNoBase(p);
  }

  lemma BumpIs(s: State, c: nat, valid: Validator)
    requires c in s.calls && s.calls[c].NeedsNumber?
    ensures var s', p := Apply(s, Bump(c), valid), s.calls[c].id;
            s'.calls == s.calls[c := WithNumber(s.calls[c], ToUint32(CounterOf(Bumped(s.docs, p), p)))] &&
            s'.docs == Bumped(s.docs, p) && s'.docs.Keys == s.docs.Keys + {PolicyCounterId(p)}
  {
    hide CounterOf, ToUint32, PolicyCounterId, Numbered, HandOut;
  }

  /** Raising the counter leaves what an update compares itself with. */
  lemma ChangesStay(docs: Docs<PolicyDoc>, request: Policy, valid: Validator)
    requires WellFormed(docs) && Changes(docs, request, valid)
    ensures Changes(Bumped(docs, request.id), request, valid)
  {
    var p := request.id;
    assert WellFormedAt(docs, p);
    hide WellFormed, PolicyVersionId, PolicyCounterId;
    CounterIdIsItsOwn(p, p, CurrentOf(docs, p));
    CounterIsNoBase(p);
  }

  lemma CounterIsNoBase(p: string)
    requires DotFree(p)
    ensures PolicyCounterId(p) != p
  {
    HasDot(p, "counter");
  }

  lemma CommitGives(s: State, c: nat, valid: Validator)
    requires Inv(s) && c in s.calls && s.calls[c].Committing? && s.calls[c].added.Some?
    requires s.calls[c].added.value.id !in s.docs
    ensures var s', p := Apply(s, Commit(c), valid), s.calls[c].id;
            s'.calls == s.calls - {c} && HasPolicy(s'.docs, p) &&
            s'.docs[p].source == PolicyDoc(s.calls[c].policy) &&
            s'.docs.Keys == s.docs.Keys + {p, s.calls[c].added.value.id}
  {
    var Committing(p, policy, added) := s.calls[c];
    CommitWrites(s, c, valid, p);
    assert CallOk(s.docs, s.calls[c]);
    hide ApplyBulk, WellFormed, HandedOk, UpdateActions, CallsOk;
    HasDot(p, Decimal(added.value.version));
    BaseHasNoDot(s.docs, p);
    CommitBulk(s.docs, p, policy, added.value);
  }

  lemma ReadTwiceKeepsInv(s: State, c: nat, request: Policy, now: Time, valid: Validator)
    requires Inv(s) && DotFree(request.id)
    ensures Inv(ReadTwice(s, c, request, now, valid))
  {
    hide Inv, Apply, DotFree;
    Step(s, ReadPolicy(c, request), valid);
    Step(Apply(s, ReadPolicy(c, request), valid), ReadVersion(c, now), valid);
  }

  /** A whole update, with other calls in flight, takes the next number and makes it current. */
  lemma UpdateGives(s: State, c: nat, request: Policy, now: Time, valid: Validator)
    requires Inv(s) && Changes(s.docs, request, valid) && !s.docs[request.id].source.policy.deleted && c !in s.calls
    requires CounterOf(s.docs, request.id) + 1 < TWO_TO_THE_32
    requires PolicyVersionId(request.id, CounterOf(s.docs, request.id) + 1) !in s.docs
    ensures var s', p := UpdateSteps(s, c, request, now, valid), request.id;
            var n := CounterOf(s.docs, p) + 1;
            s'.calls == s.calls && HasPolicy(s'.docs, p) && CurrentOf(s'.docs, p) == n &&
            s'.docs.Keys <= s.docs.Keys + {PolicyCounterId(p), PolicyVersionId(p, n)}
  {
    var p := request.id;
    BaseHasNoDot(s.docs, p);
    hide Inv, Apply, DotFree, PolicyVersionId, CounterOf, SameContent, Accepts, ContentAt;
    Decides(s, c, request, now, valid);
    ReadTwiceKeepsInv(s, c, request, now, valid);
    var s1 := ReadTwice(s, c, request, now, valid);
    NumberedUpdateGives(s1, c, valid);
    assert s1.calls - {c} == s.calls;
  }

  /** The rest of it, once it has decided to add a version. */
  lemma NumberedUpdateGives(s: State, c: nat, valid: Validator)
    requires Inv(s) && c in s.calls && s.calls[c].NeedsNumber?
    requires CounterOf(s.docs, s.calls[c].id) + 1 < TWO_TO_THE_32
    requires PolicyVersionId(s.calls[c].id, CounterOf(s.docs, s.calls[c].id) + 1) !in s.docs
    ensures var s', p := Apply(Apply(s, Bump(c), valid), Commit(c), valid), s.calls[c].id;
            var n := CounterOf(s.docs, p) + 1;
            s'.calls == s.calls - {c} && HasPolicy(s'.docs, p) && CurrentOf(s'.docs, p) == n &&
            s'.docs.Keys <= s.docs.Keys + {PolicyCounterId(p), PolicyVersionId(p, n)}
  {
    var p, n := s.calls[c].id, CounterOf(s.docs, s.calls[c].id) + 1;
    hide Inv, Apply, PolicyVersionId, PolicyCounterId, CounterOf, Bumped, WithNumber;
    var s1 := Apply(s, Bump(c), valid);
    assert Inv(s1) by { Step(s, Bump(c), valid); }
    assert p in s.docs by { CallHasPolicy(s, c); }
    WithNumberIs(s.calls[c], n);
    BumpGives(s, c, valid);
    assert PolicyVersionId(p, n) !in s1.docs by { CounterIdIsItsOwn(p, p, n); }
    assert s1.calls - {c} == s.calls - {c};
    CommitGives(s1, c, valid);
  }

  lemma WithNumberIs(call: Call, n: uint32)
    requires call.NeedsNumber?
    ensures var numbered := WithNumber(call, n);
            numbered.Committing? && numbered.id == call.id && numbered.policy.currentVersion == n &&
            numbered.added.Some? && numbered.added.value.id == PolicyVersionId(call.id, n)
  {
  }

  /** An update that keeps the content, and read the policy before another update added a version. */
  lemma StaleEditReverts(s: State, c: nat, d: nat, edit: Policy, update: Policy, now: Time, valid: Validator)
    requires Settled(s, edit.id) && c !in s.calls && d !in s.calls && c != d && update.id == edit.id
    requires CounterOf(s.docs, edit.id) + 1 < TWO_TO_THE_32 && Keeps(s.docs, edit) && Changes(s.docs, update, valid)
    ensures var s' := UpdateSteps(ReadTwice(s, c, edit, now, valid), d, update, now, valid);
            HasPolicy(s'.docs, edit.id) && Reverts(s', Commit(c), edit.id) && s'.calls[c].added.None?
  {
    BaseHasNoDot(s.docs, edit.id);
    NextIsUnused(s, edit.id);
    hide Keeps, Changes, Inv, Unused, ReadTwice, UpdateSteps, DotFree, PolicyVersionId, CounterOf;
    Decides(s, c, edit, now, valid);
    ReadTwiceKeepsInv(s, c, edit, now, valid);
    UpdateGives(ReadTwice(s, c, edit, now, valid), d, update, now, valid);
  }

  lemma NextIsUnused(s: State, p: string)
    requires Settled(s, p)
    ensures forall n: uint32 | n > CounterOf(s.docs, p) :: PolicyVersionId(p, n) !in s.docs
  {
  }

  /** A delete that read the policy before another update added a version. */
  lemma StaleDeleteReverts(s: State, c: nat, d: nat, update: Policy, now: Time, valid: Validator)
    requires Settled(s, update.id) && c !in s.calls && d !in s.calls && c != d
    requires CounterOf(s.docs, update.id) + 1 < TWO_TO_THE_32 && Changes(s.docs, update, valid)
    ensures var s' := UpdateSteps(Apply(s, ReadForDelete(c, update.id), valid), d, update, now, valid);
            HasPolicy(s'.docs, update.id) && Reverts(s', WriteDelete(c), update.id)
  {
    var p := update.id;
    assert WellFormedAt(s.docs, p);
    var s1 := Apply(s, ReadForDelete(c, p), valid);
    assert s1 == s.(calls := s.calls[c := Deleting(p, s.docs[p].source.policy)]);
    NextIsUnused(s, p);
    hide Changes, Inv, Unused, UpdateSteps, PolicyVersionId, CounterOf, Apply;
    Step(s, ReadForDelete(c, p), valid);
    UpdateGives(s1, d, update, now, valid);
  }

  /** An update up to its number. */
  lemma NumberGives(s: State, c: nat, request: Policy, now: Time, valid: Validator)
    requires Inv(s) && Changes(s.docs, request, valid) && !s.docs[request.id].source.policy.deleted && c !in s.calls
    requires CounterOf(s.docs, request.id) + 1 < TWO_TO_THE_32
    ensures var s', p, n := Apply(ReadTwice(s, c, request, now, valid), Bump(c), valid), request.id,
                            CounterOf(s.docs, request.id) + 1;
            Inv(s') && s'.docs == Bumped(s.docs, p) && CounterOf(s'.docs, p) == n &&
            HasPolicy(s'.docs, p) && s'.docs[p] == s.docs[p] &&
            s'.docs.Keys == s.docs.Keys + {PolicyCounterId(p)} && s'.calls.Keys == s.calls.Keys + {c} &&
            s'.calls[c].Committing? && s'.calls[c].id == p && s'.calls[c].policy.currentVersion == n &&
            s'.calls[c].added.Some? && s'.calls[c].added.value.id == PolicyVersionId(p, n)
  {
    BaseHasNoDot(s.docs, request.id);
    hide Inv, Apply, DotFree, PolicyVersionId, CounterOf, SameContent, Accepts, ContentAt, Bumped;
    Decides(s, c, request, now, valid);
    ReadTwiceKeepsInv(s, c, request, now, valid);
    var s1 := ReadTwice(s, c, request, now, valid);
    hide ReadTwice;
    BumpGives(s1, c, valid);
    Step(s1, Bump(c), valid);
  }

  /** An update that got its number before another one, and commits after it. */
  lemma LateCommitReverts(s: State, c: nat, d: nat, update: Policy, other: Policy, now: Time, valid: Validator)
    requires Settled(s, update.id) && c !in s.calls && d !in s.calls && c != d && other.id == update.id
    requires CounterOf(s.docs, update.id) + 2 < TWO_TO_THE_32
    requires Changes(s.docs, update, valid) && Changes(s.docs, other, valid)
    ensures var s1 := Apply(ReadTwice(s, c, update, now, valid), Bump(c), valid);
            var s' := UpdateSteps(s1, d, other, now, valid);
            HasPolicy(s'.docs, update.id) && Reverts(s', Commit(c), update.id) && s'.calls[c].added.Some?
  {
    var p, n := update.id, CounterOf(s.docs, update.id);
    BaseHasNoDot(s.docs, p);
    NextIsUnused(s, p);
    NumberIds(p, n);
    ChangesStay(s.docs, other, valid);
    NumberGives(s, c, update, now, valid);
    hide Inv, Unused, Apply, ReadTwice, UpdateSteps, DotFree, CounterOf, PolicyVersionId, PolicyCounterId, Changes,
      Bumped, Reverts;
    LaterNumberWins(Apply(ReadTwice(s, c, update, now, valid), Bump(c), valid), c, d, other, now, valid);
  }

  lemma LaterNumberWins(s: State, c: nat, d: nat, other: Policy, now: Time, valid: Validator)
    requires Inv(s) && c in s.calls && d !in s.calls && s.calls[c].Committing? && s.calls[c].id == other.id
    requires Changes(s.docs, other, valid) && !s.docs[other.id].source.policy.deleted
    requires var n := CounterOf(s.docs, other.id);
             n + 1 < TWO_TO_THE_32 && s.calls[c].policy.currentVersion == n && s.calls[c].added.Some? &&
             s.calls[c].added.value.id == PolicyVersionId(other.id, n) &&
             PolicyVersionId(other.id, n) != PolicyVersionId(other.id, n + 1) &&
             PolicyVersionId(other.id, n) != PolicyCounterId(other.id) &&
             PolicyVersionId(other.id, n) !in s.docs && PolicyVersionId(other.id, n + 1) !in s.docs
    ensures var s' := UpdateSteps(s, d, other, now, valid);
            HasPolicy(s'.docs, other.id) && Reverts(s', Commit(c), other.id) && s'.calls == s.calls
  {
    hide Inv, UpdateSteps, CounterOf, PolicyVersionId, PolicyCounterId, Changes;
    UpdateGives(s, d, other, now, valid);
  }

  lemma NumberIds(p: string, n: nat)
    requires DotFree(p) && n + 2 < TWO_TO_THE_32
    ensures PolicyVersionId(p, n + 1) != PolicyVersionId(p, n + 2)
    ensures PolicyVersionId(p, n + 1) != PolicyCounterId(p) && PolicyVersionId(p, n + 2) != PolicyCounterId(p)
  {
    IdSpacesAreDisjoint(p, n + 1, p, n + 2);
    IdSpacesAreDisjoint(p, n + 2, p, n + 1);
  }

  // ----- runs that show each way -----

  lemma {:induction false} RunOneMore(labels: seq<Label>, l: Label, valid: Validator)
    requires AllAddressed(labels) && Addressed(l)
    ensures Run(labels + [l], valid) == Apply(Run(labels, valid), l, valid) && AllAddressed(labels + [l])
  {
    assert (labels + [l])[..|labels|] == labels;
  }

  lemma RunReadTwice(labels: seq<Label>, c: nat, request: Policy, now: Time, valid: Validator)
    returns (more: seq<Label>)
    requires AllAddressed(labels) && DotFree(request.id)
    ensures labels <= more && AllAddressed(more)
    ensures Run(more, valid) == ReadTwice(Run(labels, valid), c, request, now, valid)
  {
    hide Run, Apply;
    RunOneMore(labels, ReadPolicy(c, request), valid);
    RunOneMore(labels + [ReadPolicy(c, request)], ReadVersion(c, now), valid);
    more := labels + [ReadPolicy(c, request)] + [ReadVersion(c, now)];
  }

  lemma RunUpdate(labels: seq<Label>, c: nat, request: Policy, now: Time, valid: Validator)
    returns (more: seq<Label>)
    requires AllAddressed(labels) && DotFree(request.id)
    ensures labels <= more && AllAddressed(more)
    ensures Run(more, valid) == UpdateSteps(Run(labels, valid), c, request, now, valid)
  {
    hide Run, Apply;
    more := RunReadTwice(labels, c, request, now, valid);
    RunOneMore(more, Bump(c), valid);
    RunOneMore(more + [Bump(c)], Commit(c), valid);
    more := more + [Bump(c)] + [Commit(c)];
  }

  lemma CreatedRun(request: Policy, p: string, now: Time, valid: Validator)
    requires p != "" && DotFree(p) && SlashFree(p)
    requires request.name != "" && request.entity.Some? && Accepts(valid, request.entity.value.regoContent)
    ensures var labels := [Create(request, p, now)];
            var s := Run(labels, valid);
            AllAddressed(labels) && Inv(s) && s.calls == map[] &&
            s.docs == WithPolicy(map[], InitialPolicy(request, p, now), InitialEntity(request.entity.value, p, now))
  {
    var l := Create(request, p, now);
    RunOneMore([], l, valid);
    assert [] + [l] == [l];
    Reachable([l], valid);
    CreateBulk(map[], InitialPolicy(request, p, now), InitialEntity(request.entity.value, p, now));
    hide ApplyBulk, CreateActions, Inv, Addressed;
    assert Run([], valid) == INITIAL;
    assert Run([l], valid) == Start(INITIAL, request, p, now, valid);
  }

  /** The run that creates a policy. */
  lemma CreatedIsSettled(request: Policy, p: string, now: Time, valid: Validator)
    requires p != "" && DotFree(p) && SlashFree(p)
    requires request.name != "" && !request.deleted && request.entity.Some?
    requires Accepts(valid, request.entity.value.regoContent)
    ensures var s := Run([Create(request, p, now)], valid);
            AllAddressed([Create(request, p, now)]) && Settled(s, p) && CounterOf(s.docs, p) == 1 && s.calls == map[] &&
            SameContent(ContentAt(s.docs, p), request.entity.value)
  {
    hide Run, Inv;
    CreatedRun(request, p, now, valid);
    NewPolicyIds(p);
    hide PolicyVersionId, PolicyCounterId;
    assert CounterOf(Run([Create(request, p, now)], valid).docs, p) == 1;
  }

  lemma NewPolicyIds(p: string)
    requires DotFree(p)
    ensures forall v: uint32 {:trigger PolicyVersionId(p, v)} ::
              PolicyVersionId(p, v) != p && PolicyVersionId(p, v) != PolicyCounterId(p) &&
              (PolicyVersionId(p, v) == PolicyVersionId(p, 1) <==> v == 1)
    ensures PolicyCounterId(p) != p
  {
    forall v: uint32 ensures PolicyVersionId(p, v) != p && PolicyVersionId(p, v) != PolicyCounterId(p) &&
                             (PolicyVersionId(p, v) == PolicyVersionId(p, 1) <==> v == 1)
    {
      IdSpacesAreDisjoint(p, v, p, 1);
      IdSpacesAreDisjoint(p, v, p, v);
    }
    CounterIsNoBase(p);
  }

  /** A run after which the label makes an older version current again. */
  ghost predicate Falls(labels: seq<Label>, l: Label, p: string, valid: Validator) {
    var s, s' := Run(labels, valid), Run(labels + [l], valid);
    AllAddressed(labels + [l]) && HasPolicy(s.docs, p) && HasPolicy(s'.docs, p) &&
    CurrentOf(s'.docs, p) < CurrentOf(s.docs, p)
  }

  lemma {:induction false} RevertingFalls(labels: seq<Label>, l: Label, p: string, valid: Validator)
    requires AllAddressed(labels) && Addressed(l) && HasPolicy(Run(labels, valid).docs, p)
    requires Reverts(Run(labels, valid), l, p)
    ensures Falls(labels, l, p, valid)
  {
    hide Run, Apply, Inv, Reverts, Addressed;
    Reachable(labels, valid);
    RunOneMore(labels, l, valid);
    CurrentVersionFallsExactly(Run(labels, valid), l, valid, p);
  }

  /** Two requests for one new policy with different contents that are both accepted. */
  predicate TwoContents(a: Policy, b: Policy, valid: Validator) {
    && a.id == b.id != "" && DotFree(a.id) && SlashFree(a.id) && a.name != "" && !a.deleted
    && a.entity.Some? && b.entity.Some? && !SameContent(a.entity.value, b.entity.value)
    && Accepts(valid, a.entity.value.regoContent) && Accepts(valid, b.entity.value.regoContent)
  }

  lemma CreatedWithTwo(a: Policy, b: Policy, valid: Validator)
    requires TwoContents(a, b, valid)
    ensures var labels := [Create(a, a.id, 0)];
            var s := Run(labels, valid);
            AllAddressed(labels) && Settled(s, a.id) && CounterOf(s.docs, a.id) == 1 && s.calls == map[] &&
            Keeps(s.docs, a) && Changes(s.docs, b, valid)
  {
    CreatedIsSettled(a, a.id, 0, valid);
  }

  /** After the labels the policy is live and settled, two calls can start, and two more numbers fit 32 bits. */
  ghost predicate CanRace(labels: seq<Label>, c: nat, d: nat, p: string, valid: Validator) {
    var s := Run(labels, valid);
    && AllAddressed(labels) && Settled(s, p) && c !in s.calls && d !in s.calls && c != d
    && CounterOf(s.docs, p) + 2 < TWO_TO_THE_32
  }

  lemma {:induction false} SettledIsDotFree(labels: seq<Label>, p: string, valid: Validator)
    requires Settled(Run(labels, valid), p)
    ensures HasPolicy(Run(labels, valid).docs, p) && DotFree(p)
  {
    hide Run;
    BaseHasNoDot(Run(labels, valid).docs, p);
  }

  lemma StaleEditRun(labels: seq<Label>, c: nat, d: nat, edit: Policy, update: Policy, now: Time, valid: Validator)
    returns (more: seq<Label>)
    requires update.id == edit.id && CanRace(labels, c, d, edit.id, valid)
    requires Keeps(Run(labels, valid).docs, edit) && Changes(Run(labels, valid).docs, update, valid)
    ensures labels <= more && Falls(more, Commit(c), edit.id, valid)
    ensures var calls := Run(more, valid).calls; c in calls && calls[c].Committing? && calls[c].added.None?
  {
    SettledIsDotFree(labels, edit.id, valid);
    hide Run, Apply, Settled, Keeps, Changes, ReadTwice, UpdateSteps, Falls, CounterOf, DotFree;
    more := RunReadTwice(labels, c, edit, now, valid);
    more := RunUpdate(more, d, update, now, valid);
    StaleEditReverts(Run(labels, valid), c, d, edit, update, now, valid);
    RevertingFalls(more, Commit(c), edit.id, valid);
  }

  lemma LateCommitRun(labels: seq<Label>, c: nat, d: nat, update: Policy, other: Policy, now: Time, valid: Validator)
    returns (more: seq<Label>)
    requires other.id == update.id && CanRace(labels, c, d, update.id, valid)
    requires Changes(Run(labels, valid).docs, update, valid) && Changes(Run(labels, valid).docs, other, valid)
    ensures labels <= more && Falls(more, Commit(c), update.id, valid)
    ensures var calls := Run(more, valid).calls; c in calls && calls[c].Committing? && calls[c].added.Some?
  {
    SettledIsDotFree(labels, update.id, valid);
    hide Run, Apply, Settled, Changes, ReadTwice, UpdateSteps, Falls, CounterOf, DotFree;
    more := RunReadTwice(labels, c, update, now, valid);
    RunOneMore(more, Bump(c), valid);
    more := RunUpdate(more + [Bump(c)], d, other, now, valid);
    LateCommitReverts(Run(labels, valid), c, d, update, other, now, valid);
    RevertingFalls(more, Commit(c), update.id, valid);
  }

  lemma StaleDeleteRun(labels: seq<Label>, c: nat, d: nat, update: Policy, now: Time, valid: Validator)
    returns (more: seq<Label>)
    requires CanRace(labels, c, d, update.id, valid) && Changes(Run(labels, valid).docs, update, valid)
    ensures labels <= more && Falls(more, WriteDelete(c), update.id, valid)
  {
    SettledIsDotFree(labels, update.id, valid);
    hide Run, Apply, Settled, Changes, ReadTwice, UpdateSteps, Falls, CounterOf, DotFree;
    RunOneMore(labels, ReadForDelete(c, update.id), valid);
    more := RunUpdate(labels + [ReadForDelete(c, update.id)], d, update, now, valid);
    StaleDeleteReverts(Run(labels, valid), c, d, update, now, valid);
    RevertingFalls(more, WriteDelete(c), update.id, valid);
  }

  /** Each of the three ways continues the run: an edit, an update that got its number earlier, and a delete. */
  ghost predicate FallsInEachWay(labels: seq<Label>, c: nat, p: string, valid: Validator) {
    exists edits, updates, deletes | labels <= edits && labels <= updates && labels <= deletes ::
      Falls(edits, Commit(c), p, valid) && Falls(updates, Commit(c), p, valid) &&
      Falls(deletes, WriteDelete(c), p, valid) &&
      (var calls := Run(edits, valid).calls; c in calls && calls[c].Committing? && calls[c].added.None?) &&
      (var calls := Run(updates, valid).calls; c in calls && calls[c].Committing? && calls[c].added.Some?)
  }

  lemma {:induction false} EachWay(labels: seq<Label>, c: nat, d: nat, edit: Policy, update: Policy, now: Time,
                                   valid: Validator)
    requires update.id == edit.id && CanRace(labels, c, d, edit.id, valid)
    requires Keeps(Run(labels, valid).docs, edit) && Changes(Run(labels, valid).docs, update, valid)
    ensures FallsInEachWay(labels, c, edit.id, valid)
  {
    hide Falls, Run, Keeps, Changes, CanRace;
    var edits := StaleEditRun(labels, c, d, edit, update, now, valid);
    var updates := LateCommitRun(labels, c, d, update, update, now, valid);
    var deletes := StaleDeleteRun(labels, c, d, update, now, valid);
  }

  /** From every reachable state in which no counter has reached 2^32, whatever else is in flight, the current version
      of any live policy can fall in each of the three ways. */
  lemma {:induction false} EveryWayFromReachable(labels: seq<Label>, c: nat, d: nat, edit: Policy, update: Policy,
                                                 now: Time, valid: Validator)
    requires AllAddressed(labels) && PolicyNumbers.Bounded(Run(labels, valid).docs) && update.id == edit.id
    requires var s := Run(labels, valid);
             c !in s.calls && d !in s.calls && c != d && Keeps(s.docs, edit) && Changes(s.docs, update, valid) &&
             !s.docs[edit.id].source.policy.deleted && CounterOf(s.docs, edit.id) + 2 < TWO_TO_THE_32
    ensures FallsInEachWay(labels, c, edit.id, valid)
  {
    LivePoliciesAreSettled(labels, edit.id, valid);
    hide FallsInEachWay, Run, Keeps, Changes, Settled;
    EachWay(labels, c, d, edit, update, now, valid);
  }

  /** In particular once a policy has been created in an empty index, for any two contents that are accepted. */
  lemma {:induction false} EveryWayIsReached(a: Policy, b: Policy, valid: Validator)
    requires TwoContents(a, b, valid)
    ensures FallsInEachWay([Create(a, a.id, 0)], 1, a.id, valid)
  {
    CreatedWithTwo(a, b, valid);
    hide FallsInEachWay, Run, Keeps, Changes, Settled, TwoContents;
    EachWay([Create(a, a.id, 0)], 1, 2, a, b, 0, valid);
  }
}
