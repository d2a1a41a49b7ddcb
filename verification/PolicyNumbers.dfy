/** Version numbers in flight: the bulk request that creates a version never meets an existing id. */
module PolicyNumbers {
  import opened Wrappers
  import opened Text
  import opened PolicyIds
  import opened Elastic
  import opened Policies
  import opened PolicySteps

  /** No counter has reached 2^32. */
  predicate Bounded(docs: Docs<PolicyDoc>) {
    forall k | k in docs && docs[k].source.CounterDoc? :: docs[k].version < TWO_TO_THE_32
  }

  predicate Adds(call: Call) {
    call.Committing? && call.added.Some?
  }

  /** A stored version's number has been counted. */
  predicate Counted(docs: Docs<PolicyDoc>, k: string)
    requires k in docs
  {
    docs[k].source.VersionDoc? ==> 1 <= docs[k].source.entity.version <= CounterOf(docs, BaseOf(k))
  }

  /** A number in flight has been counted, and is not the number of any stored version. */
  predicate FreshCall(docs: Docs<PolicyDoc>, call: Call) {
    Adds(call) ==> 1 <= call.added.value.version <= CounterOf(docs, call.id) && call.added.value.id !in docs
  }

  /** Two calls hold the same number of the same policy. */
  predicate Clash(a: Call, b: Call) {
    Adds(a) && Adds(b) && a.id == b.id && a.added.value.version == b.added.value.version
  }

  predicate Fresh(s: State) {
    && (forall k {:trigger Counted(s.docs, k)} | k in s.docs :: Counted(s.docs, k))
    && (forall c {:trigger FreshCall(s.docs, s.calls[c])} | c in s.calls :: FreshCall(s.docs, s.calls[c]))
    && (forall c, d {:trigger Clash(s.calls[c], s.calls[d])} | c in s.calls && d in s.calls && c != d ::
          !Clash(s.calls[c], s.calls[d]))
  }

  /** The document under a version id is that version. */
  lemma VersionIdHoldsVersion(docs: Docs<PolicyDoc>, id: string, v: uint32)
    requires WellFormed(docs) && HasPolicy(docs, id) && PolicyVersionId(id, v) in docs
    ensures var k := PolicyVersionId(id, v);
            docs[k].source.VersionDoc? && docs[k].source.entity.version == v && BaseOf(k) == id
  {
    var k := PolicyVersionId(id, v);
    assert WellFormedAt(docs, id) && WellFormedAt(docs, k);
    ParseUndoesVersionId(id, v);
    CounterIdIsItsOwn(BaseOf(k), id, v);
    if docs[k].source.VersionDoc? {
      ParseUndoesVersionId(id, docs[k].source.entity.version);
    }
  }

  lemma SameDocsKeepFresh(s: State, s': State, c: nat)
    requires Fresh(s) && s'.docs == s.docs
    requires s'.calls == s.calls - {c} || (c in s'.calls && s'.calls == s.calls[c := s'.calls[c]] && !Adds(s'.calls[c]))
    ensures Fresh(s')
  {
    forall d | d in s'.calls ensures FreshCall(s'.docs, s'.calls[d]) {
      assert d in s.calls && d != c ==> FreshCall(s.docs, s.calls[d]);
    }
    forall d, e | d in s'.calls && e in s'.calls && d != e ensures !Clash(s'.calls[d], s'.calls[e]) {
      if d != c && e != c {
        assert !Clash(s.calls[d], s.calls[e]);
      }
    }
  }

  /** Overwriting a policy document, or counting, leaves stored and held numbers as they were. */
  lemma SameKeysKeepFresh(s: State, s': State)
    requires Inv(s) && Fresh(s) && Grows(s.docs, s'.docs) && s'.docs.Keys == s.docs.Keys
    requires forall p :: CounterOf(s.docs, p) <= CounterOf(s'.docs, p)
    requires s'.calls.Keys <= s.calls.Keys && forall c | c in s'.calls :: s'.calls[c] == s.calls[c]
    ensures Fresh(s')
  {
    forall k | k in s'.docs ensures Counted(s'.docs, k) {
      assert Counted(s.docs, k);
      assert WellFormedAt(s.docs, k);
    }
    forall c | c in s'.calls ensures FreshCall(s'.docs, s'.calls[c]) {
      assert FreshCall(s.docs, s.calls[c]);
    }
    forall c, d | c in s'.calls && d in s'.calls && c != d ensures !Clash(s'.calls[c], s'.calls[d]) {
      assert !Clash(s.calls[c], s.calls[d]);
    }
  }

  lemma CreateKeepsFresh(s: State, policy: Policy, e: PolicyEntity, handed: map<string, seq<uint32>>)
    requires Inv(s) && Fresh(s) && DotFree(policy.id)
    requires e.id == PolicyVersionId(policy.id, 1) && e.version == 1
    requires policy.id !in s.docs && PolicyCounterId(policy.id) !in s.docs && e.id !in s.docs
    ensures Fresh(State(WithPolicy(s.docs, policy, e), s.calls, handed))
  {
    var id := policy.id;
    var docs' := WithPolicy(s.docs, policy, e);
    CreateBulk(s.docs, policy, e);
    forall k | k in docs' ensures Counted(docs', k) {
      ParseUndoesVersionId(id, 1);
      if k in s.docs {
        assert Counted(s.docs, k) && WellFormedAt(s.docs, k);
        CreateKeepsOtherCounters(s.docs, policy, e, if BaseOf(k) == id then id + "x" else BaseOf(k));
      }
    }
    forall c | c in s.calls ensures FreshCall(docs', s.calls[c]) {
      var call := s.calls[c];
      assert FreshCall(s.docs, call) && CallOk(s.docs, call);
      if Adds(call) {
        assert WellFormedAt(s.docs, call.id);
        CreateKeepsOtherCounters(s.docs, policy, e, call.id);
        IdSpacesAreDisjoint(call.id, call.added.value.version, id, 1);
        IdSpacesAreDisjoint(id, call.added.value.version, call.id, call.added.value.version);
        CounterIdIsItsOwn(id, call.id, call.added.value.version);
      }
    }
  }

  lemma StoredNumberIsCounted(s: State, id: string, v: uint32)
    requires Inv(s) && Fresh(s) && HasPolicy(s.docs, id)
    ensures PolicyVersionId(id, v) in s.docs ==> 1 <= v <= CounterOf(s.docs, id)
  {
    if PolicyVersionId(id, v) in s.docs {
      VersionIdHoldsVersion(s.docs, id, v);
      assert Counted(s.docs, PolicyVersionId(id, v));
    }
  }

  lemma NextNumberIsFree(s: State, id: string)
    requires Inv(s) && Fresh(s) && HasPolicy(s.docs, id) && Bounded(Bumped(s.docs, id))
    ensures var v := ToUint32(CounterOf(Bumped(s.docs, id), id));
            v == CounterOf(s.docs, id) + 1 && PolicyVersionId(id, v) !in s.docs
  {
    BumpCountsOne(s.docs, id, id);
    var v := ToUint32(CounterOf(Bumped(s.docs, id), id));
    assert v == CounterOf(s.docs, id) + 1;
    StoredNumberIsCounted(s, id, v);
  }

  lemma NumberKeepsFresh(s: State, c: nat)
    requires Inv(s) && Fresh(s) && c in s.calls && s.calls[c].NeedsNumber?
    requires Bounded(Bumped(s.docs, s.calls[c].id))
    ensures Fresh(Number(s, c, s.calls[c]))
  {
    var id := s.calls[c].id;
    var docs' := Bumped(s.docs, id);
    assert CallOk(s.docs, s.calls[c]);
    BumpKeepsShape(s.docs, id);
    assert WellFormedAt(s.docs, id);
    forall p ensures CounterOf(s.docs, p) <= CounterOf(docs', p) {
      BumpCountsOne(s.docs, id, p);
    }
    var others := State(docs', s.calls - {c}, s.handed);
    SameKeysKeepFresh(s, others);
    NextNumberIsFree(s, id);
    var s' := Number(s, c, s.calls[c]);
    forall d | d in s'.calls ensures FreshCall(s'.docs, s'.calls[d]) {
      assert d != c ==> d in others.calls && FreshCall(others.docs, others.calls[d]);
    }
    forall d, e | d in s'.calls && e in s'.calls && d != e ensures !Clash(s'.calls[d], s'.calls[e]) {
      if d != c && e != c {
        assert !Clash(others.calls[d], others.calls[e]);
      } else {
        assert d in s.calls && FreshCall(s.docs, s.calls[d]);
        assert e in s.calls && FreshCall(s.docs, s.calls[e]);
      }
    }
  }

  lemma OtherNumberStaysFresh(docs: Docs<PolicyDoc>, call: Call, other: Call)
    requires WellFormed(docs) && CallOk(docs, call) && CallOk(docs, other)
    requires FreshCall(docs, call) && FreshCall(docs, other) && Adds(call) && !Clash(call, other)
    ensures FreshCall(WithVersion(docs, call.id, call.policy, call.added.value), other)
  {
    var e := call.added.value;
    AddVersionKeepsCounters(docs, call.id, call.policy, e);
    if Adds(other) {
      var w := other.added.value.version;
      var docs' := WithVersion(docs, call.id, call.policy, e);
      assert CounterOf(docs', other.id) == CounterOf(docs, other.id);
      assert WellFormedAt(docs, call.id) && WellFormedAt(docs, other.id);
      IdSpacesAreDisjoint(call.id, e.version, other.id, w);
      IdSpacesAreDisjoint(call.id, e.version, call.id, w);
      HasDot(other.id, Decimal(w));
    }
  }

  lemma AddVersionKeepsFresh(s: State, c: nat)
    requires Inv(s) && Fresh(s) && c in s.calls && Adds(s.calls[c])
    ensures var call := s.calls[c];
            Fresh(Finish(s.(docs := WithVersion(s.docs, call.id, call.policy, call.added.value)), c))
  {
    var call := s.calls[c];
    var e := call.added.value;
    assert CallOk(s.docs, call) && FreshCall(s.docs, call) && WellFormedAt(s.docs, call.id);
    var docs' := WithVersion(s.docs, call.id, call.policy, e);
    AddVersionKeepsCounters(s.docs, call.id, call.policy, e);
    ParseUndoesVersionId(call.id, e.version);
    var s' := Finish(s.(docs := docs'), c);
    forall k | k in docs' ensures Counted(docs', k) {
      assert CounterOf(docs', BaseOf(k)) == CounterOf(s.docs, BaseOf(k));
      assert k in s.docs ==> Counted(s.docs, k);
    }
    forall d | d in s'.calls ensures FreshCall(docs', s'.calls[d]) {
      assert FreshCall(s.docs, s.calls[d]) && CallOk(s.docs, s.calls[d]) && !Clash(call, s.calls[d]);
      OtherNumberStaysFresh(s.docs, call, s.calls[d]);
    }
    forall d, f | d in s'.calls && f in s'.calls && d != f ensures !Clash(s'.calls[d], s'.calls[f]) {
      assert !Clash(s.calls[d], s.calls[f]);
    }
  }

  lemma PolicyWriteKeepsFresh(s: State, c: nat, policy: Policy)
    requires Inv(s) && Fresh(s) && c in s.calls
    requires s.calls[c].Deleting? || (s.calls[c].Committing? && s.calls[c].added.None?)
    requires Storable(s.docs, s.calls[c].id, policy)
    ensures Fresh(Finish(s.(docs := Overwritten(s.docs, s.calls[c].id, PolicyDoc(policy), None)), c))
  {
    var id := s.calls[c].id;
    var docs' := Overwritten(s.docs, id, PolicyDoc(policy), None);
    OverwriteKeepsShape(s.docs, id, policy);
    OverwriteKeepsCounters(s.docs, id, policy);
    assert forall p :: CounterOf(docs', p) == CounterOf(s.docs, p);
    SameKeysKeepFresh(s, Finish(s.(docs := docs'), c));
  }

  lemma WriteKeepsFresh(s: State, c: nat)
    requires Inv(s) && Fresh(s) && c in s.calls && s.calls[c].Committing?
    ensures Fresh(Write(s, c, s.calls[c]))
  {
    var call := s.calls[c];
    CallFacts(s, c);
    if call.added.None? {
      EditBulk(s.docs, call.id, call.policy);
      PolicyWriteKeepsFresh(s, c, call.policy);
    } else {
      CommitSucceeds(s.docs, call);
      AddVersionKeepsFresh(s, c);
    }
  }

  lemma StartKeepsFresh(s: State, request: Policy, newId: string, now: Time, valid: Validator)
    requires Inv(s) && Fresh(s) && Addressed(Create(request, newId, now))
    ensures Fresh(Start(s, request, newId, now, valid))
  {
    var s' := Start(s, request, newId, now, valid);
    if s' != s {
      var policy := InitialPolicy(request, newId, now);
      var e := InitialEntity(request.entity.value, newId, now);
      CreateBulk(s.docs, policy, e);
      CreateKeepsFresh(s, policy, e, s'.handed);
    }
  }

  lemma WriteDeletedKeepsFresh(s: State, c: nat)
    requires Inv(s) && Fresh(s) && c in s.calls && s.calls[c].Deleting?
    ensures Fresh(WriteDeleted(s, c, s.calls[c]))
  {
    CallFacts(s, c);
    hide Fresh, WellFormed;
    PolicyWriteKeepsFresh(s, c, s.calls[c].snapshot.(deleted := true));
  }

  lemma ReadsKeepFresh(s: State, l: Label, valid: Validator)
    requires Fresh(s) && (l.ReadPolicy? || l.ReadVersion? || l.ReadForDelete? || l.Fail?)
    ensures Fresh(Apply(s, l, valid))
  {
    hide Fresh, Join, FindPolicy, Prepare, ParsePolicyVersionId, PolicyVersionId;
    var s' := Apply(s, l, valid);
    if s' != s {
      SameDocsKeepFresh(s, s', l.c);
    }
  }

  lemma FreshStep(s: State, l: Label, valid: Validator)
    requires Inv(s) && Addressed(l) && Fresh(s) && Bounded(Apply(s, l, valid).docs)
    ensures Fresh(Apply(s, l, valid))
  {
    hide Inv, Fresh, Bounded, Start, Write, WriteDeleted;
    match l
    case Create(request, newId, now) => StartKeepsFresh(s, request, newId, now, valid);
    case Bump(c) => if c in s.calls && s.calls[c].NeedsNumber? { NumberKeepsFresh(s, c); }
    case Commit(c) => if c in s.calls && s.calls[c].Committing? { WriteKeepsFresh(s, c); }
    case WriteDelete(c) => if c in s.calls && s.calls[c].Deleting? { WriteDeletedKeepsFresh(s, c); }
    case _ => ReadsKeepFresh(s, l, valid);
  }

  lemma {:induction false} FreshReachable(labels: seq<Label>, valid: Validator)
    requires AllAddressed(labels) && Bounded(Run(labels, valid).docs)
    ensures Fresh(Run(labels, valid))
  {
    if labels != [] {
      var n := |labels| - 1;
      Reachable(labels[..n], valid);
      Step(Run(labels[..n], valid), labels[n], valid);
      FreshReachable(labels[..n], valid);
      FreshStep(Run(labels[..n], valid), labels[n], valid);
    }
  }

  lemma {:induction false} CommitSucceeds(docs: Docs<PolicyDoc>, call: Call)
    requires WellFormed(docs) && CallOk(docs, call) && Adds(call) && FreshCall(docs, call)
    ensures var docs' := WithVersion(docs, call.id, call.policy, call.added.value);
            call.added.value.id !in docs && call.id in docs &&
            ApplyBulk(docs, UpdateActions(call.id, call.policy, call.added)) == Some(docs') &&
            FindJoined(docs', call.id) == Ok(call.policy.(entity := call.added))
  {
    HasDot(call.id, Decimal(call.added.value.version));
    assert WellFormedAt(docs, call.id);
    CommitBulk(docs, call.id, call.policy, call.added.value);
    AddVersionKeepsShape(docs, call.id, call.policy, call.added.value);
    StoredPolicyIsReadable(WithVersion(docs, call.id, call.policy, call.added.value), call.id);
  }

  /** In every interleaving in which no counter has reached 2^32: the bulk request of an update that got a number
      succeeds, adds exactly that version document, and makes it current. */
  lemma {:induction false} CommitNeverConflicts(labels: seq<Label>, c: nat, valid: Validator)
    requires AllAddressed(labels) && Bounded(Run(labels, valid).docs)
    requires var s := Run(labels, valid); c in s.calls && Adds(s.calls[c])
    ensures var s, s' := Run(labels, valid), Run(labels + [Commit(c)], valid);
            var call := s.calls[c];
            call.added.value.id !in s.docs &&
            s'.docs.Keys == s.docs.Keys + {call.id, call.added.value.id} &&
            FindJoined(s'.docs, call.id) == Ok(call.policy.(entity := call.added))
  {
    hide Inv, Fresh, WellFormed, CallOk, FreshCall, FindJoined, Bounded, PolicyVersionId;
    var s := Run(labels, valid);
    assert (labels + [Commit(c)])[..|labels|] == labels;
    Reachable(labels, valid);
    FreshReachable(labels, valid);
    CallFacts(s, c);
    CommitSucceeds(s.docs, s.calls[c]);
  }

  lemma CallFacts(s: State, c: nat)
    requires Inv(s) && Fresh(s) && c in s.calls
    ensures WellFormed(s.docs) && CallOk(s.docs, s.calls[c]) && FreshCall(s.docs, s.calls[c])
  {
  }
}
