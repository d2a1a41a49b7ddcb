/** Deleting a policy while updates of it are in flight: what undoes a deletion, and when nothing can. */
module DeletionRaces {
  import opened Text
  import opened PolicyIds
  import opened Elastic
  import opened Policies
  import opened PolicySteps

  predicate IsDeleted(docs: Docs<PolicyDoc>, p: string) {
    HasPolicy(docs, p) && docs[p].source.policy.deleted
  }

  /** An update in flight that read the policy before it was deleted. */
  predicate HoldsLive(call: Call, p: string) {
    match call
    case GotPolicy(request, snapshot, _) => request.id == p && !snapshot.deleted
    case NeedsNumber(id, policy, _, _) => id == p && !policy.deleted
    case Committing(id, policy, _) => id == p && !policy.deleted
    case Deleting(_, _) => false
  }

  ghost predicate NobodyHolds(calls: map<nat, Call>, p: string) {
    forall c {:trigger HoldsLive(calls[c], p)} | c in calls :: !HoldsLive(calls[c], p)
  }

  // ----- what a step writes to a policy document -----

  /** The step writes the policy `p`: the commit of an update whose bulk request goes through, or the write of a
      delete. */
  predicate WritesPolicy(s: State, l: Label, p: string) {
    || (l.Commit? && l.c in s.calls && s.calls[l.c].Committing? && s.calls[l.c].id == p &&
        (s.calls[l.c].added.Some? ==> s.calls[l.c].added.value.id !in s.docs))
    || (l.WriteDelete? && l.c in s.calls && s.calls[l.c].Deleting? && s.calls[l.c].id == p)
  }

  function PolicyToWrite(call: Call): Policy
    requires call.Committing? || call.Deleting?
  {
    if call.Committing? then call.policy else call.snapshot.(deleted := true)
  }

  lemma BaseHasNoDot(docs: Docs<PolicyDoc>, id: string)
    requires WellFormed(docs) && HasPolicy(docs, id)
    ensures DotFree(id)
  {
    assert WellFormedAt(docs, id);
  }

  lemma CommitWrites(s: State, c: nat, valid: Validator, p: string)
    requires Inv(s) && c in s.calls && s.calls[c].Committing? && HasPolicy(s.docs, p)
    ensures var docs' := Apply(s, Commit(c), valid).docs;
            HasPolicy(docs', p) &&
            docs'[p].source ==
            if WritesPolicy(s, Commit(c), p) then PolicyDoc(s.calls[c].policy) else s.docs[p].source
  {
    var call := s.calls[c];
    assert CallOk(s.docs, call) && WellFormedAt(s.docs, p);
    hide ApplyBulk, WellFormed, WellFormedAt, HandedOk, UpdateActions;
    if call.added.None? {
      EditBulk(s.docs, call.id, call.policy);
    } else {
      HasDot(call.id, Decimal(call.added.value.version));
      BaseHasNoDot(s.docs, call.id);
      CommitBulk(s.docs, call.id, call.policy, call.added.value);
    }
  }

  lemma CreateWrites(s: State, l: Label, valid: Validator, p: string)
    requires Inv(s) && Addressed(l) && l.Create? && HasPolicy(s.docs, p)
    ensures HasPolicy(Apply(s, l, valid).docs, p) && Apply(s, l, valid).docs[p] == s.docs[p]
  {
    var s' := Start(s, l.request, l.newId, l.now, valid);
    if s' != s {
      var policy := InitialPolicy(l.request, l.newId, l.now);
      var e := InitialEntity(l.request.entity.value, l.newId, l.now);
      BaseHasNoDot(s.docs, p);
      hide ApplyBulk, WellFormed, HandedOk, CallsOk;
      CreateBulk(s.docs, policy, e);
    }
  }

  lemma BumpWrites(s: State, c: nat, valid: Validator, p: string)
    requires Inv(s) && c in s.calls && s.calls[c].NeedsNumber? && HasPolicy(s.docs, p)
    ensures HasPolicy(Apply(s, Bump(c), valid).docs, p) && Apply(s, Bump(c), valid).docs[p] == s.docs[p]
  {
    HasDot(s.calls[c].id, "counter");
    BaseHasNoDot(s.docs, p);
    hide WellFormed, HandedOk, CallsOk;
  }

  lemma DeleteWrites(s: State, c: nat, valid: Validator, p: string)
    requires HasPolicy(s.docs, p)
    ensures var docs' := Apply(s, WriteDelete(c), valid).docs;
            HasPolicy(docs', p) &&
            docs'[p].source ==
            if WritesPolicy(s, WriteDelete(c), p) then PolicyDoc(s.calls[c].snapshot.(deleted := true))
            else s.docs[p].source
  {
  }

  lemma ReadsChangeNothing(s: State, l: Label, valid: Validator)
    requires !l.Create? && !l.Bump? && !l.Commit? && !l.WriteDelete?
    ensures Apply(s, l, valid).docs == s.docs
  {
    hide Join, FindPolicy, Prepare, ParsePolicyVersionId, PolicyVersionId;
  }

  /** No other step touches the policy's document. */
  lemma PolicyWrittenExactly(s: State, l: Label, valid: Validator, p: string)
    requires Inv(s) && Addressed(l) && HasPolicy(s.docs, p)
    ensures var docs' := Apply(s, l, valid).docs;
            HasPolicy(docs', p) &&
            docs'[p].source ==
            if WritesPolicy(s, l, p) then PolicyDoc(PolicyToWrite(s.calls[l.c])) else s.docs[p].source
  {
    hide Inv;
    match l
    case Create(_, _, _) => CreateWrites(s, l, valid, p);
    case Bump(c) => if c in s.calls && s.calls[c].NeedsNumber? { BumpWrites(s, c, valid, p); }
    case Commit(c) => if c in s.calls && s.calls[c].Committing? { CommitWrites(s, c, valid, p); }
    case WriteDelete(c) => DeleteWrites(s, c, valid, p);
    case _ => ReadsChangeNothing(s, l, valid);
  }

  // ----- deletions -----

  /** The step is the commit of such an update, and its bulk request goes through. */
  predicate Revives(s: State, l: Label, p: string) {
    l.Commit? && WritesPolicy(s, l, p) && HoldsLive(s.calls[l.c], p)
  }

  /** Exactly one kind of step undoes a deletion: the commit of an update that read the policy while it was live. */
  lemma DeletionUndoneExactly(s: State, l: Label, valid: Validator, p: string)
    requires Inv(s) && Addressed(l) && IsDeleted(s.docs, p)
    ensures !IsDeleted(Apply(s, l, valid).docs, p) <==> Revives(s, l, p)
  {
    hide Inv, Apply;
    PolicyWrittenExactly(s, l, valid, p);
  }

  lemma OneCall(calls: map<nat, Call>, calls': map<nat, Call>, c: nat, p: string)
    requires NobodyHolds(calls, p)
    requires calls' == calls - {c} || (c in calls' && calls' == calls[c := calls'[c]] && !HoldsLive(calls'[c], p))
    ensures NobodyHolds(calls', p)
  {
    hide HoldsLive;
    forall d | d in calls' ensures !HoldsLive(calls'[d], p) {
      assert d != c ==> !HoldsLive(calls[d], p);
    }
  }

  /** While a policy is deleted no call can start to hold it live. */
  lemma NobodyStarts(s: State, l: Label, valid: Validator, p: string)
    requires Inv(s) && Addressed(l) && IsDeleted(s.docs, p) && NobodyHolds(s.calls, p)
    ensures NobodyHolds(Apply(s, l, valid).calls, p)
  {
    hide Inv, NobodyHolds;
    match l
    case ReadPolicy(c, request) =>
      hide PolicyVersionId;
      var s' := Apply(s, l, valid);
      if s' != s { OneCall(s.calls, s'.calls, c, p); }
    case ReadVersion(c, now) =>
      if c in s.calls && s.calls[c].GotPolicy? && s.calls[c].request.entity.Some? {
        DecidedIsNotLive(s, c, now, valid, p);
        OneCall(s.calls, Decide(s, c, s.calls[c], now, valid).calls, c, p);
      }
    case Create(_, _, _) => hide Created;
    case Bump(c) =>
      if c in s.calls && s.calls[c].NeedsNumber? {
        assert !HoldsLive(s.calls[c], p) by { NobodyAt(s.calls, c, p); }
        hide Bumped, CounterOf, Numbered, HandOut;
        OneCall(s.calls, Number(s, c, s.calls[c]).calls, c, p);
      }
    case ReadForDelete(c, id) =>
      var s' := Apply(s, l, valid);
      if s' != s { OneCall(s.calls, s'.calls, c, p); }
    case Commit(c) => if c in s.calls { hide ApplyBulk, UpdateActions; OneCall(s.calls, s.calls - {c}, c, p); }
    case WriteDelete(c) => OneCall(s.calls, s.calls - {c}, c, p);
    case Fail(c) => OneCall(s.calls, s.calls - {c}, c, p);
  }

  lemma NobodyAt(calls: map<nat, Call>, c: nat, p: string)
    requires NobodyHolds(calls, p) && c in calls
    ensures !HoldsLive(calls[c], p)
  {
  }

  lemma DecidedIsNotLive(s: State, c: nat, now: Time, valid: Validator, p: string)
    requires NobodyHolds(s.calls, p) && c in s.calls && s.calls[c].GotPolicy? && s.calls[c].request.entity.Some?
    ensures var calls' := Decide(s, c, s.calls[c], now, valid).calls;
            calls' == s.calls - {c} || (c in calls' && calls' == s.calls[c := calls'[c]] && !HoldsLive(calls'[c], p))
  {
    NobodyAt(s.calls, c, p);
    hide NobodyHolds, FindVersion, Accepts;
  }

  /** Under every interleaving, a deletion lasts from the moment at which no update that read the policy while it was
      live is in flight: whatever requests follow, in whatever order, the policy stays deleted. */
  lemma {:induction false} DeletionLasts(labels: seq<Label>, m: nat, p: string, valid: Validator)
    requires AllAddressed(labels) && m <= |labels|
    requires var s := Run(labels[..m], valid); IsDeleted(s.docs, p) && NobodyHolds(s.calls, p)
    ensures var s := Run(labels, valid); IsDeleted(s.docs, p) && NobodyHolds(s.calls, p)
  {
    hide Inv, Apply, IsDeleted, NobodyHolds;
    if m == |labels| {
      assert labels[..m] == labels;
    } else {
      var n := |labels| - 1;
      assert labels[..n][..m] == labels[..m];
      DeletionLasts(labels[..n], m, p, valid);
      Reachable(labels[..n], valid);
      var s, l := Run(labels[..n], valid), labels[n];
      DeletionUndoneExactly(s, l, valid, p);
      NobodyStarts(s, l, valid, p);
      if Revives(s, l, p) {
        NobodyAt(s.calls, l.c, p);
      }
    }
  }
}
