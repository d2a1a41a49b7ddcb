/** Requests that create occurrences as they really run: BatchCreateResources and BatchCreateResourceVersions each read
    which ids exist and then write what was absent, without a lock, so any number of requests interleave. */
module IngestSteps {
  import opened Wrappers
  import opened Elastic
  import opened Uris
  import opened Grafeas
  import opened Resources
  import opened Ingest

  /** A request in flight; `found` are the ids that its MultiGet found. */
  datatype Call =
    | Res(b: Batch, found: set<string>)
    | Between(b: Batch)
    | Vers(b: Batch, found: set<string>)

  datatype State = State(docs: Docs<ResourceDoc>, calls: map<nat, Call>)

  /** One request to Elasticsearch, with the local work up to the next one. Any request may fail. */
  datatype Label =
    | ReadRes(c: nat, b: Batch)
    | WriteRes(c: nat)
    | ReadVers(c: nat)
    | WriteVers(c: nat)
    | Fail(c: nat)

  const INITIAL := State(map[], map[])

  function Finish(s: State, c: nat): State {
    s.(calls := s.calls - {c})
  }

  // ----- what a bulk request writes that was made from an earlier read -----

  function Raised(docs: Docs<ResourceDoc>, k: string): nat {
    if k in docs then docs[k].version + 1 else 1
  }

  predicate Shaped(b: Batch) {
    |b.parts| == |b.os| && (b.complete ==> b.parents.Keys == Keys(b.os))
  }

  /** Every resource of the batch that was not found. */
  function ResourcesWritten(docs: Docs<ResourceDoc>, found: set<string>, b: Batch): Docs<ResourceDoc>
    requires Shaped(b)
  {
    map k | k in docs.Keys + (ResourceIds(b.parts) - found) ::
      if k in ResourceIds(b.parts) && k !in found
      then Doc(ResourceDoc(ResourceFor(b.os, b.parts, k)), None, Raised(docs, k)) else docs[k]
  }

  /** The ids of the versions that are sent: those that were not found, or bring names. */
  function Sent(found: set<string>, b: Batch): set<string> {
    set k | k in Merged(b.os) && (k !in found || BringsNames(Merged(b.os)[k]))
  }

  function Completed(found: set<string>, k: string, v: Version, clock: Clock): Version {
    if k !in found && v.created.None? then v.(created := Some(clock(k))) else v
  }

  function VersionsWritten(docs: Docs<ResourceDoc>, found: set<string>, b: Batch): Docs<ResourceDoc>
    requires Shaped(b) && b.complete
  {
    map k | k in docs.Keys + Sent(found, b) ::
      if k in Sent(found, b)
      then Doc(Stored(Completed(found, k, Merged(b.os)[k], b.clock)), Some(b.parents[k]), Raised(docs, k)) else docs[k]
  }

  function FoundOf(docs: Docs<ResourceDoc>, ids: set<string>): set<string> {
    docs.Keys * ids
  }

  // ----- steps -----

  function WriteResStep(s: State, c: nat): State
    requires c in s.calls
  {
    match s.calls[c]
    case Res(b, found) =>
      if Shaped(b) then State(ResourcesWritten(s.docs, found, b), s.calls[c := Between(b)]) else s
    case _ => s
  }

  /** A version's URI that does not parse ends the request after the read. */
  function ReadVersStep(s: State, c: nat): State
    requires c in s.calls
  {
    match s.calls[c]
    case Between(b) =>
      if b.complete then s.(calls := s.calls[c := Vers(b, FoundOf(s.docs, Keys(b.os)))]) else Finish(s, c)
    case _ => s
  }

  function WriteVersStep(s: State, c: nat): State
    requires c in s.calls
  {
    match s.calls[c]
    case Vers(b, found) =>
      if Shaped(b) && b.complete then Finish(s.(docs := VersionsWritten(s.docs, found, b)), c) else s
    case _ => s
  }

  /** A label that is not enabled changes nothing. */
  function Apply(s: State, l: Label): State {
    match l
    case ReadRes(c, b) =>
      if c in s.calls then s else s.(calls := s.calls[c := Res(b, FoundOf(s.docs, ResourceIds(b.parts)))])
    case WriteRes(c) => if c in s.calls then WriteResStep(s, c) else s
    case ReadVers(c) => if c in s.calls then ReadVersStep(s, c) else s
    case WriteVers(c) => if c in s.calls then WriteVersStep(s, c) else s
    case Fail(c) => Finish(s, c)
  }

  function Run(labels: seq<Label>): State
    decreases |labels|
  {
    if labels == [] then INITIAL else Apply(Run(labels[..|labels| - 1]), labels[|labels| - 1])
  }

  /** The batches are those of requests: their parses are possible ones. */
  ghost predicate Addressed(l: Label) {
    l.ReadRes? ==> Legal(l.b)
  }

  ghost predicate AllAddressed(labels: seq<Label>) {
    forall i | 0 <= i < |labels| :: Addressed(labels[i])
  }

  // ----- the bulk requests are those of the resource manager -----

  /** The items that BatchCreateResourceVersions makes from what it has read, sent to a later index. */
  lemma {:induction false} VersionsSentLater(docs: Docs<ResourceDoc>, seen: Docs<ResourceDoc>, ids: seq<string>,
                                             b: Batch)
    requires Legal(b) && b.complete && NoDuplicates(ids) && forall k :: k in ids <==> k in Merged(b.os)
    ensures ApplyBulk(docs, VersionActions(seen, ids, Merged(b.os), b.parents, b.clock))
         == Some(VersionsWritten(docs, FoundOf(seen, Keys(b.os)), b))
  {
    var merged := Merged(b.os);
    var actions := VersionActions(seen, ids, merged, b.parents, b.clock);
    VersionActionsAre(seen, ids, merged, b.parents, b.clock);
    BulkOfDistinct(docs, actions);
    var l, r := ApplyBulk(docs, actions).value, VersionsWritten(docs, FoundOf(seen, Keys(b.os)), b);
    hide ApplyBulk, VersionActions, Overlaid, VersionsWritten, Writes, Rewrites, VersionAction, NoDuplicates, Legal,
      Merged;
    forall k ensures (k in l <==> k in r) && (k in l ==> l[k] == r[k]) {
      VersionSentLater(docs, seen, actions, b, l, k);
    }
    SameMap(l, r);
  }

  lemma VersionSentLater(docs: Docs<ResourceDoc>, seen: Docs<ResourceDoc>, actions: seq<Action<ResourceDoc>>, b: Batch,
                         docs': Docs<ResourceDoc>, k: string)
    requires Shaped(b) && b.complete && Overlaid(docs, actions, docs')
    requires Resources.Writes(actions, k) <==> k in Merged(b.os) && Rewrites(seen, k, Merged(b.os)[k])
    requires forall i | 0 <= i < |actions| :: actions[i].id in Merged(b.os) &&
               actions[i] ==
               VersionAction(seen, actions[i].id, Merged(b.os)[actions[i].id], b.parents[actions[i].id], b.clock)
    ensures var r := VersionsWritten(docs, FoundOf(seen, Keys(b.os)), b);
            (k in docs' <==> k in r) && (k in docs' ==> docs'[k] == r[k])
  {
    hide LastNames, LastCreated;
    if Resources.Writes(actions, k) {
      var i :| 0 <= i < |actions| && actions[i].id == k;
      assert docs'[actions[i].id].source == actions[i].source;
    }
  }

  /** And those that BatchCreateResources makes. */
  lemma {:induction false} ResourcesSentLater(docs: Docs<ResourceDoc>, seen: Docs<ResourceDoc>, ids: seq<string>,
                                              resources: map<string, Resource>, b: Batch)
    requires Shaped(b) && NoDuplicates(ids) && (forall k :: k in ids <==> k in resources)
    requires resources.Keys == ResourceIds(b.parts)
    requires forall k | k in resources :: resources[k] == ResourceFor(b.os, b.parts, k)
    ensures ApplyBulk(docs, ResourceActions(seen, ids, resources))
         == Some(ResourcesWritten(docs, FoundOf(seen, ResourceIds(b.parts)), b))
  {
    var actions := ResourceActions(seen, ids, resources);
    ResourceActionsAre(seen, ids, resources);
    BulkOfDistinct(docs, actions);
    var l, r := ApplyBulk(docs, actions).value, ResourcesWritten(docs, FoundOf(seen, ResourceIds(b.parts)), b);
    hide ApplyBulk, ResourceActions, Overlaid, Writes, ResourceFor, NoDuplicates, ResourceIds;
    forall k ensures (k in l <==> k in r) && (k in l ==> l[k] == r[k]) {
      ResourceSentLater(docs, seen, actions, resources, b, l, k);
    }
    SameMap(l, r);
  }

  lemma ResourceSentLater(docs: Docs<ResourceDoc>, seen: Docs<ResourceDoc>, actions: seq<Action<ResourceDoc>>,
                          resources: map<string, Resource>, b: Batch, docs': Docs<ResourceDoc>, k: string)
    requires Shaped(b) && Overlaid(docs, actions, docs') && resources.Keys == ResourceIds(b.parts)
    requires forall k | k in resources :: resources[k] == ResourceFor(b.os, b.parts, k)
    requires Resources.Writes(actions, k) <==> k in resources && k !in seen
    requires forall i | 0 <= i < |actions| :: actions[i].id in resources &&
               actions[i] == Action(BulkIndex, actions[i].id, ResourceDoc(resources[actions[i].id]), None)
    ensures var r := ResourcesWritten(docs, FoundOf(seen, ResourceIds(b.parts)), b);
            (k in docs' <==> k in r) && (k in docs' ==> docs'[k] == r[k])
  {
    hide ResourceFor, ResourceIds;
    if Resources.Writes(actions, k) {
      var i :| 0 <= i < |actions| && actions[i].id == k;
      assert docs'[actions[i].id].source == actions[i].source;
    }
  }

  // ----- a request is its steps, run without interruption -----

  function RequestSteps(s: State, c: nat, b: Batch): State {
    Apply(Apply(Apply(Apply(s, ReadRes(c, b)), WriteRes(c)), ReadVers(c)), WriteVers(c))
  }

  lemma RequestIsItsSteps(s: State, c: nat, b: Batch)
    requires Legal(b) && c !in s.calls
    ensures RequestSteps(s, c, b) == State(Ingested(s.docs, b), s.calls)
  {
    var found := FoundOf(s.docs, ResourceIds(b.parts));
    var docs1 := ResourcesWritten(s.docs, found, b);
    assert docs1 == WithResources(s.docs, b.os, b.parts) by { ResourcesAtOnce(s.docs, b); }
    assert b.complete ==> VersionsWritten(docs1, FoundOf(docs1, Keys(b.os)), b)
                          == WithVersions(docs1, Merged(b.os), b.parents, b.clock) by {
      if b.complete {
        VersionsAtOnce(docs1, b);
      }
    }
    assert Shaped(b);
    hide ResourcesWritten, VersionsWritten, WithResources, WithVersions, FoundOf, Legal, Shaped, Merged, Keys,
      ResourceIds;
    FourSteps(s, c, b, found);
  }

  lemma FourSteps(s: State, c: nat, b: Batch, found: set<string>)
    requires Shaped(b) && c !in s.calls && found == FoundOf(s.docs, ResourceIds(b.parts))
    ensures var docs1 := ResourcesWritten(s.docs, found, b);
            RequestSteps(s, c, b)
            == State(if b.complete then VersionsWritten(docs1, FoundOf(docs1, Keys(b.os)), b) else docs1, s.calls)
  {
    hide ResourcesWritten, VersionsWritten, FoundOf, Merged, Keys, ResourceIds;
    var docs1, calls := ResourcesWritten(s.docs, found, b), s.calls;
    var s1 := State(s.docs, calls[c := Res(b, found)]);
    var s2 := State(docs1, calls[c := Between(b)]);
    assert Apply(s, ReadRes(c, b)) == s1;
    assert Apply(s1, WriteRes(c)) == s2;
    if b.complete {
      var s3 := State(docs1, calls[c := Vers(b, FoundOf(docs1, Keys(b.os)))]);
      assert Apply(s2, ReadVers(c)) == s3;
      assert s3.calls - {c} == calls;
    } else {
      assert s2.calls - {c} == calls;
    }
  }

  lemma ResourcesAtOnce(docs: Docs<ResourceDoc>, b: Batch)
    requires Shaped(b)
    ensures ResourcesWritten(docs, FoundOf(docs, ResourceIds(b.parts)), b) == WithResources(docs, b.os, b.parts)
  {
    hide ResourceFor;
    assert docs.Keys + (ResourceIds(b.parts) - FoundOf(docs, ResourceIds(b.parts))) == docs.Keys + ResourceIds(b.parts);
  }

  lemma VersionsAtOnce(docs: Docs<ResourceDoc>, b: Batch)
    requires Shaped(b) && b.complete
    ensures VersionsWritten(docs, FoundOf(docs, Keys(b.os)), b) == WithVersions(docs, Merged(b.os), b.parents, b.clock)
  {
    hide LastNames, LastCreated;
    assert docs.Keys + Sent(FoundOf(docs, Keys(b.os)), b) == docs.Keys + Merged(b.os).Keys;
  }

  // ----- what calls in flight hold -----

  ghost predicate CallOk(docs: Docs<ResourceDoc>, call: Call) {
    match call
    case Res(b, found) => Legal(b) && found <= docs.Keys
    case Between(b) => Legal(b) && ResourceIds(b.parts) <= docs.Keys
    case Vers(b, found) =>
      Legal(b) && b.complete && ResourceIds(b.parts) <= docs.Keys && found <= docs.Keys * Keys(b.os)
  }

  ghost predicate Inv(s: State) {
    forall c {:trigger CallOk(s.docs, s.calls[c])} | c in s.calls :: CallOk(s.docs, s.calls[c])
  }

  lemma CallFact(s: State, c: nat)
    requires Inv(s) && c in s.calls
    ensures CallOk(s.docs, s.calls[c]) && Shaped(s.calls[c].b)
  {
    assert CallOk(s.docs, s.calls[c]);
  }

  lemma OneCall(s: State, s': State, c: nat)
    requires Inv(s) && s.docs.Keys <= s'.docs.Keys
    requires s'.calls == s.calls - {c} ||
             (c in s'.calls && s'.calls == s.calls[c := s'.calls[c]] && CallOk(s'.docs, s'.calls[c]))
    ensures Inv(s')
  {
    hide Legal, Keys, ResourceIds;
    forall d | d in s'.calls ensures CallOk(s'.docs, s'.calls[d]) {
      assert d != c ==> CallOk(s.docs, s.calls[d]);
    }
  }

  lemma Step(s: State, l: Label)
    requires Inv(s) && Addressed(l)
    ensures Inv(Apply(s, l)) && s.docs.Keys <= Apply(s, l).docs.Keys
  {
    hide Inv, Legal, Keys, ResourceIds, ResourceFor, Merged;
    if l.c in s.calls {
      CallFact(s, l.c);
    }
    var s' := Apply(s, l);
    if s' != s {
      OneCall(s, s', l.c);
    }
  }

  lemma {:induction false} Reachable(labels: seq<Label>)
    requires AllAddressed(labels)
    ensures Inv(Run(labels))
  {
    hide Apply;
    if labels != [] {
      var n := |labels| - 1;
      Reachable(labels[..n]);
      Step(Run(labels[..n]), labels[n]);
    }
  }

  // ----- which steps change a stored document -----

  /** The step writes the document: the first bulk request of a call that found no such resource, or the second one of a
      call that found no such version or has names for it. */
  predicate Overwrites(s: State, l: Label, k: string) {
    || (l.WriteRes? && l.c in s.calls && s.calls[l.c].Res? &&
        k in ResourceIds(s.calls[l.c].b.parts) && k !in s.calls[l.c].found)
    || (l.WriteVers? && l.c in s.calls && s.calls[l.c].Vers? && k in Sent(s.calls[l.c].found, s.calls[l.c].b))
  }

  /** The two ways of writing it without names. */
  predicate Empties(s: State, l: Label, k: string) {
    || (l.WriteRes? && l.c in s.calls && s.calls[l.c].Res? &&
        k in ResourceIds(s.calls[l.c].b.parts) && k !in s.calls[l.c].found)
    || (l.WriteVers? && l.c in s.calls && s.calls[l.c].Vers? && k in Merged(s.calls[l.c].b.os) &&
        k !in s.calls[l.c].found && !BringsNames(Merged(s.calls[l.c].b.os)[k]))
  }

  /** Under every interleaving: a stored document changes by exactly those steps, and is never lost. */
  lemma StoredChangesExactly(s: State, l: Label, k: string)
    requires Inv(s) && k in s.docs
    ensures var docs' := Apply(s, l).docs;
            k in docs' && (docs'[k] != s.docs[k] <==> Overwrites(s, l, k)) && docs'[k].version >= s.docs[k].version &&
            (Overwrites(s, l, k) ==> docs'[k].version > s.docs[k].version)
  {
    hide Inv, Legal, Keys, ResourceIds, ResourceFor, LastNames, LastCreated;
    if l.c in s.calls {
      CallFact(s, l.c);
    }
  }

  /** And the names of a stored version are lost by exactly those of them that bring none to a version the call found
      absent, or that write a resource of its id. */
  lemma NamesLostExactly(s: State, l: Label, k: string)
    requires Inv(s) && HasNames(s.docs, k)
    ensures !HasNames(Apply(s, l).docs, k) <==> Empties(s, l, k)
  {
    hide Inv, Legal, Keys, ResourceIds, ResourceFor, LastNames, LastCreated;
    if l.c in s.calls {
      CallFact(s, l.c);
    }
  }

  // ----- when names are safe -----

  /** The call will write the document without names, having missed it. */
  predicate Missed(call: Call, k: string) {
    match call
    case Res(b, found) => k in ResourceIds(b.parts) && k !in found
    case Between(_) => false
    case Vers(b, found) => k in Merged(b.os) && k !in found && !BringsNames(Merged(b.os)[k])
  }

  ghost predicate NobodyMissed(calls: map<nat, Call>, k: string) {
    forall c {:trigger Missed(calls[c], k)} | c in calls :: !Missed(calls[c], k)
  }

  lemma NobodyMisses(s: State, l: Label, k: string)
    requires NobodyMissed(s.calls, k) && k in s.docs
    ensures NobodyMissed(Apply(s, l).calls, k)
  {
    hide LastNames, LastCreated, ResourceIds, ResourcesWritten, VersionsWritten, BringsNames;
    var calls' := Apply(s, l).calls;
    forall c | c in calls' ensures !Missed(calls'[c], k) {
      assert c in s.calls && calls'[c] == s.calls[c] ==> !Missed(s.calls[c], k);
    }
  }

  /** Once no request in flight has missed a version with names, it keeps names under every interleaving. */
  lemma {:induction false} NamesStay(labels: seq<Label>, m: nat, k: string)
    requires AllAddressed(labels) && m <= |labels|
    requires HasNames(Run(labels[..m]).docs, k) && NobodyMissed(Run(labels[..m]).calls, k)
    ensures HasNames(Run(labels).docs, k) && NobodyMissed(Run(labels).calls, k)
  {
    hide Apply, Missed, Inv;
    if m == |labels| {
      assert labels[..m] == labels;
    } else {
      var n := |labels| - 1;
      assert labels[..n][..m] == labels[..m];
      NamesStay(labels[..n], m, k);
      Reachable(labels[..n]);
      var s := Run(labels[..n]);
      NamesLostExactly(s, labels[n], k);
      NobodyMisses(s, labels[n], k);
      if Empties(s, labels[n], k) {
        EmptyingHasMissed(s, labels[n], k);
      }
    }
  }

  lemma EmptyingHasMissed(s: State, l: Label, k: string)
    requires Empties(s, l, k)
    ensures !NobodyMissed(s.calls, k)
  {
    assert Missed(s.calls[l.c], k);
  }

  // ----- over whole runs -----

  ghost predicate SomeOverwrites(labels: seq<Label>, m: nat, k: string) {
    exists i | m <= i < |labels| :: Overwrites(Run(labels[..i]), labels[i], k)
  }

  lemma OneMoreLabel(labels: seq<Label>, m: nat, k: string)
    requires m < |labels|
    ensures var n := |labels| - 1;
            SomeOverwrites(labels, m, k) <==>
            SomeOverwrites(labels[..n], m, k) || Overwrites(Run(labels[..n]), labels[n], k)
  {
    hide Run, Overwrites;
    var n := |labels| - 1;
    var init := labels[..n];
    if SomeOverwrites(init, m, k) {
      var i :| m <= i < n && Overwrites(Run(init[..i]), init[i], k);
      assert init[..i] == labels[..i];
    }
    if SomeOverwrites(labels, m, k) {
      var i :| m <= i < |labels| && Overwrites(Run(labels[..i]), labels[i], k);
      if i < n {
        assert init[..i] == labels[..i] && init[i] == labels[i];
      }
    }
  }

  lemma {:induction false} KeepsOrRaises(labels: seq<Label>, m: nat, k: string)
    requires AllAddressed(labels) && m <= |labels| && k in Run(labels[..m]).docs
    ensures k in Run(labels).docs
    ensures var before, after := Run(labels[..m]).docs[k], Run(labels).docs[k];
            if SomeOverwrites(labels, m, k) then after.version > before.version else after == before
  {
    hide Apply, Inv, Overwrites;
    if m == |labels| {
      assert labels[..m] == labels;
    } else {
      var n := |labels| - 1;
      assert labels[..n][..m] == labels[..m];
      KeepsOrRaises(labels[..n], m, k);
      Reachable(labels[..n]);
      StoredChangesExactly(Run(labels[..n]), labels[n], k);
      OneMoreLabel(labels, m, k);
    }
  }

  /** Over any run: a stored document, resource or version, is the same later exactly when no step in between wrote
      it. */
  lemma {:induction false} StoredKeptExactly(labels: seq<Label>, m: nat, k: string)
    requires AllAddressed(labels) && m <= |labels| && k in Run(labels[..m]).docs
    ensures k in Run(labels).docs
    ensures Run(labels).docs[k] == Run(labels[..m]).docs[k] <==>
            forall i | m <= i < |labels| :: !Overwrites(Run(labels[..i]), labels[i], k)
  {
    hide Run;
    KeepsOrRaises(labels, m, k);
  }

  /** No request of the run brings names for the id. */
  ghost predicate Nameless(labels: seq<Label>, k: string) {
    forall i | 0 <= i < |labels| && labels[i].ReadRes? ::
      !(k in Merged(labels[i].b.os) && BringsNames(Merged(labels[i].b.os)[k]))
  }

  predicate NamelessCall(call: Call, k: string) {
    !(k in Merged(call.b.os) && BringsNames(Merged(call.b.os)[k]))
  }

  lemma {:induction false} CallsAreNameless(labels: seq<Label>, k: string)
    requires Nameless(labels, k)
    ensures forall c | c in Run(labels).calls :: NamelessCall(Run(labels).calls[c], k)
  {
    if labels != [] {
      var n := |labels| - 1;
      assert forall i | 0 <= i < n :: labels[..n][i] == labels[i];
      CallsAreNameless(labels[..n], k);
      hide Merged, BringsNames, Run, Apply;
      RunLast(labels);
      NamelessStep(Run(labels[..n]), labels[n], k);
    }
  }

  lemma NamelessStep(s: State, l: Label, k: string)
    requires forall c | c in s.calls :: NamelessCall(s.calls[c], k)
    requires l.ReadRes? ==> !(k in Merged(l.b.os) && BringsNames(Merged(l.b.os)[k]))
    ensures forall c | c in Apply(s, l).calls :: NamelessCall(Apply(s, l).calls[c], k)
  {
    hide Merged, BringsNames, ResourcesWritten, VersionsWritten, Keys, ResourceIds;
    forall c | c in Apply(s, l).calls ensures NamelessCall(Apply(s, l).calls[c], k) {
      assert c in s.calls ==> NamelessCall(s.calls[c], k);
    }
  }

  lemma {:induction false} RunLast(labels: seq<Label>)
    requires labels != []
    ensures Run(labels) == Apply(Run(labels[..|labels| - 1]), labels[|labels| - 1])
  {
    hide Apply;
  }

  /** Once no request in flight has missed a resource, and none brings names for a version of its id, it is never
      rewritten, under every interleaving. */
  lemma {:induction false} ResourcesStay(labels: seq<Label>, m: nat, k: string)
    requires AllAddressed(labels) && m <= |labels| && Nameless(labels, k)
    requires k in Run(labels[..m]).docs && NobodyMissed(Run(labels[..m]).calls, k)
    ensures k in Run(labels).docs && Run(labels).docs[k] == Run(labels[..m]).docs[k]
    ensures NobodyMissed(Run(labels).calls, k)
  {
    if m == |labels| {
      assert labels[..m] == labels;
    } else {
      var n := |labels| - 1;
      assert labels[..n][..m] == labels[..m];
      assert forall i | 0 <= i < n :: labels[..n][i] == labels[i];
      ResourcesStay(labels[..n], m, k);
      RunLast(labels);
      Reachable(labels[..n]);
      CallsAreNameless(labels[..n], k);
      hide Apply, Inv, Merged, BringsNames, Run, Addressed;
      var s := Run(labels[..n]);
      StoredChangesExactly(s, labels[n], k);
      NobodyMisses(s, labels[n], k);
      if Overwrites(s, labels[n], k) {
        OverwritingHasMissed(s, labels[n], k);
      }
    }
  }

  lemma OverwritingHasMissed(s: State, l: Label, k: string)
    requires Overwrites(s, l, k) && NamelessCall(s.calls[l.c], k)
    ensures !NobodyMissed(s.calls, k)
  {
    hide Merged;
    assert Missed(s.calls[l.c], k);
  }

  // ----- creation times and parents -----

  ghost predicate AllDatedRun(labels: seq<Label>) {
    forall i | 0 <= i < |labels| && labels[i].ReadRes? :: AllDated(labels[i].b.os)
  }

  ghost predicate Timely(s: State) {
    AllTimed(s.docs) && forall c | c in s.calls :: AllDated(s.calls[c].b.os)
  }

  lemma TimedWrite(docs: Docs<ResourceDoc>, found: set<string>, b: Batch)
    requires Shaped(b) && b.complete && AllTimed(docs) && AllDated(b.os)
    ensures AllTimed(VersionsWritten(docs, found, b))
  {
    hide LastNames, LastCreated;
    var docs' := VersionsWritten(docs, found, b);
    forall k | k in docs' ensures Timed(docs'[k].source) {
      if k in Sent(found, b) {
        NamesComeWithTime(b.os, k);
      } else {
        assert Timed(docs[k].source);
      }
    }
  }

  lemma TimedResources(docs: Docs<ResourceDoc>, found: set<string>, b: Batch)
    requires Shaped(b) && AllTimed(docs)
    ensures AllTimed(ResourcesWritten(docs, found, b))
  {
    hide ResourceFor;
    var docs' := ResourcesWritten(docs, found, b);
    forall k | k in docs' ensures Timed(docs'[k].source) {
      assert k in docs ==> Timed(docs[k].source);
    }
  }

  lemma TimelyStep(s: State, l: Label)
    requires Timely(s) && (l.ReadRes? ==> AllDated(l.b.os))
    ensures Timely(Apply(s, l))
  {
    hide AllDated, AllTimed, ResourcesWritten, VersionsWritten, Keys, ResourceIds;
    if l.c in s.calls {
      var b := s.calls[l.c].b;
      if s.calls[l.c].Vers? && Shaped(b) && b.complete {
        TimedWrite(s.docs, s.calls[l.c].found, b);
      }
      if s.calls[l.c].Res? && Shaped(b) {
        TimedResources(s.docs, s.calls[l.c].found, b);
      }
    }
  }

  /** When all occurrences carry a creation time, so does every stored version, under every interleaving. */
  lemma {:induction false} VersionsAreTimed(labels: seq<Label>)
    requires AllDatedRun(labels)
    ensures Timely(Run(labels))
  {
    hide Apply, AllDated;
    if labels != [] {
      var n := |labels| - 1;
      assert forall i | 0 <= i < n :: labels[..n][i] == labels[i];
      VersionsAreTimed(labels[..n]);
      TimelyStep(Run(labels[..n]), labels[n]);
    }
  }

  ghost predicate Unambiguous(b: Batch) {
    forall k | k in Keys(b.os) :: !Ambiguous(k)
  }

  ghost predicate UnambiguousRun(labels: seq<Label>) {
    forall i | 0 <= i < |labels| && labels[i].ReadRes? :: Unambiguous(labels[i].b)
  }

  ghost predicate Orderly(s: State) {
    Parented(s.docs) && forall c | c in s.calls :: Unambiguous(s.calls[c].b)
  }

  lemma ParentedWrite(docs: Docs<ResourceDoc>, found: set<string>, b: Batch)
    requires Legal(b) && b.complete && Parented(docs) && Unambiguous(b)
    ensures Parented(VersionsWritten(docs, found, b))
  {
    hide Unparseable, ParseOf, LastNames, LastCreated, PossibleParse, IsParent, Ambiguous, Keys, Parented;
    forall k | k in b.parents ensures !Unparseable(k) && b.parents[k] == ParseOf(k).prefixedName {
      OnlyParent(k, b.parents[k]);
    }
    ParentedVersions(docs, found, b);
  }

  lemma ParentedVersions(docs: Docs<ResourceDoc>, found: set<string>, b: Batch)
    requires Shaped(b) && b.complete && Parented(docs)
    requires forall k | k in b.parents :: !Unparseable(k) && b.parents[k] == ParseOf(k).prefixedName
    ensures Parented(VersionsWritten(docs, found, b))
  {
    hide Unparseable, ParseOf, LastNames, LastCreated, Keys;
  }

  lemma ParentedResources(docs: Docs<ResourceDoc>, found: set<string>, b: Batch)
    requires Shaped(b) && Parented(docs)
    ensures Parented(ResourcesWritten(docs, found, b))
  {
    hide Unparseable, ParseOf, ResourceFor;
  }

  lemma OrderlyStep(s: State, l: Label)
    requires Inv(s) && Orderly(s) && (l.ReadRes? ==> Unambiguous(l.b))
    ensures Orderly(Apply(s, l))
  {
    hide Inv, Legal, Unambiguous, Parented, ResourcesWritten, VersionsWritten, Keys, ResourceIds;
    if l.c in s.calls {
      CallFact(s, l.c);
      var b := s.calls[l.c].b;
      if s.calls[l.c].Vers? {
        ParentedWrite(s.docs, s.calls[l.c].found, b);
      }
      if s.calls[l.c].Res? {
        ParentedResources(s.docs, s.calls[l.c].found, b);
      }
    }
  }

  lemma {:induction false} RunIsOrderly(labels: seq<Label>)
    requires AllAddressed(labels) && UnambiguousRun(labels)
    ensures Orderly(Run(labels))
  {
    hide Apply, Inv, Unambiguous, Addressed;
    if labels != [] {
      var n := |labels| - 1;
      assert forall i | 0 <= i < n :: labels[..n][i] == labels[i];
      RunIsOrderly(labels[..n]);
      Reachable(labels[..n]);
      OrderlyStep(Run(labels[..n]), labels[n]);
    }
  }

  // ----- what a request leaves behind -----

  /** When a request ends, with others in flight: an occurrence's resource is stored exactly when it still was before
      the last write and that write has no version of its id, and its version is found under that resource exactly when
      that write has it or it was a version already. */
  lemma {:induction false} OccurrenceStoredExactly(labels: seq<Label>, c: nat, i: nat)
    requires AllAddressed(labels) && UnambiguousRun(labels)
    requires var calls := Run(labels).calls; c in calls && calls[c].Vers? && i < |calls[c].b.os|
    ensures var docs, docs', call := Run(labels).docs, Run(labels + [WriteVers(c)]).docs, Run(labels).calls[c];
            var uri := call.b.os[i].uri;
            !Unparseable(uri) &&
            var p := ParseOf(uri).prefixedName;
            p in docs &&
            (ResourceStored(docs', uri) <==> docs[p].source.ResourceDoc? && p !in Sent(call.found, call.b)) &&
            (VersionStored(docs', uri) <==>
             uri in Sent(call.found, call.b) || (uri in docs && docs[uri].source.VersionDoc?))
  {
    var s, more := Run(labels), labels + [WriteVers(c)];
    assert more[..|labels|] == labels;
    RunLast(more);
    hide Run, Sent, Unambiguous, Ambiguous, Unparseable, ParseOf;
    Reachable(labels);
    RunIsOrderly(labels);
    OrderlyStep(s, WriteVers(c));
    CallFact(s, c);
    hide Inv, Legal, Shaped, ResourceIds, Keys;
    assert Apply(s, WriteVers(c)).docs == VersionsWritten(s.docs, s.calls[c].found, s.calls[c].b);
    EndOfRequest(s.docs, s.calls[c].found, s.calls[c].b, i);
  }

  lemma EndOfRequest(docs: Docs<ResourceDoc>, found: set<string>, b: Batch, i: nat)
    requires Legal(b) && b.complete && ResourceIds(b.parts) <= docs.Keys && Unambiguous(b) && i < |b.os|
    requires Parented(VersionsWritten(docs, found, b))
    ensures var docs', uri := VersionsWritten(docs, found, b), b.os[i].uri;
            !Unparseable(uri) &&
            var p := ParseOf(uri).prefixedName;
            p in docs &&
            (ResourceStored(docs', uri) <==> docs[p].source.ResourceDoc? && p !in Sent(found, b)) &&
            (VersionStored(docs', uri) <==> uri in Sent(found, b) || (uri in docs && docs[uri].source.VersionDoc?))
  {
    var uri := b.os[i].uri;
    hide Unparseable, ParseOf, Ambiguous, Parented, Sent, VersionStored, Keys, ResourceIds, PossibleParse, IsParent;
    assert uri in Keys(b.os) by { UrisAreKeys(b.os); }
    assert !Unparseable(uri) && ParseOf(uri).prefixedName in ResourceIds(b.parts) by { OccurrenceParses(b, i); }
    hide Unambiguous;
    KindAfterWrite(docs, found, b, uri);
    KindAfterWrite(docs, found, b, ParseOf(uri).prefixedName);
    StoredVersionIsFound(VersionsWritten(docs, found, b), uri);
  }

  /** What kind of document an id has after the second write. */
  lemma KindAfterWrite(docs: Docs<ResourceDoc>, found: set<string>, b: Batch, k: string)
    requires Shaped(b) && b.complete
    ensures var docs' := VersionsWritten(docs, found, b);
            (k in docs' <==> k in docs || k in Sent(found, b)) &&
            (k in docs' ==> (docs'[k].source.VersionDoc? <==> k in Sent(found, b) || docs[k].source.VersionDoc?))
  {
    hide Merged;
  }

  // ----- runs that lose something -----

  /** A run of addressed labels after which the label loses the names stored under the id. */
  ghost predicate Loses(labels: seq<Label>, l: Label, k: string) {
    AllAddressed(labels + [l]) && HasNames(Run(labels).docs, k) && !HasNames(Run(labels + [l]).docs, k)
  }

  /** A run of addressed labels after which the label rewrites a stored resource. */
  ghost predicate RewritesResource(labels: seq<Label>, l: Label, k: string) {
    && AllAddressed(labels + [l]) && k in Run(labels).docs && Run(labels).docs[k].source.ResourceDoc?
    && k in Run(labels + [l]).docs && Run(labels + [l]).docs[k] != Run(labels).docs[k]
  }

  /** The occurrences of the run are dated, and each of its URIs matches one handler. */
  ghost predicate Proper(labels: seq<Label>) {
    forall i | 0 <= i < |labels| :: ProperLabel(labels[i])
  }

  ghost predicate ProperLabel(l: Label) {
    l.ReadRes? ==> Unambiguous(l.b) && AllDated(l.b.os)
  }

  lemma {:induction false} RunMore(labels: seq<Label>, l: Label)
    requires AllAddressed(labels) && Addressed(l)
    ensures Run(labels + [l]) == Apply(Run(labels), l) && AllAddressed(labels + [l])
    ensures Proper(labels) && ProperLabel(l) ==> Proper(labels + [l])
  {
    hide Apply, Addressed, ProperLabel;
    assert (labels + [l])[..|labels|] == labels;
  }

  /** The labels of a whole request, run after others. */
  lemma RunRequest(labels: seq<Label>, c: nat, b: Batch) returns (more: seq<Label>)
    requires AllAddressed(labels) && Legal(b) && c !in Run(labels).calls
    ensures AllAddressed(more) && Run(more) == State(Ingested(Run(labels).docs, b), Run(labels).calls)
    ensures Proper(labels) && ProperLabel(ReadRes(c, b)) ==> Proper(more)
  {
    RequestIsItsSteps(Run(labels), c, b);
    hide Run, Apply, Ingested, Legal, Proper, Unambiguous, AllDated;
    RunMore(labels, ReadRes(c, b));
    var labels1 := labels + [ReadRes(c, b)];
    RunMore(labels1, WriteRes(c));
    var labels2 := labels1 + [WriteRes(c)];
    RunMore(labels2, ReadVers(c));
    var labels3 := labels2 + [ReadVers(c)];
    RunMore(labels3, WriteVers(c));
    more := labels3 + [WriteVers(c)];
  }

  /** Requests that do not overlap are runs of steps: whatever holds of all runs holds of them. */
  lemma {:induction false} WholeRequestsAreRuns(bs: seq<Batch>) returns (labels: seq<Label>)
    requires AllLegal(bs)
    ensures AllAddressed(labels) && Run(labels) == State(Ingest.Run(bs), map[])
    decreases |bs|
  {
    if bs == [] {
      labels := [];
    } else {
      labels := WholeRequestsAreRuns(bs[..|bs| - 1]);
      labels := RunRequest(labels, 0, bs[|bs| - 1]);
    }
  }

  lemma NamesAreStored(docs: Docs<ResourceDoc>, b: Batch, k: string)
    requires Legal(b) && b.complete && k in Merged(b.os) && BringsNames(Merged(b.os)[k])
    ensures HasNames(Ingested(docs, b), k)
  {
    hide LastNames, LastCreated, ResourceFor, PossibleParse, IsParent, Keys;
  }

  lemma {:induction false} LosingFollows(labels: seq<Label>, l: Label, k: string)
    requires AllAddressed(labels) && Addressed(l) && HasNames(Run(labels).docs, k) && Empties(Run(labels), l, k)
    ensures Loses(labels, l, k)
  {
    Reachable(labels);
    RunMore(labels, l);
    hide Run, Apply, Inv, Empties, Addressed;
    NamesLostExactly(Run(labels), l, k);
  }

  /** The first request, up to the read of its versions, from the empty index. */
  lemma UpToTheRead(b: Batch) returns (labels: seq<Label>)
    requires Legal(b) && b.complete
    ensures AllAddressed(labels) && (ProperLabel(ReadRes(1, b)) ==> Proper(labels))
    ensures Run(labels).calls == map[1 := Vers(b, ResourceIds(b.parts) * Keys(b.os))]
  {
    hide Legal, Keys, ResourceIds, ResourceFor, Merged, Unambiguous, AllDated;
    assert Shaped(b) by { LegalIsShaped(b); }
    assert Proper([]);
    hide Proper;
    var l1, l2, l3 := ReadRes(1, b), WriteRes(1), ReadVers(1);
    RunMore([], l1);
    RunMore([] + [l1], l2);
    RunMore([] + [l1] + [l2], l3);
    labels := [] + [l1] + [l2] + [l3];
    hide Run;
    assert Run([]) == INITIAL by { RunNothing(); }
    var docs1 := ResourcesWritten(map[], {}, b);
    assert FoundOf(map[], ResourceIds(b.parts)) == {};
    assert docs1.Keys == ResourceIds(b.parts);
    assert Apply(INITIAL, l1) == State(map[], map[1 := Res(b, {})]);
    assert Apply(State(map[], map[1 := Res(b, {})]), l2) == State(docs1, map[1 := Between(b)]);
  }

  lemma LegalIsShaped(b: Batch)
    requires Legal(b)
    ensures Shaped(b)
  {
  }

  lemma RunNothing()
    ensures Run([]) == INITIAL
  {
  }

  /** For any two requests of which one names a version without names and the other brings names for it, a run from the
      empty index loses them: the first reads the version as absent, the second runs whole, the first writes. */
  lemma LateVersionLoses(b1: Batch, b2: Batch, k: string) returns (labels: seq<Label>)
    requires Legal(b1) && b1.complete && k in Merged(b1.os) && !BringsNames(Merged(b1.os)[k])
    requires k !in ResourceIds(b1.parts)
    requires Legal(b2) && b2.complete && k in Merged(b2.os) && BringsNames(Merged(b2.os)[k])
    ensures Loses(labels, WriteVers(1), k)
    ensures ProperLabel(ReadRes(1, b1)) && ProperLabel(ReadRes(2, b2)) ==> Proper(labels)
  {
    hide Proper, ProperLabel, Run, Apply, Merged, ResourceIds, BringsNames, Legal, Loses, Keys, Ingested, HasNames;
    labels := UpToTheRead(b1);
    NamesAreStored(Run(labels).docs, b2, k);
    labels := RunRequest(labels, 2, b2);
    LosingFollows(labels, WriteVers(1), k);
  }

  /** The first request, up to the read of its resources. */
  lemma UpToTheFirstRead(b: Batch) returns (labels: seq<Label>)
    requires Legal(b)
    ensures AllAddressed(labels) && Run(labels) == State(map[], map[1 := Res(b, {})])
  {
    hide Legal, ResourceIds;
    RunMore([], ReadRes(1, b));
    labels := [] + [ReadRes(1, b)];
    hide Run;
    assert Run([]) == INITIAL by { RunNothing(); }
    assert FoundOf(map[], ResourceIds(b.parts)) == {};
  }

  /** They are also lost when the first has a resource of that id, and reads it as absent. */
  lemma LateResourceLoses(b1: Batch, b2: Batch, k: string) returns (labels: seq<Label>)
    requires Legal(b1) && k in ResourceIds(b1.parts)
    requires Legal(b2) && b2.complete && k in Merged(b2.os) && BringsNames(Merged(b2.os)[k])
    ensures Loses(labels, WriteRes(1), k)
  {
    hide Run, Apply, Merged, ResourceIds, BringsNames, Legal, Loses, Ingested, HasNames;
    labels := UpToTheFirstRead(b1);
    NamesAreStored(map[], b2, k);
    labels := RunRequest(labels, 2, b2);
    LosingFollows(labels, WriteRes(1), k);
  }

  /** And two requests that both read a resource as absent both write it. */
  lemma LateResourceRewrites(b1: Batch, b2: Batch, k: string) returns (labels: seq<Label>)
    requires Legal(b1) && k in ResourceIds(b1.parts)
    requires Legal(b2) && k in ResourceIds(b2.parts)
    requires b2.complete && k in Merged(b2.os) ==> !BringsNames(Merged(b2.os)[k])
    ensures RewritesResource(labels, WriteRes(1), k)
  {
    ResourceIsStored(b2, k);
    hide Run, Apply, Merged, ResourceIds, BringsNames, Legal, Ingested, Inv;
    labels := UpToTheFirstRead(b1);
    labels := RunRequest(labels, 2, b2);
    Reachable(labels);
    RunMore(labels, WriteRes(1));
    StoredChangesExactly(Run(labels), WriteRes(1), k);
  }

  lemma ResourceIsStored(b: Batch, k: string)
    requires Legal(b) && k in ResourceIds(b.parts)
    requires b.complete && k in Merged(b.os) ==> !BringsNames(Merged(b.os)[k])
    ensures k in Ingested(map[], b) && Ingested(map[], b)[k].source.ResourceDoc?
  {
    hide LastNames, LastCreated, ResourceFor, PossibleParse, IsParent, Keys;
  }

  /** Such requests exist: a dated "a@sha256:b" without names, and a build that names it. So names are lost although all
      occurrences are dated and each URI matches one handler. */
  lemma NamesAreLost()
    ensures exists labels, k :: Proper(labels) && Loses(labels, WriteVers(1), k)
  {
    hide Loses, Proper, ProperLabel, Legal, Merged, ResourceIds, BringsNames, PossibleParse, Ambiguous;
    var _, _, w, p := NestedUris();
    var b1, b2 := NamelessAndNamed(w, p, _ => 0);
    var labels := LateVersionLoses(b1, b2, w);
  }

  lemma NamelessAndNamed(w: string, p: UriComponents, clock: Clock) returns (b1: Batch, b2: Batch)
    requires PossibleParse(w, p) && p.prefixedName != w && !Ambiguous(w)
    ensures Legal(b1) && b1.complete && w in Merged(b1.os) && !BringsNames(Merged(b1.os)[w])
    ensures w !in ResourceIds(b1.parts)
    ensures Legal(b2) && b2.complete && w in Merged(b2.os) && BringsNames(Merged(b2.os)[w])
    ensures ProperLabel(ReadRes(1, b1)) && ProperLabel(ReadRes(2, b2))
  {
    var o1, o2 := Occurrence("1", w, Some(0), None), Occurrence("2", w, Some(0), Some([Artifact(w, Some(["n"]))]));
    b1 := Batch([o1], [p], map[w := p.prefixedName], clock, true);
    b2 := Batch([o2], [p], map[w := p.prefixedName], clock, true);
    assert o2.build.value[0].id == w;
    assert IsParent(w, p.prefixedName);
    KeysOfOne(o1);
    KeysOfOne(o2);
    OneOccurrence(b1, o1, p, p.prefixedName);
    OneOccurrence(b2, o2, p, p.prefixedName);
    LastOneMore([o1], 0, w);
    LastOneMore([o2], 0, w);
    assert [o1][..1] == [o1] && [o2][..1] == [o2] && [o1][..0] == [] && [o2][..0] == [];
    hide Legal, Keys, PossibleParse, Ambiguous, IsParent, LastNames, LastCreated;
    assert VersionsUpTo(o2, 1)[w].names == Some(["n"]);
    assert LastNames([o1], w) == None && LastNames([o2], w) == Some(["n"]);
  }
}
