/** What a stored evaluation says: for each assignment of the group OPA's answer to the policy version's content and the
    occurrences of the resource. And that evaluating a group is its steps in the interleaved system. */
module EvaluationOutcomes {
  import opened Wrappers
  import opened Elastic
  import opened Policies
  import opened Assignments
  import opened Opa
  import opened Evaluations
  import opened System

  /** OPA was asked about the content and the occurrences with a module loaded under the key, and answered what the
      child says. */
  ghost predicate Answered(child: PolicyEvaluation, key: string, rego: string, occurrences: seq<Grafeas.Occurrence>,
                           query: Query)
  {
    exists table: map<string, string> ::
      key in table && query(table, rego, occurrences) == Some(Some(OpaResult(child.pass, child.violations)))
  }

  /** That module was the content. */
  ghost predicate AnsweredFor(child: PolicyEvaluation, key: string, rego: string, occurrences: seq<Grafeas.Occurrence>,
                              query: Query)
  {
    exists table: map<string, string> ::
      key in table && table[key] == rego &&
      query(table, rego, occurrences) == Some(Some(OpaResult(child.pass, child.violations)))
  }

  /** One child per assignment, with the version's id, the parent's id and OPA's answer, and the parent passes exactly
      when all of them do. */
  lemma {:induction false} ChildrenAreAnswers(e: Evaluation, table: map<string, string>, policies: Docs<PolicyDoc>,
                                              listed: seq<PolicyAssignment>, occurrences: seq<Grafeas.Occurrence>,
                                              query: Query)
    requires Evaluates(e, table, policies, listed, occurrences, query)
    ensures |e.children| == |listed| && (e.parent.pass <==> forall i | 0 <= i < |listed| :: e.children[i].pass)
    ensures forall i | 0 <= i < |listed| ::
              var child, id := e.children[i], listed[i].policyVersionId;
              var found := FindVersion(policies, id);
              child.policyVersionId == id && child.resourceEvaluationId == e.parent.id &&
              found.Ok? && found.value.Some? &&
              Answered(child, id, found.value.value.regoContent, occurrences, query)
  {
    hide FindVersion, TableAfter;
    forall i | 0 <= i < |listed|
      ensures var child, id := e.children[i], listed[i].policyVersionId;
              var found := FindVersion(policies, id);
              child.policyVersionId == id && child.resourceEvaluationId == e.parent.id &&
              found.Ok? && found.value.Some? &&
              Answered(child, id, found.value.value.regoContent, occurrences, query)
    {
      assert ChildOk(e, i, table, policies, listed, occurrences, query);
      FoundRego(policies, listed[i].policyVersionId);
      LastIsLoaded(table, policies, listed, i);
    }
  }

  lemma FoundRego(policies: Docs<PolicyDoc>, id: string)
    requires IsFound(policies, id)
    ensures FindVersion(policies, id).value.value.regoContent == RegoOf(policies, id)
  {
  }

  lemma {:induction false} LastIsLoaded(table: map<string, string>, policies: Docs<PolicyDoc>,
                                        listed: seq<PolicyAssignment>, i: nat)
    requires i < |listed|
    ensures listed[i].policyVersionId in TableAfter(table, policies, listed, i + 1)
  {
  }

  /** From every state that the interleaved system reaches: each child is OPA's answer about the stored content of its
      assignment's version, asked with exactly that content loaded. */
  lemma {:induction false} StoredAnswers(labels: seq<Label>, valid: Validator, hits: seq<string>, e: Evaluation,
                                         occurrences: seq<Grafeas.Occurrence>, query: Query)
    requires AllAddressed(labels) && forall i | 0 <= i < |hits| :: hits[i] in Run(labels, valid).assignments
    requires var w := Run(labels, valid);
             Evaluates(e, w.opa, w.pol.docs, Listed(w.assignments, hits), occurrences, query)
    ensures |e.children| == |hits|
    ensures var w := Run(labels, valid);
            forall i | 0 <= i < |hits| ::
              var id := w.assignments[hits[i]].source.policyVersionId;
              IsVersion(w.pol.docs, id) &&
              AnsweredFor(e.children[i], id, w.pol.docs[id].source.entity.regoContent, occurrences, query)
  {
    var w := Run(labels, valid);
    var listed := Listed(w.assignments, hits);
    hide Run, TableAfter, FindVersion, Listed, IsVersion;
    forall i | 0 <= i < |hits|
      ensures var id := w.assignments[hits[i]].source.policyVersionId;
              IsVersion(w.pol.docs, id) &&
              AnsweredFor(e.children[i], id, w.pol.docs[id].source.entity.regoContent, occurrences, query)
    {
      assert listed[i] == w.assignments[hits[i]].source by { ListedAt(w.assignments, hits, i); }
      EvaluationAsksAboutStoredContent(labels, valid, hits, i);
      assert ChildOk(e, i, w.opa, w.pol.docs, listed, occurrences, query);
      FoundRego(w.pol.docs, listed[i].policyVersionId);
    }
  }

  lemma ListedAt(assignments: Docs<PolicyAssignment>, hits: seq<string>, i: nat)
    requires i < |hits| && forall j | 0 <= j < |hits| :: hits[j] in assignments
    ensures |Listed(assignments, hits)| == |hits| && Listed(assignments, hits)[i] == assignments[hits[i]].source
  {
  }

  /** The assignments that an evaluation of a group goes through are exactly those to the group, each once. */
  lemma ListingOfGroup(assignments: Docs<PolicyAssignment>, g: string, hits: seq<string>, k: string)
    requires g != "" && IsListing(hits, assignments, a => ListQuery(g, "", a))
    ensures k in hits <==> k in assignments && assignments[k].source.policyGroup == g
    ensures forall i, j | 0 <= i < j < |hits| :: hits[i] != hits[j]
  {
  }

  // ----- a whole evaluation is its steps -----

  /** `n` rounds of fetching a version, loading it and asking about it, and the end. */
  function Rounds(w: World, c: nat, n: nat, valid: Validator): World
    decreases n
  {
    if n == 0 then Apply(w, FetchVersion(c), valid)
    else
      var fetched := Apply(w, FetchVersion(c), valid);
      var loaded := Apply(Apply(fetched, CheckOpa(c), valid), PutOpa(c), valid);
      Rounds(Apply(loaded, AskOpa(c), valid), c, n - 1, valid)
  }

  lemma OneRound(w: World, c: nat, pending: seq<string>, valid: Validator)
    requires c in w.calls && w.calls[c] == Evaluating(pending) && pending != [] && IsFound(w.pol.docs, pending[0])
    ensures var fetched := Apply(w, FetchVersion(c), valid);
            Apply(Apply(Apply(fetched, CheckOpa(c), valid), PutOpa(c), valid), AskOpa(c), valid) ==
            w.(opa := Loaded(w.opa, pending[0], RegoOf(w.pol.docs, pending[0])),
               calls := w.calls[c := Evaluating(pending[1..])])
  {
    var id, rest := pending[0], pending[1..];
    FoundRego(w.pol.docs, id);
    hide FindVersion, RegoOf;
    var rego := RegoOf(w.pol.docs, id);
    var w1 := Become(w, c, Loading(id, rego, rest));
    assert Apply(w, FetchVersion(c), valid) == w1;
    var w2 := Become(w, c, if id in w.opa then Asking(id, rest) else Putting(id, rego, rest));
    assert w1.calls[c := w2.calls[c]] == w2.calls;
    var w3 := Become(w.(opa := Loaded(w.opa, id, rego)), c, Asking(id, rest));
    assert w2.calls[c := w3.calls[c]] == w3.calls;
    assert w3.calls[c := Evaluating(rest)] == w.calls[c := Evaluating(rest)];
    LoadingSteps(w1, c, id, rego, rest, valid);
  }

  lemma LoadingSteps(w: World, c: nat, id: string, rego: string, rest: seq<string>, valid: Validator)
    requires c in w.calls && w.calls[c] == Loading(id, rego, rest)
    ensures Apply(Apply(Apply(w, CheckOpa(c), valid), PutOpa(c), valid), AskOpa(c), valid) ==
            w.(opa := Loaded(w.opa, id, rego), calls := w.calls[c := Evaluating(rest)])
  {
    var w1 := CheckOpaStep(w, c);
    var w2 := PutOpaStep(w1, c);
    assert AskStep(w2, c).calls == w.calls[c := Evaluating(rest)];
    OpaLabels(w, c, valid);
    OpaLabels(w1, c, valid);
    assert Apply(w2, AskOpa(c), valid) == AskStep(w2, c) by { AskLabel(w2, c, valid); }
    hide Apply;
  }

  lemma AskLabel(w: World, c: nat, valid: Validator)
    requires c in w.calls
    ensures Apply(w, AskOpa(c), valid) == AskStep(w, c)
  {
    hide AskStep;
  }

  lemma EvaluationEnds(w: World, c: nat, valid: Validator)
    requires c in w.calls && w.calls[c] == Evaluating([])
    ensures Apply(w, FetchVersion(c), valid) == Finish(w, c)
  {
    hide FindVersion;
  }

  lemma {:induction false} RoundsLoad(w: World, c: nat, table: map<string, string>, listed: seq<PolicyAssignment>,
                                      i: nat, ids: seq<string>, valid: Validator)
    requires i <= |listed| == |ids| && forall j | 0 <= j < |ids| :: ids[j] == listed[j].policyVersionId
    requires c in w.calls && w.calls[c] == Evaluating(ids[i..])
    requires forall j | 0 <= j < |ids| :: IsFound(w.pol.docs, ids[j])
    requires w.opa == TableAfter(table, w.pol.docs, listed, i)
    ensures Rounds(w, c, |ids| - i, valid) ==
            w.(opa := TableAfter(table, w.pol.docs, listed, |listed|), calls := w.calls - {c})
    decreases |ids| - i
  {
    hide IsFound, RegoOf, Apply;
    if i == |ids| {
      assert ids[i..] == [];
      EvaluationEnds(w, c, valid);
    } else {
      assert ids[i..][1..] == ids[i + 1..];
      OneRound(w, c, ids[i..], valid);
      var w' := w.(opa := Loaded(w.opa, ids[i], RegoOf(w.pol.docs, ids[i])),
                   calls := w.calls[c := Evaluating(ids[i + 1..])]);
      RoundsLoad(w', c, table, listed, i + 1, ids, valid);
      assert w'.calls - {c} == w.calls - {c};
    }
  }

  lemma {:induction false} AllFound(w: World, hits: seq<string>)
    requires Inv(w) && forall i | 0 <= i < |hits| :: hits[i] in w.assignments
    ensures forall j | 0 <= j < |hits| :: IsFound(w.pol.docs, VersionsOf(w.assignments, hits)[j])
  {
    var ids := VersionsOf(w.assignments, hits);
    ListedVersions(w, hits);
    forall j | 0 <= j < |hits| ensures IsFound(w.pol.docs, ids[j]) {
      assert IsVersion(w.pol.docs, ids[j]);
      PendingVersionFound(w.pol.docs, ids[j]);
    }
  }

  lemma {:induction false} EvaluationStarts(w: World, c: nat, hits: seq<string>, valid: Validator)
    requires c !in w.calls && forall i | 0 <= i < |hits| :: hits[i] in w.assignments
    ensures Apply(w, StartEvaluation(c, hits), valid) == Become(w, c, Evaluating(VersionsOf(w.assignments, hits)))
  {
    hide VersionsOf;
  }

  /** An evaluation that runs without interruption loads what EvaluateResource loads, and changes nothing else. */
  lemma {:induction false} EvaluationIsItsSteps(w: World, c: nat, hits: seq<string>, valid: Validator)
    requires Inv(w) && c !in w.calls && forall i | 0 <= i < |hits| :: hits[i] in w.assignments
    ensures var listed := Listed(w.assignments, hits);
            Rounds(Apply(w, StartEvaluation(c, hits), valid), c, |hits|, valid) ==
            w.(opa := TableAfter(w.opa, w.pol.docs, listed, |hits|))
  {
    AllFound(w, hits);
    hide Inv, Apply, Rounds, IsFound, RegoOf;
    var listed, ids := Listed(w.assignments, hits), VersionsOf(w.assignments, hits);
    var w1 := Become(w, c, Evaluating(ids));
    assert Apply(w, StartEvaluation(c, hits), valid) == w1 by { EvaluationStarts(w, c, hits, valid); }
    assert ids[0..] == ids;
    assert TableAfter(w.opa, w.pol.docs, listed, 0) == w.opa;
    hide TableAfter, VersionsOf;
    RoundsLoad(w1, c, w.opa, listed, 0, ids, valid);
    assert w1.calls - {c} == w.calls;
  }
}
