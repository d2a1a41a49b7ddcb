/** The evaluation manager (pkg/evaluation/manager.go): evaluating a resource against the policies assigned to a
    group, storing the result, and reading it back. */
module Evaluations {
  import opened Wrappers
  import opened Text
  import opened PolicyIds
  import opened Elastic
  import opened Policies
  import opened PolicyGroups
  import opened Assignments
  import opened Opa
  import Grafeas
  import Resources
  import System

  datatype Violation = Violation(id: string, message: string, pass: bool)

  datatype OpaResult = OpaResult(pass: bool, violations: seq<Violation>)

  /** What OPA answers to a query for a module's package: a parameter. None is a failed request, Some(None) an answer
      without a result. */
  type Query = (map<string, string>, string, seq<Grafeas.Occurrence>) -> Option<Option<OpaResult>>

  datatype ResourceEvaluation = ResourceEvaluation(
    id: string, pass: bool, source: string, created: Option<Time>, resourceVersion: Resources.ResourceDoc,
    policyGroup: string)

  datatype PolicyEvaluation = PolicyEvaluation(
    id: string, resourceEvaluationId: string, pass: bool, policyVersionId: string, violations: seq<Violation>)

  datatype EvaluationDoc = ParentDoc(evaluation: ResourceEvaluation) | ChildDoc(child: PolicyEvaluation)

  datatype Evaluation = Evaluation(parent: ResourceEvaluation, children: seq<PolicyEvaluation>)

  // ----- what is stored -----

  function ChildAction(parentId: string, child: PolicyEvaluation): Action<EvaluationDoc> {
    Action(BulkCreate, child.id, ChildDoc(child), Some(parentId))
  }

  function EvaluationActions(e: Evaluation): (actions: seq<Action<EvaluationDoc>>)
    ensures |actions| == 1 + |e.children|
    ensures actions[0] == Action(BulkCreate, e.parent.id, ParentDoc(e.parent), None)
    ensures forall i | 0 <= i < |e.children| :: actions[i + 1] == ChildAction(e.parent.id, e.children[i])
  {
    [Action(BulkCreate, e.parent.id, ParentDoc(e.parent), None)] +
    seq(|e.children|, i requires 0 <= i < |e.children| => ChildAction(e.parent.id, e.children[i]))
  }

  // ----- what is computed -----

  /** The OPA table after the first `n` assignments have been loaded. */
  function TableAfter(table: map<string, string>, policies: Docs<PolicyDoc>, listed: seq<PolicyAssignment>, n: nat)
    : map<string, string>
    requires n <= |listed|
  {
    if n == 0 then table
    else
      var id := listed[n - 1].policyVersionId;
      Loaded(TableAfter(table, policies, listed, n - 1), id, RegoOf(policies, id))
  }

  function RegoOf(policies: Docs<PolicyDoc>, id: string): string {
    if id in policies then AsEntity(policies[id].source).regoContent else ""
  }

  /** OPA's answer for the i-th assignment, asked once that assignment's module has been loaded. */
  function Answer(table: map<string, string>, policies: Docs<PolicyDoc>, listed: seq<PolicyAssignment>, i: nat,
                  occurrences: seq<Grafeas.Occurrence>, query: Query)
    : Option<Option<OpaResult>>
    requires i < |listed|
  {
    query(TableAfter(table, policies, listed, i + 1), RegoOf(policies, listed[i].policyVersionId), occurrences)
  }

  /** One child per listed assignment, in order, each with OPA's answer and the parent's id, and the parent passes
      exactly when all of them do. */
  predicate Evaluates(e: Evaluation, table: map<string, string>, policies: Docs<PolicyDoc>,
                      listed: seq<PolicyAssignment>, occurrences: seq<Grafeas.Occurrence>, query: Query)
  {
    && |e.children| == |listed|
    && (forall i | 0 <= i < |listed| :: ChildOk(e, i, table, policies, listed, occurrences, query))
    && (e.parent.pass <==> forall i | 0 <= i < |e.children| :: e.children[i].pass)
  }

  predicate IsFound(policies: Docs<PolicyDoc>, versionId: string) {
    var found := FindVersion(policies, versionId);
    found.Ok? && found.value.Some?
  }

  predicate ChildOk(e: Evaluation, i: nat, table: map<string, string>, policies: Docs<PolicyDoc>,
                    listed: seq<PolicyAssignment>, occurrences: seq<Grafeas.Occurrence>, query: Query)
    requires i < |listed| && i < |e.children|
  {
    var answer := Answer(table, policies, listed, i, occurrences, query);
    IsFound(policies, listed[i].policyVersionId) && answer.Some? && answer.value.Some? &&
    e.children[i].pass == answer.value.value.pass && e.children[i].violations == answer.value.value.violations &&
    e.children[i].policyVersionId == listed[i].policyVersionId && e.children[i].resourceEvaluationId == e.parent.id
  }

  /** The i-th assignment's version is not there, or OPA does not answer about it. */
  predicate Unanswered(table: map<string, string>, policies: Docs<PolicyDoc>, listed: seq<PolicyAssignment>, i: nat,
                       occurrences: seq<Grafeas.Occurrence>, query: Query)
    requires i < |listed|
  {
    var found := FindVersion(policies, listed[i].policyVersionId);
    found.Err? || found.value.None? || Answer(table, policies, listed, i, occurrences, query).None?
  }

  predicate SomeUnanswered(table: map<string, string>, policies: Docs<PolicyDoc>, listed: seq<PolicyAssignment>,
                           occurrences: seq<Grafeas.Occurrence>, query: Query)
  {
    exists i | 0 <= i < |listed| :: Unanswered(table, policies, listed, i, occurrences, query)
  }

  /** OPA answers without a result, which the loop goes on to read. */
  predicate SomeWithoutResult(table: map<string, string>, policies: Docs<PolicyDoc>, listed: seq<PolicyAssignment>,
                              occurrences: seq<Grafeas.Occurrence>, query: Query)
  {
    exists i | 0 <= i < |listed| :: Answer(table, policies, listed, i, occurrences, query) == Some(None)
  }

  /** The new ids are new, and different from each other. */
  predicate NewIds(docs: Docs<EvaluationDoc>, parentId: string, childIds: seq<string>) {
    && parentId !in docs && parentId !in childIds
    && Resources.NoDuplicates(childIds) && forall k | k in childIds :: k !in docs
  }

  /** The queued items: the parent's message first, then one per child. It does not depend on what the parent's
      message says at the moment. */
  ghost predicate Queued(items: seq<BulkItem<EvaluationDoc>>, parent: Ref<EvaluationDoc>, parentId: string,
                         children: seq<PolicyEvaluation>)
    reads Messages(items) - {parent}
  {
    && |items| == 1 + |children| && items[0] == BulkItem(BulkCreate, parentId, parent, None)
    && forall i | 0 <= i < |children| :: QueuedAt(items, parent, parentId, children, i)
  }

  ghost predicate QueuedAt(items: seq<BulkItem<EvaluationDoc>>, parent: Ref<EvaluationDoc>, parentId: string,
                           children: seq<PolicyEvaluation>, i: nat)
    requires |items| == 1 + |children| && i < |children|
    reads Messages(items) - {parent}
  {
    var item := items[i + 1];
    item.message in Messages(items) - {parent} &&
    Action(item.op, item.id, item.message.v, item.parent) == ChildAction(parentId, children[i])
  }

  lemma QueueParent(parent: Ref<EvaluationDoc>, parentId: string)
    ensures Queued([BulkItem(BulkCreate, parentId, parent, None)], parent, parentId, [])
    ensures Messages([BulkItem(BulkCreate, parentId, parent, None)]) == {parent}
  {
    assert [BulkItem(BulkCreate, parentId, parent, None)][0].message == parent;
  }

  lemma QueueOne(items: seq<BulkItem<EvaluationDoc>>, parent: Ref<EvaluationDoc>, parentId: string,
                 children: seq<PolicyEvaluation>, message: Ref<EvaluationDoc>, child: PolicyEvaluation)
    requires Queued(items, parent, parentId, children) && message != parent && message.v == ChildDoc(child)
    ensures var more := items + [BulkItem(BulkCreate, child.id, message, Some(parentId))];
            Queued(more, parent, parentId, children + [child]) && Messages(more) == Messages(items) + {message}
  {
    var item := BulkItem(BulkCreate, child.id, message, Some(parentId));
    OneMoreMessage(items, item);
    var more, all := items + [item], children + [child];
    forall i | 0 <= i < |all| ensures QueuedAt(more, parent, parentId, all, i) {
      if i < |children| {
        assert QueuedAt(items, parent, parentId, children, i);
        assert more[i + 1] == items[i + 1] && all[i] == children[i];
      } else {
        assert more[i + 1] == item && all[i] == child;
      }
    }
  }

  lemma OneMoreMessage(items: seq<BulkItem<EvaluationDoc>>, item: BulkItem<EvaluationDoc>)
    ensures Messages(items + [item]) == Messages(items) + {item.message}
  {
    var more := items + [item];
    forall i | 0 <= i < |more| ensures more[i].message in Messages(items) + {item.message} {
      if i < |items| {
        assert more[i] == items[i];
      }
    }
    forall i | 0 <= i < |items| ensures items[i].message in Messages(more) {
      assert more[i] == items[i];
    }
    assert more[|items|] == item;
  }

  lemma {:induction false} QueuedIsSent(items: seq<BulkItem<EvaluationDoc>>, parent: Ref<EvaluationDoc>, e: Evaluation)
    requires Queued(items, parent, e.parent.id, e.children) && parent.v == ParentDoc(e.parent)
    ensures Marshalled(items) == EvaluationActions(e)
  {
    hide Marshalled, EvaluationActions;
    var sent, actions := Marshalled(items), EvaluationActions(e);
    forall i | 0 <= i < |sent| ensures sent[i] == actions[i] {
      if i > 0 {
        assert actions[i - 1 + 1] == ChildAction(e.parent.id, e.children[i - 1]);
        assert QueuedAt(items, parent, e.parent.id, e.children, i - 1);
      }
    }
  }

  lemma {:induction false} NewCreationsSucceed(docs: Docs<EvaluationDoc>, actions: seq<Action<EvaluationDoc>>)
    requires forall i | 0 <= i < |actions| :: actions[i].op == BulkCreate && actions[i].id !in docs
    requires forall i, j | 0 <= i < j < |actions| :: actions[i].id != actions[j].id
    ensures ApplyBulk(docs, actions).Some?
    decreases |actions|
  {
    if actions != [] {
      var a := actions[0];
      var docs1 := Overwritten(docs, a.id, a.source, a.parent);
      assert forall i | 0 <= i < |actions[1..]| :: actions[1..][i] == actions[i + 1];
      NewCreationsSucceed(docs1, actions[1..]);
    }
  }

  lemma {:induction false} NewIdsAreStored(docs: Docs<EvaluationDoc>, e: Evaluation, childIds: seq<string>)
    requires |childIds| == |e.children| && forall i | 0 <= i < |childIds| :: e.children[i].id == childIds[i]
    ensures NewIds(docs, e.parent.id, childIds) ==> ApplyBulk(docs, EvaluationActions(e)).Some?
  {
    hide ApplyBulk, EvaluationActions;
    var actions := EvaluationActions(e);
    if NewIds(docs, e.parent.id, childIds) {
      forall i | 0 <= i < |actions| ensures actions[i].op == BulkCreate && actions[i].id !in docs {
        assert i > 0 ==> actions[i - 1 + 1] == ChildAction(e.parent.id, e.children[i - 1]);
        assert i > 0 ==> childIds[i - 1] in childIds;
      }
      forall i, j | 0 <= i < j < |actions| ensures actions[i].id != actions[j].id {
        assert actions[j - 1 + 1] == ChildAction(e.parent.id, e.children[j - 1]) && childIds[j - 1] in childIds;
        assert i > 0 ==> actions[i - 1 + 1] == ChildAction(e.parent.id, e.children[i - 1]);
      }
      NewCreationsSucceed(docs, actions);
    }
  }

  class EvaluationManager {
    const policyManager: PolicyManager
    const groupManager: PolicyGroupManager
    const assignmentManager: AssignmentManager
    const resourceManager: Resources.ResourceManager
    const opa: OpaClient
    const evaluations: Index<EvaluationDoc>
    const query: Query

    constructor (policyManager: PolicyManager, groupManager: PolicyGroupManager, assignmentManager: AssignmentManager,
                 resourceManager: Resources.ResourceManager, opa: OpaClient, evaluations: Index<EvaluationDoc>,
                 query: Query)
      ensures this.policyManager == policyManager && this.groupManager == groupManager
      ensures this.assignmentManager == assignmentManager && this.resourceManager == resourceManager
      ensures this.opa == opa && this.evaluations == evaluations && this.query == query
    {
      this.policyManager, this.groupManager, this.assignmentManager := policyManager, groupManager, assignmentManager;
      this.resourceManager, this.opa, this.evaluations, this.query := resourceManager, opa, evaluations, query;
    }

    /** Loads a version's module and asks OPA about it. */
    method EvaluateVersion(policyId: string, rego: string, occurrences: seq<Grafeas.Occurrence>)
      returns (answer: Option<Option<OpaResult>>)
      modifies opa
      ensures answer.Some? ==> opa.table == Loaded(old(opa.table), policyId, rego)
      ensures answer.Some? ==> answer == query(opa.table, rego, occurrences)
      ensures answer.None? ==> opa.failed || query(Loaded(old(opa.table), policyId, rego), rego, occurrences) == None
      ensures opa.failed ==> old(opa.failed) || answer.None?
    {
      var ok := opa.InitializePolicy(policyId, rego);
      if !ok {
        return None;
      }
      answer := query(opa.table, rego, occurrences);
    }

    /** One round of the loop over the assignments, up to OPA's answer. */
    method EvaluateOne(listed: seq<PolicyAssignment>, i: nat, occurrences: seq<Grafeas.Occurrence>,
                       ghost table: map<string, string>)
      returns (r: Result<OpaResult>)
      requires i < |listed| && opa.table == TableAfter(table, policyManager.policies.docs, listed, i)
      modifies opa
      ensures r.Ok? ==>
                opa.table == TableAfter(table, policyManager.policies.docs, listed, i + 1) &&
                IsFound(policyManager.policies.docs, listed[i].policyVersionId) &&
                Answer(table, policyManager.policies.docs, listed, i, occurrences, query) == Some(Some(r.value))
      ensures r.Err? ==>
                (r.code == Panic &&
                 Answer(table, policyManager.policies.docs, listed, i, occurrences, query) == Some(None)) ||
                (r.code == Internal &&
                 (opa.failed || Unanswered(table, policyManager.policies.docs, listed, i, occurrences, query)))
      ensures opa.failed ==> old(opa.failed) || r.Err?
    {
      hide ParsePolicyVersionId;
      var versionId := listed[i].policyVersionId;
      var entity := policyManager.GetPolicyVersion(versionId);
      if entity.Err? || entity.value.None? {
        return Err(Internal);
      }
      var answer := EvaluateVersion(versionId, entity.value.value.regoContent, occurrences);
      match answer {
        case None => r := Err(Internal);
        case Some(None) => r := Err(Panic); // the result is read without a check
        case Some(Some(result)) => r := Ok(result);
      }
    }

    /** The loop over the assignments. The parent's item is queued before it, and its message changed during it. */
    method EvaluateAssignments(parent: Ref<EvaluationDoc>, listed: seq<PolicyAssignment>,
                               occurrences: seq<Grafeas.Occurrence>, childIds: seq<string>)
      returns (r: Result<(seq<BulkItem<EvaluationDoc>>, seq<PolicyEvaluation>)>)
      requires parent.v.ParentDoc? && parent.v.evaluation.pass && |childIds| == |listed|
      modifies opa, parent
      ensures r.Ok? ==>
                parent.v.ParentDoc? &&
                parent.v.evaluation == old(parent.v.evaluation).(pass := parent.v.evaluation.pass) &&
                Evaluates(Evaluation(parent.v.evaluation, r.value.1), old(opa.table), policyManager.policies.docs,
                          listed, occurrences, query) &&
                |r.value.1| == |childIds| && (forall i | 0 <= i < |childIds| :: r.value.1[i].id == childIds[i]) &&
                Queued(r.value.0, parent, parent.v.evaluation.id, r.value.1) &&
                fresh(Messages(r.value.0) - {parent})
      ensures r.Err? ==>
                (r.code == Panic &&
                 SomeWithoutResult(old(opa.table), policyManager.policies.docs, listed, occurrences, query)) ||
                (r.code == Internal &&
                 (opa.failed ||
                  SomeUnanswered(old(opa.table), policyManager.policies.docs, listed, occurrences, query)))
    {
      hide Queued, Evaluates, Answer, TableAfter;
      ghost var docs, table := policyManager.policies.docs, opa.table;
      var id := parent.v.evaluation.id;
      var items := [BulkItem(BulkCreate, id, parent, None)];
      var children: seq<PolicyEvaluation> := [];
      QueueParent(parent, id);
      NoChildren(parent.v.evaluation, table, docs, occurrences, query);
      for i := 0 to |listed|
        invariant |children| == i && parent.v.ParentDoc? && parent.v.evaluation.id == id
        invariant parent.v.evaluation == old(parent.v.evaluation).(pass := parent.v.evaluation.pass)
        invariant policyManager.policies.docs == docs && opa.table == TableAfter(table, docs, listed, i)
        invariant Evaluates(Evaluation(parent.v.evaluation, children), table, docs, listed[..i], occurrences, query)
        invariant forall j | 0 <= j < i :: children[j].id == childIds[j]
        invariant Queued(items, parent, id, children) && fresh(Messages(items) - {parent})
      {
        var answer := EvaluateOne(listed, i, occurrences, table);
        if answer.Err? {
          assert answer.code == Internal ==> opa.failed || Unanswered(table, docs, listed, i, occurrences, query);
          assert answer.code == Panic ==> Answer(table, docs, listed, i, occurrences, query) == Some(None);
          return Err(answer.code);
        }
        ghost var before := parent.v.evaluation;
        if !answer.value.pass {
          parent.v := ParentDoc(parent.v.evaluation.(pass := false));
        }
        var child := PolicyEvaluation(
          childIds[i], id, answer.value.pass, listed[i].policyVersionId, answer.value.violations);
        var message := new Ref(ChildDoc(child));
        assert parent.v.evaluation == before.(pass := before.pass && child.pass);
        OneMoreChild(Evaluation(before, children), child, table, docs, listed, i, occurrences, query);
        QueueOne(items, parent, id, children, message, child);
        items := items + [BulkItem(BulkCreate, child.id, message, Some(id))];
        children := children + [child];
      }
      assert listed[..|listed|] == listed;
      r := Ok((items, children));
    }

    /** `hits` is the answer of the assignment search, `occurrences` that of Grafeas, None when that request failed;
        the new ids come from the UUID generator. The result is stored whole or not at all. */
    method EvaluateResource(uri: string, group: string, source: string, hits: seq<string>,
                            occurrences: Option<seq<Grafeas.Occurrence>>, parentId: string, childIds: seq<string>,
                            now: Time)
      returns (r: Result<Evaluation>)
      requires |childIds| == |hits|
      requires var groups := groupManager.groups.docs;
               group in groups ==>
                 IsListing(hits, assignmentManager.assignments.docs, a => ListQuery(groups[group].source.name, "", a))
      modifies opa, evaluations
      ensures r.Err? ==> evaluations.docs == old(evaluations.docs)
      ensures uri == "" || group == "" ==> r == Err(InvalidArgument)
      ensures uri != "" && group != "" ==>
                var found := Resources.FindResourceVersion(old(resourceManager.resources.docs), uri);
                (found.Err? ==> r == Err(found.code)) &&
                (found.Ok? && group !in groupManager.groups.docs ==> r == Err(NotFound)) &&
                (found.Ok? && group in groupManager.groups.docs && hits == [] ==> r == Err(FailedPrecondition))
      ensures r.Ok? ==>
                uri != "" && group in groupManager.groups.docs && hits != [] && occurrences.Some? &&
                Resources.FindResourceVersion(old(resourceManager.resources.docs), uri)
                == Ok(r.value.parent.resourceVersion) &&
                r.value.parent ==
                ResourceEvaluation(parentId, r.value.parent.pass, source, Some(now), r.value.parent.resourceVersion,
                                   groupManager.groups.docs[group].source.name) &&
                |r.value.children| == |childIds| &&
                (forall i | 0 <= i < |childIds| :: r.value.children[i].id == childIds[i]) &&
                ApplyBulk(old(evaluations.docs), EvaluationActions(r.value)) == Some(evaluations.docs)
      ensures r.Ok? ==>
                Evaluates(r.value, old(opa.table), old(policyManager.policies.docs),
                          Listed(old(assignmentManager.assignments.docs), hits), occurrences.value, query)
      ensures r == Err(Internal) && Resources.FindResourceVersion(old(resourceManager.resources.docs), uri).Ok? ==>
                occurrences.None? || opa.failed || !NewIds(old(evaluations.docs), parentId, childIds) ||
                SomeUnanswered(old(opa.table), old(policyManager.policies.docs),
                               Listed(old(assignmentManager.assignments.docs), hits), occurrences.value, query)
      ensures r == Err(Panic) ==>
                occurrences.Some? &&
                SomeWithoutResult(old(opa.table), old(policyManager.policies.docs),
                                  Listed(old(assignmentManager.assignments.docs), hits), occurrences.value, query)
    {
      hide Evaluates, Queued, EvaluationActions, ApplyBulk, Marshalled, Resources.FindResourceVersion;
      if uri == "" {
        return Err(InvalidArgument);
      }
      if group == "" {
        return Err(InvalidArgument);
      }
      var resourceVersion := resourceManager.GetResourceVersion(uri);
      if resourceVersion.Err? {
        return Err(resourceVersion.code);
      }
      var policyGroup := groupManager.GetPolicyGroup(group);
      if policyGroup.Err? {
        return Err(policyGroup.code);
      }
      var name := policyGroup.value.name;
      var listed := assignmentManager.ListPolicyAssignments(hits, name, "");
      assert listed == Listed(assignmentManager.assignments.docs, hits);
      if |listed| == 0 {
        return Err(FailedPrecondition);
      }
      if occurrences.None? {
        return Err(Internal);
      }
      var parent := new Ref(ParentDoc(
        ResourceEvaluation(parentId, true, source, Some(now), resourceVersion.value, name)));
      var evaluated := EvaluateAssignments(parent, listed, occurrences.value, childIds);
      if evaluated.Err? {
        return Err(evaluated.code);
      }
      var (items, children) := evaluated.value;
      var evaluation := Evaluation(parent.v.evaluation, children);
      QueuedIsSent(items, parent, evaluation);
      NewIdsAreStored(evaluations.docs, evaluation, childIds);
      var ok := evaluations.Bulk(items);
      if !ok {
        return Err(Internal);
      }
      r := Ok(evaluation);
    }

    /** Evaluates the policy or policy version `id` without storing anything. The module is loaded under the policy's
        own id, whichever version was asked for; an answer without a result does not pass. */
    method EvaluatePolicy(uri: string, id: string, occurrences: Option<seq<Grafeas.Occurrence>>)
      returns (r: Result<OpaResult>)
      modifies opa
      ensures uri == "" ==> r == Err(InvalidArgument)
      ensures uri != "" && r.Err? ==> r.code == Internal
      ensures var found := FindJoined(policyManager.policies.docs, id);
              if uri == "" || found.Err? || occurrences.None? then r.Err? && opa.table == old(opa.table)
              else
                var rego := found.value.entity.value.regoContent;
                var loaded := Loaded(old(opa.table), found.value.id, rego);
                (r.Ok? ==>
                   opa.table == loaded && query(loaded, rego, occurrences.value).Some? &&
                   r.value == match query(loaded, rego, occurrences.value).value
                              case None => OpaResult(false, [])
                              case Some(result) => result) &&
                (r.Err? ==> opa.failed || query(loaded, rego, occurrences.value) == None)
    {
      if uri == "" {
        return Err(InvalidArgument);
      }
      var policy := policyManager.GetPolicy(id);
      if policy.Err? || occurrences.None? {
        return Err(Internal);
      }
      var answer := EvaluateVersion(policy.value.id, policy.value.entity.value.regoContent, occurrences.value);
      match answer {
        case None => r := Err(Internal);
        case Some(None) => r := Ok(OpaResult(false, []));
        case Some(Some(result)) => r := Ok(result);
      }
    }

    /** `hits` is the answer of the search for the children. */
    method GetResourceEvaluation(id: string, hits: seq<string>) returns (r: Result<Evaluation>)
      requires ChildListing(hits, evaluations.docs, id)
      ensures r.Err? <==> id !in evaluations.docs
      ensures r.Err? ==> r.code == NotFound
      ensures r.Ok? ==> r.value == Evaluation(AsParent(evaluations.docs[id].source), ChildrenAt(evaluations.docs, hits))
    {
      var found := evaluations.Get(id);
      if found.None? {
        return Err(NotFound);
      }
      var children: seq<PolicyEvaluation> := [];
      assert forall k | k in hits :: k in evaluations.docs;
      for i := 0 to |hits|
        invariant forall k | k in hits[..i] :: k in evaluations.docs
        invariant children == ChildrenAt(evaluations.docs, hits[..i])
      {
        assert hits[i] in hits;
        assert hits[..i + 1] == hits[..i] + [hits[i]];
        children := children + [AsChild(evaluations.docs[hits[i]].source)];
      }
      assert hits[..|hits|] == hits;
      r := Ok(Evaluation(AsParent(found.value), children));
    }
  }

  function Listed(assignments: Docs<PolicyAssignment>, hits: seq<string>): seq<PolicyAssignment>
    requires forall i | 0 <= i < |hits| :: hits[i] in assignments
  {
    seq(|hits|, i requires 0 <= i < |hits| => assignments[hits[i]].source)
  }

  // ----- reading an evaluation back -----

  function AsParent(doc: EvaluationDoc): ResourceEvaluation {
    match doc
    case ParentDoc(e) => e
    case ChildDoc(c) => ResourceEvaluation(c.id, c.pass, "", None, Resources.VersionDoc("", [], None), "")
  }

  function AsChild(doc: EvaluationDoc): PolicyEvaluation {
    match doc
    case ChildDoc(c) => c
    case ParentDoc(e) => PolicyEvaluation(e.id, "", e.pass, "", [])
  }

  predicate IsChildOf(docs: Docs<EvaluationDoc>, k: string, id: string) {
    k in docs && docs[k].parent == Some(id) && id in docs && docs[id].source.ParentDoc?
  }

  /** The search for documents whose parent is the evaluation: each once, in some order. */
  ghost predicate ChildListing(hits: seq<string>, docs: Docs<EvaluationDoc>, id: string) {
    Resources.NoDuplicates(hits) && forall k :: k in hits <==> IsChildOf(docs, k, id)
  }

  function ChildrenAt(docs: Docs<EvaluationDoc>, ids: seq<string>): (children: seq<PolicyEvaluation>)
    requires forall k | k in ids :: k in docs
    ensures |children| == |ids| && forall i | 0 <= i < |ids| :: children[i] == AsChild(docs[ids[i]].source)
  {
    seq(|ids|, i requires 0 <= i < |ids| => AsChild(docs[ids[i]].source))
  }

  /** A document is stored under its own id, and a child belongs to a stored evaluation. */
  predicate ConsistentAt(docs: Docs<EvaluationDoc>, k: string)
    requires k in docs
  {
    match docs[k].source
    case ParentDoc(e) => e.id == k && docs[k].parent == None
    case ChildDoc(c) => c.id == k && IsChildOf(docs, k, c.resourceEvaluationId)
  }

  ghost predicate Consistent(docs: Docs<EvaluationDoc>) {
    forall k {:trigger ConsistentAt(docs, k)} | k in docs :: ConsistentAt(docs, k)
  }

  predicate Creates(actions: seq<Action<EvaluationDoc>>, k: string) {
    exists i :: 0 <= i < |actions| && actions[i].id == k
  }

  predicate StoredAt(docs: Docs<EvaluationDoc>, action: Action<EvaluationDoc>) {
    action.id in docs && docs[action.id] == Doc(action.source, action.parent, 1)
  }

  /** The actions' documents are there under distinct new ids, and nothing else has changed. */
  ghost predicate Added(docs: Docs<EvaluationDoc>, actions: seq<Action<EvaluationDoc>>, docs': Docs<EvaluationDoc>) {
    && (forall i, j | 0 <= i < j < |actions| :: actions[i].id != actions[j].id)
    && (forall i | 0 <= i < |actions| :: actions[i].id !in docs && StoredAt(docs', actions[i]))
    && (forall k | k in docs :: k in docs' && docs'[k] == docs[k])
    && (forall k | k in docs' :: k in docs || Creates(actions, k))
  }

  /** A bulk of creations that succeeds adds its documents. */
  lemma {:induction false} CreationsAdd(docs: Docs<EvaluationDoc>, actions: seq<Action<EvaluationDoc>>)
    requires (forall i | 0 <= i < |actions| :: actions[i].op == BulkCreate) && ApplyBulk(docs, actions).Some?
    ensures Added(docs, actions, ApplyBulk(docs, actions).value)
    decreases |actions|
  {
    if actions != [] {
      var a, rest := actions[0], actions[1..];
      var docs1 := Overwritten(docs, a.id, a.source, a.parent);
      assert forall i | 0 <= i < |rest| :: rest[i] == actions[i + 1];
      CreationsAdd(docs1, rest);
      var docs' := ApplyBulk(docs1, rest).value;
      forall i | 0 < i < |actions|
        ensures actions[i].id != a.id && actions[i].id !in docs && StoredAt(docs', actions[i])
      {
        assert rest[i - 1].id !in docs1;
      }
      forall k | k in docs' ensures k in docs || Creates(actions, k) {
        if k == a.id {
          assert actions[0].id == k;
        } else if Creates(rest, k) {
          var i :| 0 <= i < |rest| && rest[i].id == k;
          assert actions[i + 1].id == k;
        }
      }
    }
  }

  /** Its children carry its id, which Evaluates says of every evaluation that is stored. */
  predicate Linked(e: Evaluation) {
    forall i | 0 <= i < |e.children| :: e.children[i].resourceEvaluationId == e.parent.id
  }

  /** What storing an evaluation leaves in the index: it, and everything that was there. */
  ghost predicate Holds(docs: Docs<EvaluationDoc>, e: Evaluation) {
    && e.parent.id in docs && docs[e.parent.id].source == ParentDoc(e.parent)
    && Resources.NoDuplicates(ChildIds(e))
    && (forall i | 0 <= i < |e.children| ::
          ChildIds(e)[i] in docs && docs[ChildIds(e)[i]].source == ChildDoc(e.children[i]))
    && (forall k :: k in ChildIds(e) <==> IsChildOf(docs, k, e.parent.id))
  }

  function ChildIds(e: Evaluation): (ids: seq<string>)
    ensures |ids| == |e.children| && forall i | 0 <= i < |ids| :: ids[i] == e.children[i].id
  {
    seq(|e.children|, i requires 0 <= i < |e.children| => e.children[i].id)
  }

  lemma {:induction false} StoringHolds(docs: Docs<EvaluationDoc>, e: Evaluation, docs': Docs<EvaluationDoc>)
    requires Consistent(docs) && ApplyBulk(docs, EvaluationActions(e)) == Some(docs')
    requires Linked(e)
    ensures Consistent(docs') && Holds(docs', e)
    ensures e.parent.id !in docs && forall k | k in docs :: k in docs' && docs'[k] == docs[k]
  {
    CreationsAdd(docs, EvaluationActions(e));
    hide ApplyBulk, EvaluationActions, Consistent, ChildIds, IsChildOf, Creates, Resources.NoDuplicates, StoredAt,
      Linked;
    var actions := EvaluationActions(e);
    assert actions[0].id !in docs && forall k | k in docs :: k in docs' && docs'[k] == docs[k];
    hide Added;
    StoringIsConsistent(docs, e, docs', actions);
    ChildrenAreStored(docs, e, docs', actions);
    forall k ensures k in ChildIds(e) <==> IsChildOf(docs', k, e.parent.id) {
      OnlyTheseChildren(docs, e, docs', actions, k);
    }
  }

  lemma ChildrenAreStored(docs: Docs<EvaluationDoc>, e: Evaluation, docs': Docs<EvaluationDoc>,
                          actions: seq<Action<EvaluationDoc>>)
    requires actions == EvaluationActions(e) && Added(docs, actions, docs')
    ensures e.parent.id in docs' && docs'[e.parent.id] == Doc(ParentDoc(e.parent), None, 1)
    ensures Resources.NoDuplicates(ChildIds(e))
    ensures forall i | 0 <= i < |e.children| ::
              ChildIds(e)[i] in docs' && docs'[ChildIds(e)[i]] == Doc(ChildDoc(e.children[i]), Some(e.parent.id), 1)
  {
    hide EvaluationActions, Creates;
    assert StoredAt(docs', actions[0]);
    forall i | 0 <= i < |e.children|
      ensures ChildIds(e)[i] in docs' && docs'[ChildIds(e)[i]] == Doc(ChildDoc(e.children[i]), Some(e.parent.id), 1)
    {
      assert actions[i + 1] == ChildAction(e.parent.id, e.children[i]);
      assert StoredAt(docs', actions[i + 1]);
    }
    forall i, j | 0 <= i < j < |e.children| ensures ChildIds(e)[i] != ChildIds(e)[j] {
      assert actions[i + 1].id != actions[j + 1].id;
    }
  }

  lemma OnlyTheseChildren(docs: Docs<EvaluationDoc>, e: Evaluation, docs': Docs<EvaluationDoc>,
                          actions: seq<Action<EvaluationDoc>>, k: string)
    requires Consistent(docs) && actions == EvaluationActions(e) && Added(docs, actions, docs')
    ensures k in ChildIds(e) <==> IsChildOf(docs', k, e.parent.id)
  {
    hide EvaluationActions;
    ChildrenAreStored(docs, e, docs', actions);
    assert actions[0].id !in docs;
    if k in docs {
      assert ConsistentAt(docs, k);
    } else if k in docs' {
      var i :| 0 <= i < |actions| && actions[i].id == k;
      if i > 0 {
        assert actions[i - 1 + 1] == ChildAction(e.parent.id, e.children[i - 1]);
        assert ChildIds(e)[i - 1] == k;
      }
    }
  }

  lemma StoringIsConsistent(docs: Docs<EvaluationDoc>, e: Evaluation, docs': Docs<EvaluationDoc>,
                            actions: seq<Action<EvaluationDoc>>)
    requires Consistent(docs) && actions == EvaluationActions(e) && Added(docs, actions, docs')
    requires Linked(e)
    ensures Consistent(docs')
  {
    hide EvaluationActions;
    ChildrenAreStored(docs, e, docs', actions);
    forall k | k in docs' ensures ConsistentAt(docs', k) {
      if k in docs {
        assert ConsistentAt(docs, k);
      } else {
        var i :| 0 <= i < |actions| && actions[i].id == k;
        if i > 0 {
          assert actions[i - 1 + 1] == ChildAction(e.parent.id, e.children[i - 1]);
          assert ChildIds(e)[i - 1] == k;
        }
      }
    }
  }

  /** A later evaluation leaves it there. */
  lemma {:induction false} LaterEvaluationKeepsHolding(docs: Docs<EvaluationDoc>, e: Evaluation, later: Evaluation,
                                                       docs': Docs<EvaluationDoc>)
    requires Consistent(docs) && Holds(docs, e) && ApplyBulk(docs, EvaluationActions(later)) == Some(docs')
    requires Linked(later)
    ensures Consistent(docs') && Holds(docs', e)
  {
    hide ApplyBulk, EvaluationActions, ChildIds, Resources.NoDuplicates, Consistent, IsChildOf;
    StoringHolds(docs, later, docs');
    forall k ensures k in ChildIds(e) <==> IsChildOf(docs', k, e.parent.id) {
      OldChildrenStay(docs, later, docs', k, e.parent.id);
    }
  }

  lemma {:induction false} OldChildrenStay(docs: Docs<EvaluationDoc>, later: Evaluation, docs': Docs<EvaluationDoc>,
                                           k: string, id: string)
    requires Consistent(docs) && ApplyBulk(docs, EvaluationActions(later)) == Some(docs')
    requires later.parent.id !in docs && (forall k | k in docs :: k in docs' && docs'[k] == docs[k])
    requires id in docs
    ensures IsChildOf(docs', k, id) <==> IsChildOf(docs, k, id)
  {
    hide ApplyBulk, EvaluationActions, Consistent;
    if IsChildOf(docs', k, id) && k !in docs {
      NewChildOf(docs, later, docs', k, id);
    }
  }

  lemma {:induction false} NewChildOf(docs: Docs<EvaluationDoc>, e: Evaluation, docs': Docs<EvaluationDoc>,
                                      k: string, id: string)
    requires ApplyBulk(docs, EvaluationActions(e)) == Some(docs') && IsChildOf(docs', k, id) && k !in docs
    ensures id == e.parent.id
  {
    var actions := EvaluationActions(e);
    CreationsAdd(docs, actions);
    hide ApplyBulk, EvaluationActions;
    var i :| 0 <= i < |actions| && actions[i].id == k;
    if i > 0 {
      assert actions[i - 1 + 1] == ChildAction(e.parent.id, e.children[i - 1]);
    }
  }

  /** Reading it back gives the same parent and the same children, in whatever order the search returns them. */
  lemma ReadBack(docs: Docs<EvaluationDoc>, e: Evaluation, hits: seq<string>)
    requires Holds(docs, e) && ChildListing(hits, docs, e.parent.id)
    ensures AsParent(docs[e.parent.id].source) == e.parent
    ensures (forall k | k in hits :: k in docs) && multiset(ChildrenAt(docs, hits)) == multiset(e.children)
  {
    var ids := ChildIds(e);
    assert ChildrenAt(docs, ids) == e.children;
    SameChildren(docs, hits, ids);
  }

  lemma {:induction false} SameChildren(docs: Docs<EvaluationDoc>, a: seq<string>, b: seq<string>)
    requires Resources.NoDuplicates(a) && Resources.NoDuplicates(b) && forall k :: k in a <==> k in b
    requires forall k | k in a :: k in docs
    ensures multiset(ChildrenAt(docs, a)) == multiset(ChildrenAt(docs, b))
    decreases |a|
  {
    hide Resources.NoDuplicates, ChildrenAt;
    assert b != [] ==> b[0] in b;
    if a != [] {
      assert a[0] in b;
      var j :| 0 <= j < |b| && b[j] == a[0];
      WithoutOne(a, b, j);
      SameChildren(docs, a[1..], b[..j] + b[j + 1..]);
      SameWithOneMore(docs, a, b, j);
    }
  }

  lemma SameWithOneMore(docs: Docs<EvaluationDoc>, a: seq<string>, b: seq<string>, j: nat)
    requires a != [] && j < |b| && a[0] == b[j] && (forall k | k in a :: k in docs) && forall k | k in b :: k in docs
    requires multiset(ChildrenAt(docs, a[1..])) == multiset(ChildrenAt(docs, b[..j] + b[j + 1..]))
    ensures multiset(ChildrenAt(docs, a)) == multiset(ChildrenAt(docs, b))
  {
    hide AsChild, ChildrenAt;
    ChildrenWithout(docs, b, j);
    ChildrenTail(docs, a);
  }

  lemma ChildrenTail(docs: Docs<EvaluationDoc>, ids: seq<string>)
    requires ids != [] && forall k | k in ids :: k in docs
    ensures multiset(ChildrenAt(docs, ids))
         == multiset(ChildrenAt(docs, ids[1..])) + multiset{AsChild(docs[ids[0]].source)}
  {
    assert ChildrenAt(docs, ids) == [AsChild(docs[ids[0]].source)] + ChildrenAt(docs, ids[1..]);
  }

  lemma ChildrenWithout(docs: Docs<EvaluationDoc>, ids: seq<string>, j: nat)
    requires j < |ids| && forall k | k in ids :: k in docs
    ensures multiset(ChildrenAt(docs, ids))
         == multiset(ChildrenAt(docs, ids[..j] + ids[j + 1..])) + multiset{AsChild(docs[ids[j]].source)}
  {
    var all := ChildrenAt(docs, ids);
    assert all == all[..j] + [all[j]] + all[j + 1..];
    assert ChildrenAt(docs, ids[..j] + ids[j + 1..]) == all[..j] + all[j + 1..];
  }

  lemma WithoutOne(a: seq<string>, b: seq<string>, j: nat)
    requires Resources.NoDuplicates(a) && Resources.NoDuplicates(b) && forall k :: k in a <==> k in b
    requires a != [] && j < |b| && b[j] == a[0]
    ensures var b' := b[..j] + b[j + 1..];
            Resources.NoDuplicates(a[1..]) && Resources.NoDuplicates(b') && forall k :: k in a[1..] <==> k in b'
  {
    var b' := b[..j] + b[j + 1..];
    forall k ensures k in a[1..] <==> k in b' {
      assert k in a <==> k == a[0] || k in a[1..];
      assert k in b <==> k == b[j] || k in b' by {
        assert b == b[..j] + [b[j]] + b[j + 1..];
      }
    }
  }

  /** The index after more evaluations; one whose ids are taken is not stored. */
  function StoreAll(docs: Docs<EvaluationDoc>, es: seq<Evaluation>): Docs<EvaluationDoc>
    decreases |es|
  {
    if es == [] then docs
    else
      var applied := ApplyBulk(docs, EvaluationActions(es[0]));
      StoreAll(if applied.Some? then applied.value else docs, es[1..])
  }

  lemma {:induction false} LaterEvaluationsKeepHolding(docs: Docs<EvaluationDoc>, e: Evaluation, later: seq<Evaluation>)
    requires Consistent(docs) && Holds(docs, e) && forall i | 0 <= i < |later| :: Linked(later[i])
    ensures Consistent(StoreAll(docs, later)) && Holds(StoreAll(docs, later), e)
    decreases |later|
  {
    hide ApplyBulk, EvaluationActions, Consistent, Holds;
    if later != [] {
      var applied := ApplyBulk(docs, EvaluationActions(later[0]));
      assert Linked(later[0]);
      if applied.Some? {
        LaterEvaluationKeepsHolding(docs, e, later[0], applied.value);
      }
      LaterEvaluationsKeepHolding(if applied.Some? then applied.value else docs, e, later[1..]);
    }
  }

  /** The round trip: once EvaluateResource has stored an evaluation, reading it back returns the same parent and the
      same multiset of children, in whatever order the search finds them and whatever is evaluated in between. */
  lemma {:induction false} EvaluationRoundTrip(docs: Docs<EvaluationDoc>, e: Evaluation, docs': Docs<EvaluationDoc>,
                            later: seq<Evaluation>, hits: seq<string>)
    requires Consistent(docs) && ApplyBulk(docs, EvaluationActions(e)) == Some(docs')
    requires Linked(e) && forall i | 0 <= i < |later| :: Linked(later[i])
    requires ChildListing(hits, StoreAll(docs', later), e.parent.id)
    ensures var docs'' := StoreAll(docs', later);
            Consistent(docs'') &&
            e.parent.id in docs'' && AsParent(docs''[e.parent.id].source) == e.parent &&
            (forall k | k in hits :: k in docs'') && multiset(ChildrenAt(docs'', hits)) == multiset(e.children)
  {
    hide ApplyBulk, EvaluationActions, Consistent, ChildListing, StoreAll;
    StoringHolds(docs, e, docs');
    LaterEvaluationsKeepHolding(docs', e, later);
    ReadBack(StoreAll(docs', later), e, hits);
  }

  // ----- what OPA is asked -----

  /** Under every version-id key the table holds that version's content. */
  ghost predicate Current(table: map<string, string>, policies: Docs<PolicyDoc>) {
    forall key | key in table && !DotFree(key) :: table[key] == RegoOf(policies, key)
  }

  lemma {:induction false} LoadingStaysCurrent(table: map<string, string>, policies: Docs<PolicyDoc>,
                                               listed: seq<PolicyAssignment>, n: nat)
    requires n <= |listed| && Current(table, policies)
    ensures Current(TableAfter(table, policies, listed, n), policies)
    ensures n > 0 ==> listed[n - 1].policyVersionId in TableAfter(table, policies, listed, n)
  {
    hide RegoOf;
    if n > 0 {
      LoadingStaysCurrent(table, policies, listed, n - 1);
    }
  }

  /** In every state that the interleaved system reaches, an evaluation finds each listed assignment's version, and
      asks OPA about it with exactly that version's stored content loaded, although no module is ever reloaded. */
  lemma {:induction false} EvaluationAsksAboutStoredContent(labels: seq<System.Label>, valid: Validator,
                                                            hits: seq<string>, i: nat)
    requires System.AllAddressed(labels) && i < |hits|
    requires forall j | 0 <= j < |hits| :: hits[j] in System.Run(labels, valid).assignments
    ensures var w := System.Run(labels, valid);
            var listed := Listed(w.assignments, hits);
            var id := listed[i].policyVersionId;
            System.IsVersion(w.pol.docs, id) && FindVersion(w.pol.docs, id) == Ok(Some(w.pol.docs[id].source.entity)) &&
            id in TableAfter(w.opa, w.pol.docs, listed, i + 1) &&
            TableAfter(w.opa, w.pol.docs, listed, i + 1)[id] == w.pol.docs[id].source.entity.regoContent
  {
    hide System.Run, TableAfter;
    var w := System.Run(labels, valid);
    var id := w.assignments[hits[i]].source.policyVersionId;
    System.Reachable(labels, valid);
    assert System.AssignmentOk(w.pol.docs, w.groups, hits[i], w.assignments[hits[i]].source);
    System.PendingVersionFound(w.pol.docs, id);
    forall key | key in w.opa && !DotFree(key) ensures w.opa[key] == RegoOf(w.pol.docs, key) {
      System.OpaHoldsStoredContent(labels, key, valid);
    }
    LoadingStaysCurrent(w.opa, w.pol.docs, Listed(w.assignments, hits), i + 1);
  }

  // ----- the loop's steps -----

  lemma {:induction false} SamePrefixTable(table: map<string, string>, policies: Docs<PolicyDoc>,
                                           listed: seq<PolicyAssignment>, more: seq<PolicyAssignment>, n: nat)
    requires n <= |listed| && n <= |more| && forall i | 0 <= i < n :: listed[i] == more[i]
    ensures TableAfter(table, policies, listed, n) == TableAfter(table, policies, more, n)
  {
    if n > 0 {
      SamePrefixTable(table, policies, listed, more, n - 1);
    }
  }

  lemma {:induction false} NoChildren(parent: ResourceEvaluation, table: map<string, string>, policies: Docs<PolicyDoc>,
                   occurrences: seq<Grafeas.Occurrence>, query: Query)
    requires parent.pass
    ensures Evaluates(Evaluation(parent, []), table, policies, [], occurrences, query)
    ensures forall listed: seq<PolicyAssignment> :: TableAfter(table, policies, listed, 0) == table
  {
  }

  lemma OneMoreChild(e: Evaluation, child: PolicyEvaluation, table: map<string, string>, policies: Docs<PolicyDoc>,
                     listed: seq<PolicyAssignment>, i: nat, occurrences: seq<Grafeas.Occurrence>, query: Query)
    requires i < |listed| && Evaluates(e, table, policies, listed[..i], occurrences, query)
    requires var answer := Answer(table, policies, listed, i, occurrences, query);
             IsFound(policies, listed[i].policyVersionId) && answer.Some? && answer.value.Some? &&
             child.pass == answer.value.value.pass && child.violations == answer.value.value.violations
    requires child.policyVersionId == listed[i].policyVersionId && child.resourceEvaluationId == e.parent.id
    ensures Evaluates(Evaluation(e.parent.(pass := e.parent.pass && child.pass), e.children + [child]),
                      table, policies, listed[..i + 1], occurrences, query)
  {
    var e' := Evaluation(e.parent.(pass := e.parent.pass && child.pass), e.children + [child]);
    var more := listed[..i + 1];
    forall j | 0 <= j < i + 1 ensures ChildOk(e', j, table, policies, more, occurrences, query) {
      if j < i {
        SamePrefixTable(table, policies, listed[..i], more, j + 1);
        assert ChildOk(e, j, table, policies, listed[..i], occurrences, query);
      } else {
        SamePrefixTable(table, policies, listed, more, j + 1);
      }
    }
    assert forall j | 0 <= j < i :: e'.children[j] == e.children[j];
    assert e'.children[i] == child;
  }
}
