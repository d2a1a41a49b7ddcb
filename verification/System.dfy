/** The whole policy side as one state machine: policies, groups, assignments and the OPA table, with any number of
    calls of every kind in flight. */
module System {
  import opened Wrappers
  import opened Text
  import opened PolicyIds
  import opened Elastic
  import opened Policies
  import PolicyNumbers
  import PolicySteps
  import opened PolicyGroups
  import opened Assignments
  import Opa

  type PolicyState = PolicySteps.State

  datatype Call =
    | EditingGroup(group: PolicyGroup, description: string)
    | DeletingGroup(group: PolicyGroup)
    | Checking(isUpdate: bool, policyId: string, assignment: PolicyAssignment)
    | Storing(isUpdate: bool, policyId: string, assignment: PolicyAssignment)
    | Evaluating(pending: seq<string>)
    | VersionMissing
    | JoiningPolicy(snapshot: Policy, version: uint32)
    | Loading(key: string, rego: string, rest: seq<string>)
    | Putting(key: string, rego: string, rest: seq<string>)
    | Asking(key: string, rest: seq<string>)

  datatype World = World(
    pol: PolicyState, groups: Docs<PolicyGroup>, assignments: Docs<PolicyAssignment>, opa: map<string, string>,
    calls: map<nat, Call>)

  datatype Label =
    | PolicyLabel(l: PolicySteps.Label)
    | CreateGroup(group: PolicyGroup, now: Time)
    | ReadGroup(c: nat, name: string, description: string)
    | ReadGroupForDelete(c: nat, name: string)
    | WriteGroup(c: nat, now: Time)
    | LookUpForCreate(c: nat, assignment: PolicyAssignment)
    | LookUpForUpdate(c: nat, assignment: PolicyAssignment)
    | CheckTargets(c: nat)
    | StoreAssignment(c: nat, now: Time)
    | DeleteAssignment(id: string)
    | StartEvaluation(c: nat, listed: seq<string>)
    | FetchVersion(c: nat)
    | LookUpPolicy(c: nat, id: string)
    | JoinPolicy(c: nat)
    | CheckOpa(c: nat)
    | PutOpa(c: nat)
    | AskOpa(c: nat)
    | Abort(c: nat)

  const INITIAL := World(PolicySteps.INITIAL, map[], map[], map[], map[])

  function Finish(w: World, c: nat): World {
    w.(calls := w.calls - {c})
  }

  function Become(w: World, c: nat, call: Call): World {
    w.(calls := w.calls[c := call])
  }

  /** A call's next step, once it is in flight. */
  function WriteGroupStep(w: World, c: nat, now: Time): (w': World)
    requires c in w.calls
    ensures w' == w.(groups := w'.groups, calls := w'.calls)
  {
    match w.calls[c]
    case EditingGroup(g, description) =>
      Finish(w.(groups := Overwritten(w.groups, g.name, g.(description := description, updated := Some(now)), None)), c)
    case DeletingGroup(g) =>
      Finish(w.(groups := Overwritten(w.groups, g.name, g.(deleted := true), None)), c)
    case _ => w
  }

  function CheckTargetsStep(w: World, c: nat): (w': World)
    requires c in w.calls
    ensures w' == w.(calls := w'.calls)
  {
    match w.calls[c]
    case Checking(isUpdate, policyId, a) =>
      if TargetsOk(w.pol.docs, w.groups, policyId, a) then Become(w, c, Storing(isUpdate, policyId, a))
      else Finish(w, c)
    case _ => w
  }

  function StoreStep(w: World, c: nat, now: Time): (w': World)
    requires c in w.calls
    ensures w' == w.(assignments := w'.assignments, calls := w'.calls)
  {
    match w.calls[c]
    case Storing(true, _, a) =>
      Finish(w.(assignments := Overwritten(w.assignments, a.id, a.(updated := Some(now)), None)), c)
    case Storing(false, policyId, a) =>
      var stored := Stamped(a, policyId, now);
      if stored.id in w.assignments then Finish(w, c)
      else Finish(w.(assignments := Overwritten(w.assignments, stored.id, stored, None)), c)
    case _ => w
  }

  function FetchStep(w: World, c: nat): (w': World)
    requires c in w.calls
    ensures w' == w.(calls := w'.calls)
  {
    match w.calls[c]
    case Evaluating(pending) =>
      if pending == [] then Finish(w, c) else
        (match FindVersion(w.pol.docs, pending[0])
         case Err(_) => Finish(w, c)
         case Ok(None) => Become(w, c, VersionMissing)
         case Ok(Some(e)) => Become(w, c, Loading(pending[0], e.regoContent, pending[1..])))
    case _ => w
  }

  function LookUpPolicyStep(w: World, c: nat, id: string): (w': World)
    ensures w' == w.(calls := w'.calls)
  {
    match ParsePolicyVersionId(id)
    case Err(_) => w
    case Ok((p, v)) =>
      match FindPolicy(w.pol.docs, p)
      case Err(_) => w
      case Ok(policy) => Become(w, c, JoiningPolicy(policy, v))
  }

  /** EvaluatePolicy loads under the policy's own id whatever version it was asked for. */
  function JoinStep(w: World, c: nat): (w': World)
    requires c in w.calls
    ensures w' == w.(calls := w'.calls)
  {
    match w.calls[c]
    case JoiningPolicy(snapshot, version) =>
      (match Join(w.pol.docs, snapshot, WantedVersion(snapshot, version))
       case Err(_) => Finish(w, c)
       case Ok(policy) => Become(w, c, Loading(policy.id, policy.entity.value.regoContent, [])))
    case _ => w
  }

  function CheckOpaStep(w: World, c: nat): (w': World)
    requires c in w.calls
    ensures w' == w.(calls := w'.calls)
  {
    match w.calls[c]
    case Loading(key, rego, rest) => Become(w, c, if key in w.opa then Asking(key, rest) else Putting(key, rego, rest))
    case _ => w
  }

  function PutOpaStep(w: World, c: nat): (w': World)
    requires c in w.calls
    ensures w' == w.(opa := w'.opa, calls := w'.calls) && w.opa.Keys <= w'.opa.Keys
  {
    match w.calls[c]
    case Putting(key, rego, rest) => Become(w.(opa := w.opa[key := rego]), c, Asking(key, rest))
    case _ => w
  }

  /** The query that follows the loading of a module. */
  function AskStep(w: World, c: nat): (w': World)
    requires c in w.calls
    ensures w' == w.(calls := w'.calls)
  {
    match w.calls[c]
    case Asking(_, rest) => Become(w, c, Evaluating(rest))
    case _ => w
  }

  function LookUpAssignment(w: World, c: nat, isUpdate: bool, a: PolicyAssignment): (w': World)
    ensures w' == w.(calls := w'.calls)
  {
    match AssignedTo(a)
    case Err(_) => w
    case Ok(policyId) =>
      match if isUpdate then CheckUpdate(w.assignments, policyId, a) else CheckCreate(w.assignments, policyId, a)
      case Err(_) => w
      case Ok(checked) => Become(w, c, Checking(isUpdate, policyId, checked))
  }

  function ReadGroupStep(w: World, c: nat, name: string, description: Option<string>): (w': World)
    ensures w' == w.(calls := w'.calls)
  {
    match FindGroup(w.groups, name)
    case Err(_) => w
    case Ok(g) =>
      if description.None? then Become(w, c, DeletingGroup(g))
      else if g.deleted then w
      else Become(w, c, EditingGroup(g, description.value))
  }

  function CreateGroupStep(w: World, group: PolicyGroup, now: Time): (w': World)
    ensures w' == w.(groups := w'.groups)
  {
    var (groups, r) := CreatedGroup(w.groups, group, now);
    if r.Ok? then w.(groups := groups) else w
  }

  /** A label that is not enabled changes nothing. */
  function Apply(w: World, l: Label, valid: Validator): World {
    match l
    case PolicyLabel(pl) => w.(pol := PolicySteps.Apply(w.pol, pl, valid))
    case CreateGroup(group, now) => CreateGroupStep(w, group, now)
    case ReadGroup(c, name, description) => if c in w.calls then w else ReadGroupStep(w, c, name, Some(description))
    case ReadGroupForDelete(c, name) => if c in w.calls then w else ReadGroupStep(w, c, name, None)
    case WriteGroup(c, now) => if c in w.calls then WriteGroupStep(w, c, now) else w
    case LookUpForCreate(c, a) => if c in w.calls then w else LookUpAssignment(w, c, false, a)
    case LookUpForUpdate(c, a) => if c in w.calls then w else LookUpAssignment(w, c, true, a)
    case CheckTargets(c) => if c in w.calls then CheckTargetsStep(w, c) else w
    case StoreAssignment(c, now) => if c in w.calls then StoreStep(w, c, now) else w
    case DeleteAssignment(id) => w.(assignments := w.assignments - {id})
    case StartEvaluation(c, listed) =>
      if c in w.calls || exists i | 0 <= i < |listed| :: listed[i] !in w.assignments then w
      else Become(w, c, Evaluating(VersionsOf(w.assignments, listed)))
    case FetchVersion(c) => if c in w.calls then FetchStep(w, c) else w
    case LookUpPolicy(c, id) => if c in w.calls then w else LookUpPolicyStep(w, c, id)
    case JoinPolicy(c) => if c in w.calls then JoinStep(w, c) else w
    case CheckOpa(c) => if c in w.calls then CheckOpaStep(w, c) else w
    case PutOpa(c) => if c in w.calls then PutOpaStep(w, c) else w
    case AskOpa(c) => if c in w.calls then AskStep(w, c) else w
    case Abort(c) => Finish(w, c)
  }

  /** The version ids an evaluation goes through: those of the listed assignments, in order. */
  function VersionsOf(assignments: Docs<PolicyAssignment>, listed: seq<string>): (ids: seq<string>)
    requires forall i | 0 <= i < |listed| :: listed[i] in assignments
    ensures |ids| == |listed|
    ensures forall i | 0 <= i < |listed| :: ids[i] == assignments[listed[i]].source.policyVersionId
  {
    seq(|listed|, i requires 0 <= i < |listed| => assignments[listed[i]].source.policyVersionId)
  }

  function Run(labels: seq<Label>, valid: Validator): World
    decreases |labels|
  {
    if labels == [] then INITIAL
    else Apply(Run(labels[..|labels| - 1], valid), labels[|labels| - 1], valid)
  }

  predicate AllAddressed(labels: seq<Label>) {
    forall i | 0 <= i < |labels| :: Addressed(labels[i])
  }

  predicate Addressed(l: Label) {
    l.PolicyLabel? ==> PolicySteps.Addressed(l.l)
  }

  // ----- the invariant -----

  /** A stored version, by its id. */
  predicate IsVersion(docs: Docs<PolicyDoc>, k: string) {
    k in docs && docs[k].source.VersionDoc?
  }

  /** The documents an assignment names exist. */
  predicate Anchored(docs: Docs<PolicyDoc>, groups: Docs<PolicyGroup>, policyId: string, a: PolicyAssignment) {
    && PolicySteps.HasPolicy(docs, policyId)
    && IsVersion(docs, a.policyVersionId) && docs[a.policyVersionId].source.entity.version >= 1
    && BaseOf(a.policyVersionId) == policyId
    && a.policyGroup in groups
  }

  predicate AssignmentOk(docs: Docs<PolicyDoc>, groups: Docs<PolicyGroup>, k: string, a: PolicyAssignment) {
    var policyId := BaseOf(a.policyVersionId);
    Anchored(docs, groups, policyId, a) && k == a.id == PolicyAssignmentId(policyId, a.policyGroup)
  }

  /** A version-id key holds that version's content, a base-id key that of some version of the policy. */
  ghost predicate OpaAgrees(docs: Docs<PolicyDoc>, key: string, rego: string) {
    if DotFree(key) then IsContentOf(docs, key, rego)
    else IsVersion(docs, key) && docs[key].source.entity.regoContent == rego
  }

  ghost predicate IsContentOf(docs: Docs<PolicyDoc>, p: string, rego: string) {
    exists v: uint32 {:trigger PolicySteps.HasVersion(docs, p, v)} ::
      PolicySteps.HasVersion(docs, p, v) && docs[PolicyVersionId(p, v)].source.entity.regoContent == rego
  }

  predicate AllVersions(docs: Docs<PolicyDoc>, ids: seq<string>) {
    forall i {:trigger ids[i]} | 0 <= i < |ids| :: IsVersion(docs, ids[i])
  }

  ghost predicate CallOk(docs: Docs<PolicyDoc>, groups: Docs<PolicyGroup>, call: Call) {
    match call
    case EditingGroup(g, _) => g.name in groups && ValidGroupName(g.name)
    case DeletingGroup(g) => g.name in groups && ValidGroupName(g.name)
    case Checking(isUpdate, policyId, a) =>
      AssignedTo(a) == Ok(policyId) && (isUpdate ==> a.id == PolicyAssignmentId(policyId, a.policyGroup))
    case Storing(isUpdate, policyId, a) =>
      Anchored(docs, groups, policyId, a) && (isUpdate ==> a.id == PolicyAssignmentId(policyId, a.policyGroup))
    case Evaluating(pending) => AllVersions(docs, pending)
    case VersionMissing => false
    case JoiningPolicy(snapshot, _) => PolicySteps.Storable(docs, snapshot.id, snapshot)
    case Loading(key, rego, rest) => OpaAgrees(docs, key, rego) && AllVersions(docs, rest)
    case Putting(key, rego, rest) => OpaAgrees(docs, key, rego) && AllVersions(docs, rest)
    case Asking(_, rest) => AllVersions(docs, rest)
  }

  ghost predicate Inv(w: World) {
    && PolicySteps.Inv(w.pol)
    && GroupsOk(w.groups)
    && AssignmentsOk(w.pol.docs, w.groups, w.assignments)
    && TableOk(w.pol.docs, w.opa)
    && CallsOk(w.pol.docs, w.groups, w.calls)
  }

  predicate AssignmentsOk(docs: Docs<PolicyDoc>, groups: Docs<PolicyGroup>, assignments: Docs<PolicyAssignment>) {
    forall k {:trigger AssignmentOk(docs, groups, k, assignments[k].source)} | k in assignments ::
      AssignmentOk(docs, groups, k, assignments[k].source)
  }

  ghost predicate TableOk(docs: Docs<PolicyDoc>, opa: map<string, string>) {
    forall key {:trigger OpaAgrees(docs, key, opa[key])} | key in opa :: OpaAgrees(docs, key, opa[key])
  }

  ghost predicate CallsOk(docs: Docs<PolicyDoc>, groups: Docs<PolicyGroup>, calls: map<nat, Call>) {
    forall c {:trigger CallOk(docs, groups, calls[c])} | c in calls :: CallOk(docs, groups, calls[c])
  }

  predicate GroupsGrow(groups: Docs<PolicyGroup>, groups': Docs<PolicyGroup>) {
    forall k | k in groups :: k in groups'
  }

  // ----- facts that survive growth -----

  lemma AgreementSurvives(docs: Docs<PolicyDoc>, docs': Docs<PolicyDoc>, key: string, rego: string)
    requires OpaAgrees(docs, key, rego) && PolicySteps.Grows(docs, docs')
    ensures OpaAgrees(docs', key, rego)
  {
    hide PolicyVersionId;
    if DotFree(key) {
      var v: uint32 :| PolicySteps.HasVersion(docs, key, v) &&
        docs[PolicyVersionId(key, v)].source.entity.regoContent == rego;
      assert PolicySteps.HasVersion(docs', key, v);
    }
  }

  lemma CallSurvives(docs: Docs<PolicyDoc>, docs': Docs<PolicyDoc>, groups: Docs<PolicyGroup>,
                     groups': Docs<PolicyGroup>, call: Call)
    requires CallOk(docs, groups, call) && PolicySteps.Grows(docs, docs') && GroupsGrow(groups, groups')
    ensures CallOk(docs', groups', call)
  {
    hide PolicyVersionId, PolicyAssignmentId, BaseOf, AssignedTo, ValidGroupName, OpaAgrees;
    if call.Loading? || call.Putting? {
      AgreementSurvives(docs, docs', call.key, call.rego);
    }
  }

  /** Growth of policies and groups disturbs nothing that refers to them. */
  lemma ReferencesSurvive(w: World, docs': Docs<PolicyDoc>, groups': Docs<PolicyGroup>)
    requires Inv(w) && PolicySteps.Grows(w.pol.docs, docs') && GroupsGrow(w.groups, groups')
    ensures AssignmentsOk(docs', groups', w.assignments) && TableOk(docs', w.opa) && CallsOk(docs', groups', w.calls)
  {
    hide PolicyVersionId, PolicyAssignmentId, BaseOf, CallOk, PolicySteps.Inv, OpaAgrees;
    forall k | k in w.assignments ensures AssignmentOk(docs', groups', k, w.assignments[k].source) {
      assert AssignmentOk(w.pol.docs, w.groups, k, w.assignments[k].source);
    }
    forall key | key in w.opa ensures OpaAgrees(docs', key, w.opa[key]) {
      AgreementSurvives(w.pol.docs, docs', key, w.opa[key]);
    }
    forall c | c in w.calls ensures CallOk(docs', groups', w.calls[c]) {
      CallSurvives(w.pol.docs, docs', w.groups, groups', w.calls[c]);
    }
  }

  lemma ChangedCall(w: World, w': World, c: nat)
    requires Inv(w) && w'.pol == w.pol && w'.groups == w.groups && w'.assignments == w.assignments && w'.opa == w.opa
    requires w'.calls == w.calls - {c} ||
             (c in w'.calls && w'.calls == w.calls[c := w'.calls[c]] && CallOk(w.pol.docs, w.groups, w'.calls[c]))
    ensures Inv(w')
  {
    hide CallOk, PolicySteps.Inv, AssignmentOk, OpaAgrees, GroupsOk;
    forall d | d in w'.calls ensures CallOk(w'.pol.docs, w'.groups, w'.calls[d]) {
      assert d != c ==> CallOk(w.pol.docs, w.groups, w.calls[d]);
    }
  }

  // ----- every step keeps the invariant -----

  lemma PolicyStep(w: World, pl: PolicySteps.Label, valid: Validator)
    requires Inv(w) && PolicySteps.Addressed(pl)
    ensures var w' := Apply(w, PolicyLabel(pl), valid);
            Inv(w') && PolicySteps.Grows(w.pol.docs, w'.pol.docs)
  {
    hide PolicySteps.Apply, PolicySteps.Inv, PolicySteps.Grows, AssignmentsOk, TableOk, CallsOk;
    PolicySteps.Step(w.pol, pl, valid);
    assert GroupsGrow(w.groups, w.groups);
    ReferencesSurvive(w, PolicySteps.Apply(w.pol, pl, valid).docs, w.groups);
  }

  lemma GroupsWritten(w: World, groups': Docs<PolicyGroup>, c: nat)
    requires Inv(w) && GroupsOk(groups') && GroupsGrow(w.groups, groups')
    ensures Inv(w.(groups := groups')) && Inv(Finish(w.(groups := groups'), c))
  {
    hide PolicySteps.Inv, AssignmentOk, OpaAgrees, CallOk, PolicySteps.Grows;
    NoGrowth(w.pol.docs);
    ReferencesSurvive(w, w.pol.docs, groups');
    ChangedCall(w.(groups := groups'), Finish(w.(groups := groups'), c), c);
  }

  lemma NoGrowth(docs: Docs<PolicyDoc>)
    ensures PolicySteps.Grows(docs, docs)
  {
  }

  lemma GroupStep(w: World, l: Label, valid: Validator)
    requires Inv(w) && (l.CreateGroup? || l.ReadGroup? || l.ReadGroupForDelete? || l.WriteGroup?)
    ensures Inv(Apply(w, l, valid)) && Apply(w, l, valid).pol == w.pol &&
              GroupsGrow(w.groups, Apply(w, l, valid).groups)
  {
    hide PolicySteps.Inv, AssignmentsOk, TableOk, CallsOk;
    var w' := Apply(w, l, valid);
    match l
    case CreateGroup(group, now) =>
      GroupsWritten(w, w'.groups, 0);
    case ReadGroup(c, name, description) =>
      if w' != w { ChangedCall(w, w', c); }
    case ReadGroupForDelete(c, name) =>
      if w' != w { ChangedCall(w, w', c); }
    case WriteGroup(c, now) =>
      if w' != w {
        CallFact(w, c);
        GroupsWritten(w, w'.groups, c);
      }
  }

  lemma CallFact(w: World, c: nat)
    requires Inv(w) && c in w.calls
    ensures CallOk(w.pol.docs, w.groups, w.calls[c])
  {
  }

  // ----- assignments -----

  lemma StoredVersionParses(docs: Docs<PolicyDoc>, k: string)
    requires PolicySteps.WellFormed(docs) && IsVersion(docs, k)
    ensures ParsePolicyVersionId(k) == Ok((BaseOf(k), docs[k].source.entity.version))
    ensures PolicySteps.HasPolicy(docs, BaseOf(k)) && DotFree(BaseOf(k)) && SlashFree(BaseOf(k)) && !DotFree(k)
    ensures k == PolicyVersionId(BaseOf(k), docs[k].source.entity.version)
  {
    assert PolicySteps.WellFormedAt(docs, k);
    assert PolicySteps.WellFormedAt(docs, BaseOf(k));
    ParseUndoesVersionId(BaseOf(k), docs[k].source.entity.version);
  }

  /** The document found under an id that parses to a version other than 0 is a version document. */
  lemma ParsedVersionIsVersion(docs: Docs<PolicyDoc>, k: string, p: string, v: uint32)
    requires PolicySteps.WellFormed(docs) && k in docs && p in docs
    requires ParsePolicyVersionId(k) == Ok((p, v)) && v != 0
    ensures IsVersion(docs, k) && BaseOf(k) == p && docs[k].source.entity.version == v
    ensures PolicySteps.HasPolicy(docs, p)
  {
    assert PolicySteps.WellFormedAt(docs, k);
    match docs[k].source
    case PolicyDoc(_) =>
    case CounterDoc =>
      assert PolicySteps.WellFormedAt(docs, BaseOf(k));
      CounterIdDoesNotParse(BaseOf(k));
    case VersionDoc(_) => StoredVersionParses(docs, k);
  }

  lemma UpdateLookUp(w: World, a: PolicyAssignment, policyId: string)
    requires Inv(w) && AssignedTo(a) == Ok(policyId) && CheckUpdate(w.assignments, policyId, a).Ok?
    ensures a.id == PolicyAssignmentId(policyId, a.policyGroup)
  {
    var current := w.assignments[a.id].source;
    assert AssignmentOk(w.pol.docs, w.groups, a.id, current);
    StoredVersionParses(w.pol.docs, current.policyVersionId);
  }

  lemma LookUpStep(w: World, c: nat, isUpdate: bool, a: PolicyAssignment)
    requires Inv(w) && c !in w.calls
    ensures Inv(LookUpAssignment(w, c, isUpdate, a))
  {
    var w' := LookUpAssignment(w, c, isUpdate, a);
    if w' != w {
      if isUpdate {
        UpdateLookUp(w, a, AssignedTo(a).value);
      }
      hide Inv, ParsePolicyVersionId, PolicyAssignmentId, BaseOf;
      ChangedCall(w, w', c);
    }
  }

  lemma TargetsAnchor(w: World, policyId: string, a: PolicyAssignment)
    requires Inv(w) && AssignedTo(a) == Ok(policyId) && TargetsOk(w.pol.docs, w.groups, policyId, a)
    ensures Anchored(w.pol.docs, w.groups, policyId, a)
  {
    var v := ParsePolicyVersionId(a.policyVersionId).value.1;
    ParsedVersionIsVersion(w.pol.docs, a.policyVersionId, policyId, v);
  }

  lemma CheckStep(w: World, c: nat)
    requires Inv(w) && c in w.calls
    ensures Inv(CheckTargetsStep(w, c))
  {
    CallFact(w, c);
    var w' := CheckTargetsStep(w, c);
    if w.calls[c].Checking? {
      var Checking(isUpdate, policyId, a) := w.calls[c];
      if TargetsOk(w.pol.docs, w.groups, policyId, a) {
        TargetsAnchor(w, policyId, a);
      }
      hide Inv, ParsePolicyVersionId, PolicyAssignmentId, BaseOf;
      ChangedCall(w, w', c);
    }
  }

  lemma AssignmentWritten(w: World, assignments': Docs<PolicyAssignment>, c: nat)
    requires Inv(w) && AssignmentsOk(w.pol.docs, w.groups, assignments')
    ensures Inv(w.(assignments := assignments')) && Inv(Finish(w.(assignments := assignments'), c))
  {
    hide PolicySteps.Inv, AssignmentOk, OpaAgrees, CallOk;
    ChangedCall(w.(assignments := assignments'), Finish(w.(assignments := assignments'), c), c);
  }

  lemma OneMoreAssignment(w: World, a: PolicyAssignment)
    requires Inv(w) && AssignmentOk(w.pol.docs, w.groups, a.id, a)
    ensures AssignmentsOk(w.pol.docs, w.groups, Overwritten(w.assignments, a.id, a, None))
  {
    hide AssignmentOk, PolicySteps.Inv, TableOk, CallsOk, GroupsOk;
    var assignments' := Overwritten(w.assignments, a.id, a, None);
    forall k | k in assignments' ensures AssignmentOk(w.pol.docs, w.groups, k, assignments'[k].source) {
      assert k != a.id ==> AssignmentOk(w.pol.docs, w.groups, k, w.assignments[k].source);
    }
  }

  lemma StoringStep(w: World, c: nat, now: Time)
    requires Inv(w) && c in w.calls
    ensures Inv(StoreStep(w, c, now))
  {
    CallFact(w, c);
    hide Inv, PolicyAssignmentId, BaseOf;
    if w.calls[c].Storing? {
      var Storing(isUpdate, policyId, a) := w.calls[c];
      var stored := if isUpdate then a.(updated := Some(now)) else Stamped(a, policyId, now);
      OneMoreAssignment(w, stored);
      AssignmentWritten(w, Overwritten(w.assignments, stored.id, stored, None), c);
      ChangedCall(w, Finish(w, c), c);
    }
  }

  lemma DeletingStep(w: World, id: string)
    requires Inv(w)
    ensures Inv(w.(assignments := w.assignments - {id}))
  {
    hide AssignmentOk, PolicySteps.Inv, TableOk, CallsOk, GroupsOk;
    var assignments' := w.assignments - {id};
    forall k | k in assignments' ensures AssignmentOk(w.pol.docs, w.groups, k, assignments'[k].source) {
      assert AssignmentOk(w.pol.docs, w.groups, k, w.assignments[k].source);
    }
    AssignmentWritten(w, assignments', 0);
  }

  // ----- evaluation -----

  lemma ListedVersions(w: World, listed: seq<string>)
    requires Inv(w) && forall i | 0 <= i < |listed| :: listed[i] in w.assignments
    ensures AllVersions(w.pol.docs, VersionsOf(w.assignments, listed))
  {
    forall i | 0 <= i < |listed| ensures IsVersion(w.pol.docs, VersionsOf(w.assignments, listed)[i]) {
      assert AssignmentOk(w.pol.docs, w.groups, listed[i], w.assignments[listed[i]].source);
    }
  }

  /** The lookup of a version an evaluation still has to go through finds it. */
  lemma PendingVersionFound(docs: Docs<PolicyDoc>, k: string)
    requires PolicySteps.WellFormed(docs) && IsVersion(docs, k)
    ensures FindVersion(docs, k) == Ok(Some(docs[k].source.entity)) && !DotFree(k)
  {
    StoredVersionParses(docs, k);
  }

  lemma FetchingStep(w: World, c: nat)
    requires Inv(w) && c in w.calls
    ensures Inv(FetchStep(w, c))
  {
    CallFact(w, c);
    if w.calls[c].Evaluating? {
      var pending := w.calls[c].pending;
      if pending != [] {
        assert IsVersion(w.pol.docs, pending[0]);
        PendingVersionFound(w.pol.docs, pending[0]);
        assert AllVersions(w.pol.docs, pending[1..]);
      }
      hide Inv, FindVersion, IsVersion;
      ChangedCall(w, FetchStep(w, c), c);
    }
  }

  lemma PolicyLookUpStep(w: World, c: nat, id: string)
    requires Inv(w) && c !in w.calls
    ensures Inv(LookUpPolicyStep(w, c, id))
  {
    var w' := LookUpPolicyStep(w, c, id);
    if w' != w {
      var p := ParsePolicyVersionId(id).value.0;
      ParsedBaseIsDotFree(id);
      PolicySteps.FoundIsStorable(w.pol.docs, p);
      hide Inv, ParsePolicyVersionId, PolicyVersionId;
      ChangedCall(w, w', c);
    }
  }

  lemma ParsedBaseIsDotFree(id: string)
    requires ParsePolicyVersionId(id).Ok?
    ensures DotFree(ParsePolicyVersionId(id).value.0)
  {
    if !DotFree(id) {
      PiecesOf(id);
    }
  }

  lemma JoiningStep(w: World, c: nat)
    requires Inv(w) && c in w.calls
    ensures Inv(JoinStep(w, c))
  {
    CallFact(w, c);
    if w.calls[c].JoiningPolicy? {
      var JoiningPolicy(snapshot, version) := w.calls[c];
      JoinedContent(w.pol.docs, snapshot, version);
      hide Inv, Join, WantedVersion, IsContentOf;
      ChangedCall(w, JoinStep(w, c), c);
    }
  }

  /** What joining a policy that may be stored gives is the content of one of its versions. */
  lemma JoinedContent(docs: Docs<PolicyDoc>, snapshot: Policy, version: uint32)
    requires PolicySteps.WellFormed(docs) && PolicySteps.Storable(docs, snapshot.id, snapshot)
    ensures DotFree(snapshot.id)
    ensures var joined := Join(docs, snapshot, WantedVersion(snapshot, version));
            joined.Ok? ==>
              joined.value.id == snapshot.id && IsContentOf(docs, snapshot.id, joined.value.entity.value.regoContent)
  {
    var v := if version == 0 then snapshot.currentVersion else version;
    assert PolicySteps.WellFormedAt(docs, snapshot.id);
    hide PolicyVersionId, ParsePolicyVersionId, PolicySteps.WellFormed, PolicySteps.WellFormedAt;
    if Join(docs, snapshot, PolicyVersionId(snapshot.id, v)).Ok? {
      PolicyNumbers.VersionIdHoldsVersion(docs, snapshot.id, v);
      assert PolicySteps.HasVersion(docs, snapshot.id, v);
    }
  }

  lemma OpaStep(w: World, c: nat)
    requires Inv(w) && c in w.calls
    ensures Inv(CheckOpaStep(w, c)) && Inv(PutOpaStep(w, c)) && Inv(AskStep(w, c))
  {
    CallFact(w, c);
    hide PolicySteps.Inv, AssignmentsOk, IsVersion, GroupsOk, OpaAgrees;
    if w.calls[c].Asking? {
      ChangedCall(w, AskStep(w, c), c);
    }
    if w.calls[c].Loading? {
      ChangedCall(w, CheckOpaStep(w, c), c);
    }
    if w.calls[c].Putting? {
      var Putting(key, rego, rest) := w.calls[c];
      var opa' := w.opa[key := rego];
      forall k | k in opa' ensures OpaAgrees(w.pol.docs, k, opa'[k]) {
        assert k != key ==> OpaAgrees(w.pol.docs, k, w.opa[k]);
      }
      ChangedCall(w.(opa := opa'), PutOpaStep(w, c), c);
    }
  }

  lemma Step(w: World, l: Label, valid: Validator)
    requires Inv(w) && Addressed(l)
    ensures var w' := Apply(w, l, valid);
            Inv(w') && PolicySteps.Grows(w.pol.docs, w'.pol.docs) && GroupsGrow(w.groups, w'.groups)
  {
    hide Inv, PolicySteps.Apply;
    NoGrowth(w.pol.docs);
    match l
    case PolicyLabel(pl) => PolicyStep(w, pl, valid);
    case LookUpForCreate(c, a) => if c !in w.calls { LookUpStep(w, c, false, a); }
    case LookUpForUpdate(c, a) => if c !in w.calls { LookUpStep(w, c, true, a); }
    case CheckTargets(c) => if c in w.calls { CheckStep(w, c); }
    case StoreAssignment(c, now) => if c in w.calls { StoringStep(w, c, now); }
    case DeleteAssignment(id) => DeletingStep(w, id);
    case StartEvaluation(c, listed) => StartStep(w, c, listed, valid);
    case FetchVersion(c) => if c in w.calls { FetchingStep(w, c); }
    case LookUpPolicy(c, id) => if c !in w.calls { PolicyLookUpStep(w, c, id); }
    case JoinPolicy(c) => if c in w.calls { JoiningStep(w, c); }
    case CheckOpa(c) => if c in w.calls { OpaStep(w, c); }
    case PutOpa(c) => if c in w.calls { OpaStep(w, c); }
    case AskOpa(c) => if c in w.calls { OpaStep(w, c); }
    case Abort(c) => ChangedCall(w, Finish(w, c), c);
    case _ => GroupStep(w, l, valid);
  }

  lemma StartStep(w: World, c: nat, listed: seq<string>, valid: Validator)
    requires Inv(w)
    ensures Inv(Apply(w, StartEvaluation(c, listed), valid))
  {
    var w' := Apply(w, StartEvaluation(c, listed), valid);
    if w' != w {
      ListedVersions(w, listed);
      hide Inv;
      ChangedCall(w, w', c);
    }
  }

  // ----- main results over all interleavings -----

  lemma {:induction false} Reachable(labels: seq<Label>, valid: Validator)
    requires AllAddressed(labels)
    ensures Inv(Run(labels, valid))
  {
    hide Inv, Apply;
    if labels == [] {
      NothingIsOk();
    } else {
      var n := |labels| - 1;
      Reachable(labels[..n], valid);
      Step(Run(labels[..n], valid), labels[n], valid);
    }
  }

  lemma NothingIsOk()
    ensures Inv(INITIAL)
  {
  }

  lemma {:induction false} RunGrows(labels: seq<Label>, m: nat, valid: Validator)
    requires AllAddressed(labels) && m <= |labels|
    ensures PolicySteps.Grows(Run(labels[..m], valid).pol.docs, Run(labels, valid).pol.docs)
    ensures GroupsGrow(Run(labels[..m], valid).groups, Run(labels, valid).groups)
  {
    hide Inv, Apply, PolicySteps.Grows;
    var n := |labels| - 1;
    if m == |labels| {
      assert labels[..m] == labels;
      NoGrowth(Run(labels, valid).pol.docs);
    } else {
      RunGrows(labels[..n], m, valid);
      assert labels[..n][..m] == labels[..m];
      Reachable(labels[..n], valid);
      var before, after := Run(labels[..n], valid), Run(labels, valid);
      Step(before, labels[n], valid);
      PolicySteps.GrowsTransitive(Run(labels[..m], valid).pol.docs, before.pol.docs, after.pol.docs);
    }
  }

  /** Referential integrity over whole runs: the policy, the version and the group named by an assignment stored at
      any moment are there at every later moment, and the version has its original content. */
  lemma {:induction false} AssignmentsStayAnchored(labels: seq<Label>, m: nat, k: string, valid: Validator)
    requires AllAddressed(labels) && m <= |labels| && k in Run(labels[..m], valid).assignments
    ensures var earlier, later := Run(labels[..m], valid), Run(labels, valid);
            var a := earlier.assignments[k].source;
            Anchored(later.pol.docs, later.groups, BaseOf(a.policyVersionId), a) &&
            IsVersion(earlier.pol.docs, a.policyVersionId) &&
            later.pol.docs[a.policyVersionId].source == earlier.pol.docs[a.policyVersionId].source
  {
    hide Apply;
    assert AllAddressed(labels[..m]);
    Reachable(labels[..m], valid);
    RunGrows(labels, m, valid);
    var earlier := Run(labels[..m], valid);
    assert AssignmentOk(earlier.pol.docs, earlier.groups, k, earlier.assignments[k].source);
  }

  /** An evaluation never meets a missing version, however long ago it listed the assignments. */
  lemma {:induction false} EvaluationFindsVersions(labels: seq<Label>, c: nat, valid: Validator)
    requires AllAddressed(labels) && c in Run(labels, valid).calls
    ensures !Run(labels, valid).calls[c].VersionMissing?
    ensures var w := Run(labels, valid);
            w.calls[c].Evaluating? && w.calls[c].pending != [] ==>
              FindVersion(w.pol.docs, w.calls[c].pending[0]).Ok? &&
              FindVersion(w.pol.docs, w.calls[c].pending[0]).value.Some?
  {
    hide Apply;
    var w := Run(labels, valid);
    Reachable(labels, valid);
    CallFact(w, c);
    if w.calls[c].Evaluating? && w.calls[c].pending != [] {
      assert IsVersion(w.pol.docs, w.calls[c].pending[0]);
      PendingVersionFound(w.pol.docs, w.calls[c].pending[0]);
    }
  }

  /** OPA never disagrees with the store about a version: under every version-id key it holds that version's content,
      although nothing is ever reloaded. */
  lemma {:induction false} OpaHoldsStoredContent(labels: seq<Label>, key: string, valid: Validator)
    requires AllAddressed(labels)
    requires var w := Run(labels, valid); key in w.opa && !DotFree(key)
    ensures var w := Run(labels, valid);
            IsVersion(w.pol.docs, key) && w.opa[key] == w.pol.docs[key].source.entity.regoContent
  {
    hide Apply;
    Reachable(labels, valid);
    var w := Run(labels, valid);
    assert OpaAgrees(w.pol.docs, key, w.opa[key]);
  }

  /** Under a policy's own id OPA holds the content of one of its versions, whichever calls loaded it concurrently. */
  lemma {:induction false} BaseKeyHoldsAVersion(labels: seq<Label>, key: string, valid: Validator)
    requires AllAddressed(labels)
    requires key in Run(labels, valid).opa && DotFree(key)
    ensures var w := Run(labels, valid); IsContentOf(w.pol.docs, key, w.opa[key])
  {
    hide Apply;
    Reachable(labels, valid);
    var w := Run(labels, valid);
    assert OpaAgrees(w.pol.docs, key, w.opa[key]);
  }

  // ----- OPA holds only what was accepted -----

  lemma OthersLeavePolicies(w: World, l: Label, valid: Validator)
    requires !l.PolicyLabel?
    ensures Apply(w, l, valid).pol == w.pol
  {
    hide WriteGroupStep, CheckTargetsStep, StoreStep, FetchStep, LookUpPolicyStep, JoinStep, CheckOpaStep, PutOpaStep,
      AskStep, LookUpAssignment, ReadGroupStep, CreateGroupStep;
  }

  lemma {:induction false} AcceptedThroughout(labels: seq<Label>, valid: Validator)
    requires AllAddressed(labels)
    ensures PolicySteps.AllAccepted(Run(labels, valid).pol, valid)
  {
    if labels == [] {
      NothingIsStored(valid);
    } else {
      var n := |labels| - 1;
      var w, l := Run(labels[..n], valid), labels[n];
      AcceptedThroughout(labels[..n], valid);
      Reachable(labels[..n], valid);
      hide PolicySteps.Inv, PolicySteps.AllAccepted, PolicySteps.Apply, GroupsOk, AssignmentsOk, TableOk, CallsOk;
      if l.PolicyLabel? {
        assert Addressed(l);
        PolicySteps.AcceptedStep(w.pol, l.l, valid);
        assert Apply(w, l, valid).pol == PolicySteps.Apply(w.pol, l.l, valid);
      } else {
        hide Apply;
        OthersLeavePolicies(w, l, valid);
      }
    }
  }

  lemma NothingIsStored(valid: Validator)
    ensures PolicySteps.AllAccepted(INITIAL.pol, valid)
  {
  }

  /** Under every interleaving: OPA only ever holds modules that passed validation. */
  lemma {:induction false} OpaHoldsAcceptedModules(labels: seq<Label>, key: string, valid: Validator)
    requires AllAddressed(labels) && key in Run(labels, valid).opa
    ensures Accepts(valid, Run(labels, valid).opa[key])
  {
    hide Run, Apply, Accepts;
    AcceptedThroughout(labels, valid);
    var w := Run(labels, valid);
    if DotFree(key) {
      BaseKeyHoldsAVersion(labels, key, valid);
      var v: uint32 :| PolicySteps.HasVersion(w.pol.docs, key, v) &&
        w.pol.docs[PolicyVersionId(key, v)].source.entity.regoContent == w.opa[key];
    } else {
      OpaHoldsStoredContent(labels, key, valid);
    }
  }

  // ----- queries -----

  /** A call that queries OPA has its module loaded. */
  ghost predicate AskedIsLoaded(w: World) {
    forall c {:trigger w.calls[c]} | c in w.calls && w.calls[c].Asking? :: w.calls[c].key in w.opa
  }

  lemma AskingStep(w: World, l: Label, valid: Validator)
    requires AskedIsLoaded(w)
    ensures AskedIsLoaded(Apply(w, l, valid)) && w.opa.Keys <= Apply(w, l, valid).opa.Keys
  {
    hide PolicySteps.Apply, CreatedGroup, FindGroup, AssignedTo, CheckUpdate, CheckCreate, TargetsOk, FindVersion,
      FindPolicy, Join, ParsePolicyVersionId, PolicyAssignmentId;
  }

  lemma {:induction false} AskedIsLoadedThroughout(labels: seq<Label>, m: nat, valid: Validator)
    requires m <= |labels|
    ensures AskedIsLoaded(Run(labels, valid)) && Run(labels[..m], valid).opa.Keys <= Run(labels, valid).opa.Keys
  {
    hide AskedIsLoaded, Apply;
    if labels == [] {
      assert AskedIsLoaded(INITIAL) by { NothingIsAsked(); }
    } else {
      var n := |labels| - 1;
      AskedIsLoadedThroughout(labels[..n], if m <= n then m else n, valid);
      AskingStep(Run(labels[..n], valid), labels[n], valid);
      assert m <= n ==> labels[..n][..m] == labels[..m];
      assert m > n ==> labels[..m] == labels;
    }
  }

  lemma NothingIsAsked()
    ensures AskedIsLoaded(INITIAL)
  {
  }

  /** Under every interleaving: whenever a call queries OPA about a version, however long ago it checked that the
      module was there, the version exists and OPA holds exactly its stored content. */
  lemma {:induction false} QueriesSeeStoredContent(labels: seq<Label>, c: nat, valid: Validator)
    requires AllAddressed(labels)
    requires var w := Run(labels, valid); c in w.calls && w.calls[c].Asking?
    ensures var w := Run(labels, valid);
            var key := w.calls[c].key;
            key in w.opa &&
            if DotFree(key) then IsContentOf(w.pol.docs, key, w.opa[key])
            else IsVersion(w.pol.docs, key) && w.opa[key] == w.pol.docs[key].source.entity.regoContent
  {
    hide Run, Apply;
    AskedIsLoadedThroughout(labels, 0, valid);
    var key := Run(labels, valid).calls[c].key;
    if DotFree(key) {
      BaseKeyHoldsAVersion(labels, key, valid);
    } else {
      OpaHoldsStoredContent(labels, key, valid);
    }
  }

  /** And once loaded a version's module is never lost or changed. */
  lemma {:induction false} LoadedForEver(labels: seq<Label>, m: nat, key: string, valid: Validator)
    requires AllAddressed(labels) && m <= |labels| && key in Run(labels[..m], valid).opa && !DotFree(key)
    ensures key in Run(labels, valid).opa && Run(labels, valid).opa[key] == Run(labels[..m], valid).opa[key]
  {
    hide Run, Apply;
    assert AllAddressed(labels[..m]);
    AskedIsLoadedThroughout(labels, m, valid);
    RunGrows(labels, m, valid);
    OpaHoldsStoredContent(labels[..m], key, valid);
    OpaHoldsStoredContent(labels, key, valid);
  }

  /** Every stored assignment sits under the id built from its own policy and group, its version id is canonical with
      a version of at least 1, and no other document has the same policy and group. */
  lemma {:induction false} AssignmentsAreCanonical(labels: seq<Label>, k: string, valid: Validator)
    requires AllAddressed(labels) && k in Run(labels, valid).assignments
    ensures var w := Run(labels, valid);
            var a := w.assignments[k].source;
            var p := BaseOf(a.policyVersionId);
            k == a.id == PolicyAssignmentId(p, a.policyGroup) &&
            (exists v: uint32 :: v >= 1 && a.policyVersionId == PolicyVersionId(p, v)) &&
            forall j | j in w.assignments ::
              var b := w.assignments[j].source;
              BaseOf(b.policyVersionId) == p && b.policyGroup == a.policyGroup <==> j == k
  {
    hide Apply;
    Reachable(labels, valid);
    var w := Run(labels, valid);
    var a := w.assignments[k].source;
    assert AssignmentOk(w.pol.docs, w.groups, k, a);
    StoredVersionParses(w.pol.docs, a.policyVersionId);
    forall j | j in w.assignments
      ensures var b := w.assignments[j].source;
              BaseOf(b.policyVersionId) == BaseOf(a.policyVersionId) && b.policyGroup == a.policyGroup <==> j == k
    {
      assert AssignmentOk(w.pol.docs, w.groups, j, w.assignments[j].source);
    }
  }

  /** The policy and the group of the document under an id are the same for ever, also across deletion and
      re-creation: the id determines them. */
  lemma {:induction false} AssignmentKeepsPolicyAndGroup(labels: seq<Label>, m: nat, k: string, valid: Validator)
    requires AllAddressed(labels) && m <= |labels|
    requires k in Run(labels[..m], valid).assignments && k in Run(labels, valid).assignments
    ensures var a, b := Run(labels[..m], valid).assignments[k].source, Run(labels, valid).assignments[k].source;
            a.policyGroup == b.policyGroup && BaseOf(a.policyVersionId) == BaseOf(b.policyVersionId)
  {
    hide Apply;
    Reachable(labels[..m], valid);
    Reachable(labels, valid);
    var w, w' := Run(labels[..m], valid), Run(labels, valid);
    var a, b := w.assignments[k].source, w'.assignments[k].source;
    assert AssignmentOk(w.pol.docs, w.groups, k, a) && AssignmentOk(w'.pol.docs, w'.groups, k, b);
    StoredVersionParses(w.pol.docs, a.policyVersionId);
    StoredVersionParses(w'.pol.docs, b.policyVersionId);
    AssignmentIdInjective(BaseOf(a.policyVersionId), a.policyGroup, BaseOf(b.policyVersionId), b.policyGroup);
  }

  /** The listing by policy id returns exactly the assignments to that policy, for any string asked for. */
  lemma {:induction false} ListingByPolicyIsExact(labels: seq<Label>, k: string, policyId: string, valid: Validator)
    requires AllAddressed(labels) && k in Run(labels, valid).assignments && policyId != ""
    ensures var a := Run(labels, valid).assignments[k].source;
            var parsed := ParsePolicyVersionId(a.policyVersionId);
            parsed.Ok? && (ListQuery("", policyId, a) <==> parsed.value.0 == policyId)
  {
    hide Apply;
    Reachable(labels, valid);
    var w := Run(labels, valid);
    var a := w.assignments[k].source;
    assert AssignmentOk(w.pol.docs, w.groups, k, a);
    StoredVersionParses(w.pol.docs, a.policyVersionId);
    PrefixQueryIsExact(policyId, BaseOf(a.policyVersionId), w.pol.docs[a.policyVersionId].source.entity.version);
  }

  // ----- what OPA does not promise -----

  function EvaluatePolicySteps(w: World, c: nat, id: string, valid: Validator): World {
    var w1 := Apply(w, LookUpPolicy(c, id), valid);
    var w2 := Apply(w1, JoinPolicy(c), valid);
    var w3 := Apply(w2, CheckOpa(c), valid);
    Apply(w3, PutOpa(c), valid)
  }

  /** EvaluatePolicy loads what it read under the policy's base id, and only where that key is absent. So after it has
      run undisturbed, OPA holds the requested content exactly when the key was absent or held it before: evaluating
      "p.3", or updating p after it was evaluated, leaves a stale module behind. */
  lemma StaleBaseKey(w: World, c: nat, id: string, valid: Validator)
    requires Inv(w) && c !in w.calls && FindJoined(w.pol.docs, id).Ok?
    ensures var policy := FindJoined(w.pol.docs, id).value;
            var w' := EvaluatePolicySteps(w, c, id, valid);
            DotFree(policy.id) &&
            w'.opa == Opa.Loaded(w.opa, policy.id, policy.entity.value.regoContent) &&
            (w'.opa[policy.id] == policy.entity.value.regoContent
             <==> policy.id !in w.opa || w.opa[policy.id] == policy.entity.value.regoContent)
  {
    ReadsLead(w, c, id, valid);
    var w2 := Apply(Apply(w, LookUpPolicy(c, id), valid), JoinPolicy(c), valid);
    hide Inv, FindJoined, DotFree, Apply;
    OpaLabels(w2, c, valid);
    var w3 := CheckOpaStep(w2, c);
    OpaLabels(w3, c, valid);
  }

  /** With calls in flight, a loaded module is replaced exactly by the PUT of a call that found a base id absent and
      has read other content: version ids are never replaced. */
  lemma LoadedReplacedExactly(w: World, l: Label, valid: Validator, key: string)
    requires Inv(w) && key in w.opa
    ensures var w' := Apply(w, l, valid);
            key in w'.opa &&
            (w'.opa[key] != w.opa[key] <==>
             DotFree(key) && l.PutOpa? && l.c in w.calls && w.calls[l.c].Putting? && w.calls[l.c].key == key &&
             w.calls[l.c].rego != w.opa[key])
  {
    OnlyPutsChangeOpa(w, l, valid);
    if l.PutOpa? && l.c in w.calls && w.calls[l.c].Putting? {
      CallFact(w, l.c);
      assert OpaAgrees(w.pol.docs, key, w.opa[key]);
      hide OpaAgrees, Inv;
      OpaLabels(w, l.c, valid);
      if !DotFree(key) && w.calls[l.c].key == key {
        SameContent(w.pol.docs, key, w.opa[key], w.calls[l.c].rego);
      }
    }
  }

  lemma SameContent(docs: Docs<PolicyDoc>, key: string, rego: string, other: string)
    requires OpaAgrees(docs, key, rego) && OpaAgrees(docs, key, other) && !DotFree(key)
    ensures rego == other
  {
  }

  lemma OnlyPutsChangeOpa(w: World, l: Label, valid: Validator)
    ensures !l.PutOpa? || l.c !in w.calls || !w.calls[l.c].Putting? ==> Apply(w, l, valid).opa == w.opa
  {
    hide PolicySteps.Apply, CreatedGroup, FindGroup, AssignedTo, CheckUpdate, CheckCreate, TargetsOk, FindVersion,
      FindPolicy, Join, ParsePolicyVersionId, PolicyAssignmentId;
  }

  lemma OpaLabels(w: World, c: nat, valid: Validator)
    requires c in w.calls
    ensures Apply(w, JoinPolicy(c), valid) == JoinStep(w, c)
    ensures Apply(w, CheckOpa(c), valid) == CheckOpaStep(w, c)
    ensures Apply(w, PutOpa(c), valid) == PutOpaStep(w, c)
  {
    hide JoinStep, CheckOpaStep, PutOpaStep;
  }

  lemma ReadsLead(w: World, c: nat, id: string, valid: Validator)
    requires Inv(w) && c !in w.calls && FindJoined(w.pol.docs, id).Ok?
    ensures var policy := FindJoined(w.pol.docs, id).value;
            var w2 := Apply(Apply(w, LookUpPolicy(c, id), valid), JoinPolicy(c), valid);
            DotFree(policy.id) && w2.opa == w.opa && c in w2.calls &&
            w2.calls[c] == Loading(policy.id, policy.entity.value.regoContent, [])
  {
    ParsedBaseIsDotFree(id);
    var p := ParsePolicyVersionId(id).value.0;
    PolicySteps.FoundIsStorable(w.pol.docs, p);
    hide Inv, ParsePolicyVersionId, PolicyVersionId, FindVersion, PolicySteps.Storable;
    var w1 := LookUpPolicyStep(w, c, id);
    assert Apply(w, LookUpPolicy(c, id), valid) == w1;
    hide Apply;
    OpaLabels(w1, c, valid);
  }
}
