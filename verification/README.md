# Rode: policies, resources and evaluations

Rode keeps policies, policy groups, assignments, resources and evaluations in Elasticsearch, and loads policy modules
into an Open Policy Agent (OPA). This project models that bookkeeping and proves what holds of it, for every input,
for every sequence of requests and, as no request takes a lock, for every interleaving of the steps of policy, group,
assignment, evaluation, ingest and registration requests. Where a result is about requests that do not overlap, its
row below says so.

- **Policy versioning.** A policy is three kinds of document in one index: the policy, an empty counter document whose
  Elasticsearch version allocates version numbers, and one document per version. `Policies.dfy` has the manager as a
  class, each method proved equal to a function of the documents. `PolicySteps.dfy` runs the same functions as steps
  (read, read and decide, bump, bulk) that any number of calls interleave; `PolicyRaces.dfy` proves that a whole
  request is its steps run without interruption. `PolicyNumbers.dfy`, `CurrentVersions.dfy`, `DeletionRaces.dfy` and
  `AtomicPolicies.dfy` prove what follows for numbers in flight, for the current version, for deletions, and for
  requests that do not interleave.
- **Groups, assignments, OPA, evaluation.** `PolicyGroups.dfy`, `Assignments.dfy`, `Opa.dfy` and `Evaluations.dfy` have
  the managers; `System.dfy` puts them next to the policies as one state machine with calls of every kind in flight;
  `SystemRaces.dfy` proves what interleaved steps can do after a deletion, `AssignmentTimes.dfy` what they do to the
  creation time of an assignment, `AtomicRequests.dfy` what a deletion closes when requests do not interleave.
- **Resource ingest.** `Uris.dfy` has the nine URI patterns and the parser that tries them in map order,
  `Resources.dfy` the two batch methods with their merge through maps of arbitrary iteration order, `Ingest.dfy` the
  request that calls both and what any sequence of them leaves in the index. `IngestSteps.dfy` runs the same
  requests as steps (read, bulk, read, bulk) that any number of them interleave.
- **Related occurrences and collectors.** `Grafeas.dfy` and `Collectors.dfy`; `CollectorSteps.dfy` interleaves
  registrations.

What each whole request answers and leaves in the index is proved once more field by field, in terms of the stored
documents alone, in `PolicyOutcomes.dfy`, `GroupOutcomes.dfy`, `AssignmentOutcomes.dfy`, `EvaluationOutcomes.dfy`,
`UriForms.dfy`, `IngestOutcomes.dfy` and `CollectorOutcomes.dfy`.

Every method is written in the form of the source (fields, pointers to messages that are completed after they are
queued, loops over maps in arbitrary order) and proved against a function of its inputs and the old state. The lemmas
are about those functions. `Elastic.dfy` is the document store, `Text.dfy` and `PolicyIds.dfy` the strings and ids.

## Assumptions

The libraries behind the managers are not part of this model. Their contracts are:

- A create (single or in a bulk) fails on an existing id and gives the document version 1. An update or bulk index
  overwrites and raises the version by exactly 1, or stores the document where there is none. A bulk request applies
  all its items or none; no code undoes a partial one. A document is found by its id, whatever the routing. An unpaged
  search returns every hit once, in some order.
- Ids from the UUID generator contain no dot and no slash and are not empty. Timestamps are opaque and come
  from outside. `int` has 64 bits; the conversion to `uint32` keeps the low 32 bits.
- Compiling and checking a Rego module, and what OPA answers to a query, are uninterpreted parameters.
- OPA keeps every module that was loaded into it: it does not restart, and nothing else removes modules.
- Grafeas creates all the notes of a request, or none when one of their names exists.
- Any request to OPA, to Grafeas when a collector is registered, and in the state machines any request at all, may
  fail; a failed one changes nothing.
- `UpdatePolicy` is given a policy entity. In the state machines clients address policies by ids without a dot;
  `PolicyRaces` proves what happens to other ids, which no code rejects.

## False as one would state them

The code is modelled as it is, and where a natural property fails the exact condition is proved:

- A dotted id given to `DeletePolicy` or `UpdatePolicy` addresses a version document and overwrites it
  (`DeleteKeepsShapeExactly`, `UpdateKeepsShapeExactly`).
- Version numbers are distinct only while at most 2^32 were given out, and increasing only below that
  (`NumbersAreHandedOutOnce`).
- The current version of a policy can fall. Exactly two kinds of step lower it, the commit of an update and the write
  of a delete that hold an older version (`CurrentVersionFallsExactly`), and runs from the empty index reach it by an
  edit, by an update that got its number earlier, and by a delete (`EveryWayIsReached`; from every reachable state
  while counters stay below 2^32, `EveryWayFromReachable`).
- A deletion of a policy is undone by the commit of an update that read it live, and by nothing else
  (`DeletionUndoneExactly`); that of a group by the write of an edit that read it live (`GroupDeletionUndoneExactly`).
- An assignment to a deleted policy or group can still be stored, by a call that passed its checks before the deletion
  (`AssignmentStoredExactly`); `PolicyDeletionIsFinal` and `GroupDeletionIsFinal` prove from when on no step can.
- The creation time of an assignment can change. Exactly one kind of step changes it, the store of an update that looked
  the assignment up under another one (`CreationTimeChangesExactly`): deleted and created again while an update is in
  flight, an assignment gets its old creation time back (`OldTimeReturns`; a run from the empty index in
  `OldTimeIsReached`). `CreationTimeStays` proves from when on it stays. The same store brings back an assignment that
  was only deleted (`AssignmentAppearsExactly`).
- A created policy or group is stored as deleted when the client says so (`PolicyOutcomes.CreateOutcome`,
  `GroupOutcomes.CreateOutcome`).
- OPA's entries under base policy ids go stale (`StaleBaseKey`), and calls that load one at the same time replace each
  other's (`LoadedReplacedExactly`); they always hold the content of some version (`BaseKeyHoldsAVersion`).
- The parser accepts version ids that no document has, such as "p.01" (`VersionIdUndoesParse`).
- Names of a version, once stored, can be lost, and a resource can be rewritten, when requests overlap: each bulk writes
  what its own read found absent. One request names "a@sha256:b" without names and reads it as absent, a build that names
  it runs whole, and the first request's bulk empties the names (`NamesAreLost`, for any two such requests
  `LateVersionLoses`, `LateResourceLoses` and `LateResourceRewrites`). Exactly which steps lose names or change a stored
  document is proved for every state (`NamesLostExactly`, `StoredChangesExactly`), and from when on names and resources
  are safe (`NamesStay`, `ResourcesStay`). Requests that do not overlap never lose names (`NamesAreNeverLost`).
- A registration is refused when another one has stored a note that it did not find (`RefusedExactly`).
- Resources and versions share one index. A version can overwrite a resource whose id is the version's URI
  (`ResourcesKeptExactly`, `StoredResourceIsRewritten`, and over whole runs `StoredKeptExactly`). And a version is not
  found after a request that succeeds when another occurrence of the request has a resource of that id: for
  "a@sha256:b@sha256:c" and "a@sha256:b" the lookup of the second answers with an empty version
  (`VersionHiddenByResource`; exact conditions in `OccurrenceStoredExactly`).
- A URI that the Docker pattern and another one match is parsed either way (`OrderMattersExactly`). And a Docker name is
  its own resource id, so an image "deb://a" and a package "a" share one (`DockerIdIsShared`, `ImageSharesPackageId`);
  the other forms never share ids (`AnchoredIdsDiffer`).
- Within one occurrence the last artifact of an id counts, also when it has no names and an earlier one has
  (`VersionsOfOccurrence`); and the time of an occurrence on a version does not date the version (`TimeIs`).
- More builds than one page can hide a related resource (`LostExactly`, `CutQueryLosesRelated`), and related resources
  are one build apart, not a transitive closure (`RelatedIsNotTransitive`).

## Model

| member | source | states |
|---|---|---|
| PolicyIds.ParseUndoesVersionId | pkg/policy/manager.go:756-782 | parsing undoes building for every dot-free policy id and every 32-bit version |
| PolicyIds.CounterIdDoesNotParse | pkg/policy/manager.go:760-782 | the parser rejects every counter id |
| PolicyIds.VersionIdUndoesParse | pkg/policy/manager.go:766-782 | building undoes parsing exactly when the version part has no sign or leading zero and fits 32 bits |
| PolicyIds.NonCanonicalIdParses | pkg/policy/manager.go:766-782 | "p.01" parses as version 1 of p |
| PolicyIds.NumbersParse | pkg/policy/manager.go:766-782 | a signed or unsigned 64-bit decimal after the dot parses, as its low 32 bits |
| PolicyIds.OthersDoNotParse | pkg/policy/manager.go:766-782 | no other version part parses, and no id with two dots |
| PolicyIds.IdSpacesAreDisjoint | pkg/policy/manager.go:756-764 | base, counter and version ids never meet, and each determines its policy and number |
| PolicyIds.PrefixQueryIsExact | pkg/policy/assignment_manager.go:188-194 | the prefix "P." finds a version id exactly when P is its policy |
| PolicyIds.AssignmentIdInjective | pkg/policy/assignment_manager.go:358-360 | assignment ids determine policy and group for slash-free policy ids |
| PolicyIds.AssignmentIdAmbiguousWithSlashes | pkg/policy/assignment_manager.go:358-360 | without that, two pairs share an id |
| Policies.PolicyManager.CreatePolicy | pkg/policy/manager.go:88-170 | stores policy, counter and version 1, or nothing; which error on which input |
| Policies.PolicyManager.GetPolicy | pkg/policy/manager.go:172-205 | parses the id, reads the policy, joins the wanted or the current version |
| Policies.PolicyManager.DeletePolicy | pkg/policy/manager.go:207-228 | marks the document under the id as deleted, whatever kind it is |
| Policies.PolicyManager.IncrementPolicyVersion | pkg/policy/manager.go:645-659 | overwrites the counter and answers with its document version, cut to 32 bits |
| Policies.PolicyManager.UpdatePolicy | pkg/policy/manager.go:402-490 | the whole update, including what the first queued item says once its message has been completed, and what the update leaves in the caller's own entity |
| Policies.PolicyManager.SendUpdate | pkg/policy/manager.go:471-489 | the entity is not in the stored policy and is in the answer |
| Policies.PolicyManager.ListPolicies | pkg/policy/manager.go:230-332 | hit i gets exactly the version its current version names; fails exactly when one of those is missing |
| PolicyOutcomes.CreateOutcome | pkg/policy/manager.go:88-170 | a create succeeds exactly for a named policy with accepted content and unused ids; which three documents it adds, field by field |
| PolicyOutcomes.CreatedReadsBack | pkg/policy/manager.go:88-205 | the created policy reads back as answered |
| PolicyOutcomes.UpdateOutcome | pkg/policy/manager.go:402-490 | with the same Rego and source path only the policy document changes, with either changed exactly one version is added, field by field; why any other update is refused |
| PolicyOutcomes.UpdatedReadsBack | pkg/policy/manager.go:402-490 | the updated policy reads back as answered, with exactly the Rego and the source path of the request |
| PolicyOutcomes.VersionsAfterUpdate | pkg/policy/manager.go:433-470 | one more version exactly when Rego or source path differ from those read before, no other version of any policy touched |
| PolicyOutcomes.EntityOutcome | pkg/policy/manager.go:433-460 | the caller's entity becomes the new version exactly when the content changes and is accepted |
| PolicyOutcomes.DeleteOutcome | pkg/policy/manager.go:207-228 | a delete succeeds exactly on a stored policy and sets its flag only |
| PolicyOutcomes.GetOutcome | pkg/policy/manager.go:172-205 | what a policy id and a version id read, or which error |
| PolicyOutcomes.VersionOutcome | pkg/policy/manager.go:560-592 | the lookup of a version answers with it or with nothing |
| PolicyOutcomes.ListingOutcome | pkg/policy/manager.go:230-332 | a listing holds exactly the policies not marked as deleted, each as reading it gives it |
| PolicyOutcomes.DeletedIsNotListed | pkg/policy/manager.go:207-332 | after a delete a listing holds the same policies without the deleted one |
| PolicyOutcomes.AnswersReadBack | pkg/policy/manager.go:88-490 | in every state that interleaved requests reach, creates and updates read back as answered |
| PolicySteps.Step | pkg/policy/manager.go:402-490 | every step of every call keeps ids, references and counters in shape and loses no document |
| PolicySteps.Reachable | pkg/policy/manager.go:88-490 | the invariant holds after every interleaving |
| PolicySteps.RunGrows | pkg/policy/manager.go:88-490 | between any two moments of a run documents stay and keep their kind |
| PolicySteps.VersionsNeverChange | pkg/policy/manager.go:402-490 | a version document never changes once written, under every interleaving |
| PolicySteps.StoredPolicyIsReadable | pkg/policy/manager.go:172-205 | reading a stored policy gives it joined with the version its current version names |
| PolicySteps.SnapshotIsReadable | pkg/policy/manager.go:172-205 | the second read of an update succeeds however old its first read is |
| PolicySteps.ListingNeverFails | pkg/policy/manager.go:272-325 | whatever steps run between the search and the MultiGet, each hit's version read at the search is found at the join, with the same content |
| PolicySteps.ReadsNeverMissAVersion | pkg/policy/manager.go:172-205 | after every interleaving a stored policy joins with its current version, and so does the snapshot of every update in flight |
| PolicySteps.NumbersHandedOut | pkg/policy/manager.go:645-659 | the numbers of one policy are distinct, and increasing, exactly while 32 bits hold them |
| PolicySteps.NumbersAreHandedOutOnce | pkg/policy/manager.go:645-659 | the same after every interleaving, one number per raise of the counter |
| PolicySteps.StoredIsAccepted | pkg/policy/manager.go:437-448 | after every interleaving all stored Rego, and all that a call in flight is about to store, passed validation |
| PolicyNumbers.FreshReachable | pkg/policy/manager.go:433-470 | after every interleaving no number in flight belongs to a stored version or to another call |
| PolicyNumbers.CommitNeverConflicts | pkg/policy/manager.go:433-489 | the bulk of an update that got a number succeeds, adds exactly its version and makes it current |
| PolicyRaces.UpdateIsItsSteps | pkg/policy/manager.go:402-490 | an uninterrupted update is its four steps |
| PolicyRaces.DeleteIsItsSteps | pkg/policy/manager.go:207-228 | an uninterrupted delete is its two steps |
| PolicyRaces.UpdateUndoesDelete | pkg/policy/manager.go:402-490 | in every state with a live policy an update around a delete brings the policy back |
| CurrentVersions.CurrentVersionFallsExactly | pkg/policy/manager.go:207-490 | a step lowers a policy's current version exactly when it is a commit whose bulk goes through, or the write of a delete, by a call that holds an older version |
| CurrentVersions.LivePoliciesAreSettled | pkg/policy/manager.go:433-470 | after every interleaving in which no counter reaches 2^32 no live policy has a version above its counter, whatever is in flight |
| CurrentVersions.EveryWayFromReachable | pkg/policy/manager.go:207-490 | from every such state, the current version of any live policy can fall by an edit, by an update that got its number earlier and by a delete |
| CurrentVersions.StaleEditReverts | pkg/policy/manager.go:420-489 | in every settled state an edit around another update makes the older version current again |
| CurrentVersions.LateCommitReverts | pkg/policy/manager.go:445-489 | so does an update that gets its number before another one and commits after it |
| CurrentVersions.StaleDeleteReverts | pkg/policy/manager.go:207-228 | so does a delete around an update |
| CurrentVersions.EveryWayIsReached | pkg/policy/manager.go:88-490 | so for any two accepted contents each of the three continues the run that creates a policy in the empty index |
| PolicyRaces.DeleteKeepsShapeExactly | pkg/policy/manager.go:207-228 | a delete keeps the documents in shape exactly when its id has no dot or names nothing |
| PolicyRaces.UpdateKeepsShapeExactly | pkg/policy/manager.go:402-490 | an update keeps them in shape exactly when its id has no dot or it is refused before it writes |
| DeletionRaces.PolicyWrittenExactly | pkg/policy/manager.go:88-490 | which steps write a policy's document, and what they write |
| DeletionRaces.DeletionUndoneExactly | pkg/policy/manager.go:413-489 | exactly the commit of an update that read the policy while it was live undoes a deletion |
| DeletionRaces.DeletionLasts | pkg/policy/manager.go:207-228 | once no such update is in flight the policy stays deleted under every interleaving |
| AtomicPolicies.Served | pkg/policy/manager.go:88-490 | a request that fails changes nothing, so rejected Rego uses up no number |
| AtomicPolicies.HistoryIsFaithful | pkg/policy/manager.go:88-490 | for every run of whole requests the documents are those of the log of accepted contents |
| AtomicPolicies.VersionsAreTheAcceptedContents | pkg/policy/manager.go:88-490 | after every run of whole requests versions are 1..n, counter and current version are n, "p.k" reads the k-th accepted content, all were validated, neighbours differ |
| PolicyGroups.PolicyGroupManager.CreatePolicyGroup | pkg/policy/policy_group_manager.go:70-101 | stores a group under a new, well-formed name, or which error |
| PolicyGroups.PolicyGroupManager.UpdatePolicyGroup | pkg/policy/policy_group_manager.go:194-219 | changes the description and the update time of a live group only |
| PolicyGroups.PolicyGroupManager.DeletePolicyGroup | pkg/policy/policy_group_manager.go:221-241 | marks the group as deleted and changes nothing else of it |
| GroupOutcomes.CreateOutcome | pkg/policy/policy_group_manager.go:70-101 | a create succeeds exactly under a new name of the allowed characters; the stored group, field by field |
| GroupOutcomes.UpdateOutcome | pkg/policy/policy_group_manager.go:194-219 | an update succeeds exactly on a live group and sets the description and the time of the request only |
| GroupOutcomes.DeleteOutcome | pkg/policy/policy_group_manager.go:221-241 | a delete succeeds exactly on a stored group and sets its flag only |
| GroupOutcomes.UpdateIsItsSteps | pkg/policy/policy_group_manager.go:194-219 | an uninterrupted update is its two steps |
| GroupOutcomes.DeleteIsItsSteps | pkg/policy/policy_group_manager.go:221-241 | so is a delete |
| Assignments.AssignmentManager.ValidateCreate | pkg/policy/assignment_manager.go:324-336 | the pair of policy and group must be new |
| Assignments.AssignmentManager.ValidateUpdate | pkg/policy/assignment_manager.go:338-356 | group and policy must be those stored; the stored creation time is put on the message |
| Assignments.AssignmentManager.ValidateTargets | pkg/policy/assignment_manager.go:272-319 | policy, version and group exist, and neither policy nor group is deleted |
| Assignments.AssignmentManager.CreatePolicyAssignment | pkg/policy/assignment_manager.go:68-96 | stores the stamped assignment under the id of its policy and group, or which error |
| Assignments.AssignmentManager.UpdatePolicyAssignment | pkg/policy/assignment_manager.go:126-146 | overwrites the assignment under its id, or which error |
| Assignments.AssignmentManager.DeletePolicyAssignment | pkg/policy/assignment_manager.go:148-172 | removes exactly the document under the id |
| Assignments.AssignmentManager.ListPolicyAssignments | pkg/policy/assignment_manager.go:174-245 | the assignments of the hits, in their order |
| AssignmentOutcomes.CreateOutcome | pkg/policy/assignment_manager.go:68-96 | in every reachable state a create succeeds exactly when version, policy and group are there and live and no stored assignment has that policy and group; the stored assignment, field by field |
| AssignmentOutcomes.UpdateOutcome | pkg/policy/assignment_manager.go:126-146 | an update succeeds exactly for a stored id with its policy and group when they are live, and sets version and update time only |
| Opa.OpaClient.InitializePolicy | opa/opa.go:93-131 | fills the table only where the key is absent; a failure changes nothing |
| Opa.OpaClient.PolicyStatus | opa/opa.go:164-180 | found and not found are true answers |
| Opa.OpaClient.LoadPolicy | opa/opa.go:111-131 | a success puts the module under its key |
| System.Step | pkg/policy/assignment_manager.go:253-322 | every step of policies, groups, assignments, evaluations and OPA keeps the invariant of the whole |
| System.Reachable | pkg/policy/assignment_manager.go:253-322 | so it holds after every interleaving |
| System.AssignmentsStayAnchored | pkg/policy/assignment_manager.go:272-319 | policy, version and group named by an assignment stored at any moment exist at every later one, the version unchanged |
| System.EvaluationFindsVersions | pkg/evaluation/manager.go:163-171 | an evaluation never meets a missing version, however long ago it listed the assignments |
| System.OpaHoldsStoredContent | opa/opa.go:93-109 | under every version-id key OPA holds that version's stored content, though nothing is reloaded |
| System.OpaHoldsAcceptedModules | opa/opa.go:93-131 | after every interleaving every module that OPA holds passed validation |
| System.AssignmentsAreCanonical | pkg/policy/assignment_manager.go:68-96 | each assignment is under the id of its own fields, its version id is canonical with version at least 1, and no other document has its policy and group |
| System.AssignmentKeepsPolicyAndGroup | pkg/policy/assignment_manager.go:338-360 | policy and group under one id never change, also across deletion and re-creation |
| System.ListingByPolicyIsExact | pkg/policy/assignment_manager.go:188-194 | listing by policy id returns exactly that policy's assignments |
| System.QueriesSeeStoredContent | pkg/evaluation/manager.go:466-483 | under every interleaving, whenever a call queries OPA about a version, however long after its check, OPA holds exactly the stored content |
| System.LoadedForEver | opa/opa.go:93-131 | a version's module, once loaded, is never lost or changed |
| System.BaseKeyHoldsAVersion | pkg/evaluation/manager.go:401-424 | under a policy's own id OPA holds the content of one of its versions, whatever calls load it at the same time |
| System.LoadedReplacedExactly | opa/opa.go:93-131 | a loaded module is replaced exactly by the PUT of a call that found a base id absent and read other content |
| System.StaleBaseKey | pkg/evaluation/manager.go:401-424 | after an EvaluatePolicy that runs alone OPA holds the requested content exactly when the base key was absent or held it |
| SystemRaces.GroupDeletionUndoneExactly | pkg/policy/policy_group_manager.go:194-241 | exactly the write of an edit that read the group while it was live undoes its deletion |
| SystemRaces.AssignmentStoredExactly | pkg/policy/assignment_manager.go:68-146 | an assignment to a policy or group, deleted or not, appears or changes exactly by the store of a call that has passed its checks |
| SystemRaces.NoCallPasses | pkg/policy/assignment_manager.go:308-319 | no call passes its checks while the policy or the group is deleted |
| SystemRaces.PolicyDeletionIsFinal | pkg/policy/assignment_manager.go:253-322 | under every interleaving, once no update that read it live and no checked assignment is in flight, a policy stays deleted and assignments to it are only removed |
| SystemRaces.GroupDeletionIsFinal | pkg/policy/policy_group_manager.go:194-241 | the same for a group |
| AtomicRequests.DeletedPolicyIsClosed | pkg/policy/assignment_manager.go:308-314 | after a deletion no request, as long as requests do not overlap, changes the policy or its versions, and assignments to it are only ever removed |
| AtomicRequests.DeletedGroupIsClosed | pkg/policy/assignment_manager.go:315-319 | the same for a group, whose name stays taken |
| AtomicRequests.NothingCreated | pkg/policy/assignment_manager.go:308-319 | creating an assignment on a deleted policy or group is refused and changes no assignment to it |
| AtomicRequests.NothingUpdated | pkg/policy/assignment_manager.go:308-319 | so is updating one |
| AssignmentTimes.CreateIsItsSteps | pkg/policy/assignment_manager.go:68-96 | a create that runs without interruption, accepted or refused, is its three steps |
| AssignmentTimes.UpdateIsItsSteps | pkg/policy/assignment_manager.go:126-146 | so is an update |
| AssignmentTimes.CreationTimeChangesExactly | pkg/policy/assignment_manager.go:126-146 | a step changes the creation time of an assignment exactly when it is the store of an update that looked it up under another one, and removes it exactly when it deletes it |
| AssignmentTimes.AssignmentAppearsExactly | pkg/policy/assignment_manager.go:68-146 | an absent assignment appears exactly by the store of a create, or of an update that looked it up before it was deleted |
| AssignmentTimes.CreationTimeStays | pkg/policy/assignment_manager.go:338-356 | under every interleaving, once no update in flight holds another creation time, the assignment keeps its own until it is deleted |
| AssignmentTimes.OldTimeReturns | pkg/policy/assignment_manager.go:126-146 | in every state, with any other calls in flight, an assignment deleted and created again around an update gets its old creation time back |
| AssignmentTimes.OldTimeIsReached | pkg/policy/assignment_manager.go:68-172 | for any policy and group a run from the empty index gets there |
| AtomicRequests.AssignmentsKeepOrigin | pkg/policy/assignment_manager.go:126-146 | whatever requests that do not overlap follow, an assignment keeps its group, policy and creation time until it is deleted |
| Evaluations.EvaluationManager.EvaluateVersion | pkg/evaluation/manager.go:466-483 | loads the module if its key is absent and asks OPA with the table that results |
| Evaluations.EvaluationManager.EvaluateAssignments | pkg/evaluation/manager.go:143-197 | one child per assignment in order, the parent's shared message ends with the conjunction; fails only when a version is missing or OPA does not answer, and panics only on an answer without a result |
| Evaluations.EvaluationManager.EvaluateResource | pkg/evaluation/manager.go:100-219 | stores parent and children together or nothing; which error on which input; a success passes exactly when every child does |
| Evaluations.EvaluationManager.GetResourceEvaluation | pkg/evaluation/manager.go:221-282 | the parent and the children that the search found, in its order |
| Evaluations.EvaluationManager.EvaluatePolicy | pkg/evaluation/manager.go:401-464 | loads under the policy's base id whichever version was asked for; an answer without a result does not pass |
| Evaluations.StoringHolds | pkg/evaluation/manager.go:152-209 | storing an evaluation adds exactly it and keeps every stored evaluation consistent |
| Evaluations.EvaluationRoundTrip | pkg/evaluation/manager.go:221-282 | a stored evaluation is read back with the same parent and the same multiset of children, after any later evaluations |
| Evaluations.EvaluationAsksAboutStoredContent | pkg/evaluation/manager.go:163-176 | an evaluation that starts in any reachable state finds each listed version and asks OPA with exactly its stored content loaded; System.QueriesSeeStoredContent is the interleaved form |
| EvaluationOutcomes.ChildrenAreAnswers | pkg/evaluation/manager.go:162-197 | each child is OPA's answer to its version's content and the resource's occurrences, with a module loaded under the version's id; the parent passes exactly when all children do |
| EvaluationOutcomes.StoredAnswers | pkg/evaluation/manager.go:162-197 | in every reachable state that module is exactly the stored content |
| EvaluationOutcomes.ListingOfGroup | pkg/evaluation/manager.go:124-135 | the assignments an evaluation of a group goes through are exactly those to the group, each once |
| EvaluationOutcomes.EvaluationIsItsSteps | pkg/evaluation/manager.go:162-197 | an uninterrupted evaluation is its steps, and loads exactly what the method loads |
| Uris.ParseResourceUri | pkg/resource/uri.go:76-100 | fails exactly when no pattern matches; otherwise answers as one that does |
| Uris.AnchoredPatternsAreDisjoint | pkg/resource/uri.go:24-61 | at most one anchored pattern matches a URI |
| Uris.OrderMattersExactly | pkg/resource/uri.go:82-97 | the parse depends on the map order exactly when Docker's pattern and another one match |
| Uris.PartsRebuildUri | pkg/resource/uri.go:24-61 | except for Debian and RPM the parts rebuild the matched line, split at the last separator with something after it |
| Uris.PackageUriParts | pkg/resource/uri.go:53-60 | Debian and RPM lose only what stands before the name |
| UriForms.IdAndLine | pkg/resource/uri.go:24-100 | name, version and resource id of every parse by the matched line, form by form |
| UriForms.ParseUndoesFormat | pkg/resource/uri.go:24-100 | parsing undoes building a URI, for all nine forms |
| UriForms.AnchoredIdsDiffer | pkg/resource/uri.go:24-100 | among the anchored forms the resource id determines type and name |
| UriForms.DockerIdIsShared | pkg/resource/uri.go:24-100 | a Docker name shares its id exactly with what it spells out, prefix and all |
| UriForms.ImageSharesPackageId | pkg/resource/uri.go:24-100 | two URIs that each match one handler and have the same resource id |
| UriForms.AnchoredLine | pkg/resource/uri.go:24-61 | anchored forms are matched before the first newline |
| UriForms.DockerLine | pkg/resource/uri.go:24-61 | the Docker form in the first line that matches |
| Uris.NewlineFreeLine | pkg/resource/uri.go:76-100 | a URI without newline is its own only line |
| Grafeas.Extensions.ListVersionedResourceOccurrences | pkg/grafeas/extensions.go:42-85 | the page of the occurrences chosen, whatever order the map is rendered in |
| Grafeas.Extensions.CollectUris | pkg/grafeas/extensions.go:57-65 | the URI asked for and all those the builds name |
| Grafeas.SelectsRelated | pkg/grafeas/extensions.go:42-85 | only occurrences of related resources are selected, and all of them when the build query was not cut |
| Grafeas.SelectedExactly | pkg/grafeas/extensions.go:42-85 | with at most 1000 builds of the resource exactly its own occurrences are selected and those that some build mentions together with it; with more, 1000 builds are looked at |
| Grafeas.LostExactly | pkg/grafeas/extensions.go:45-55 | a related resource is lost exactly when only builds beyond the page name it |
| Grafeas.RelatedIsSymmetric | pkg/grafeas/extensions.go:57-65 | the relation is symmetric |
| Grafeas.BuildsAreSelected | pkg/grafeas/extensions.go:57-84 | every build that names the resource is itself selected when the build query was not cut |
| Grafeas.RelatedIsNotTransitive | pkg/grafeas/extensions.go:57-84 | what a related resource is related to may be left out |
| Grafeas.CutQueryLosesRelated | pkg/grafeas/extensions.go:45-55 | a cut build query can lose a related resource |
| Resources.ResourceManager.CollectResources | pkg/resource/manager.go:78-98 | one id per resource, in order, the first occurrence of each provides it; fails exactly on an unparseable URI |
| Resources.ResourceManager.BatchCreateResources | pkg/resource/manager.go:75-153 | adds exactly the resources the index does not hold; a URI that does not parse stops it before it writes |
| Resources.ResourceManager.VersionsFromOccurrence | pkg/resource/manager.go:454-474 | the versions one occurrence names |
| Resources.ResourceManager.MergeOccurrences | pkg/resource/manager.go:160-183 | each field is the last one set over the occurrences in order, for every iteration order; ids without duplicates, exactly those named |
| Resources.MergeOneMore | pkg/resource/manager.go:164-182 | merging entry by entry extends the fold by one occurrence |
| Resources.NamesComeWithTime | pkg/resource/manager.go:168-178 | merged names come with a creation time when every occurrence has one |
| Resources.ResourceManager.BatchCreateResourceVersions | pkg/resource/manager.go:157-263 | writes exactly the versions that are new or bring names; a URI that does not parse stops it before it writes |
| Resources.ResourceManager.GetResourceVersion | pkg/resource/manager.go:423-450 | the version under its URI, or which error |
| Resources.BulkOfDistinct | pkg/resource/manager.go:241-246 | indexing distinct ids writes each of them and leaves the others |
| Ingest.RodeServer.BatchCreateOccurrences | server/server.go:88-111 | succeeds exactly when every named URI parses; a failure leaves the index as it was or with the batch's resources |
| Ingest.NamesAreNeverLost | pkg/resource/manager.go:215-223 | names once stored are never emptied by later requests that do not overlap; IngestSteps.NamesLostExactly is the general statement |
| Ingest.TimesKeptExactly | pkg/resource/manager.go:215-230 | every stored version keeps a creation time exactly when none is rewritten by one without |
| Ingest.VersionsAreTimed | pkg/resource/manager.go:168-230 | after any requests with dated occurrences every stored version has a creation time; IngestSteps.VersionsAreTimed is the interleaved form |
| Ingest.ResourcesKeptExactly | pkg/resource/manager.go:204-237 | versions leave all resources alone exactly when none that brings names has a resource's id |
| Ingest.StoredResourceIsRewritten | pkg/resource/manager.go:204-237 | two batches after which a stored resource is gone |
| Ingest.StoredKeptExactly | pkg/resource/manager.go:75-263 | over any requests that do not overlap a stored document is the same later exactly when no complete batch in between has a version of its id that brings names |
| Ingest.SecondIngestChangesNothingExactly | pkg/resource/manager.go:75-263 | a batch ingested again changes nothing exactly when no version that brought names without a time was new |
| Ingest.IngestIsIdempotent | pkg/resource/manager.go:75-263 | in particular when all occurrences are dated and each URI matches one handler |
| Ingest.OccurrenceStoredExactly | server/server.go:100-110 | after one request on unambiguous URIs, exactly when an occurrence's resource is stored and exactly when its version is found under it |
| Ingest.OccurrencesAreStoredExactly | server/server.go:100-110 | the same at the end of every run of such requests that do not overlap |
| Ingest.VersionHiddenByResource | pkg/resource/manager.go:185-223 | one request after which a version it names cannot be found |
| IngestOutcomes.VersionsOfOccurrence | pkg/resource/manager.go:454-474 | a version has all the names of the occurrence's last artifact of its id and the occurrence's time; the URI itself has neither |
| IngestOutcomes.NamesAre | pkg/resource/manager.go:160-183 | the names of a batch are those of the last occurrence whose artifact gives some |
| IngestOutcomes.TimeIs | pkg/resource/manager.go:160-183 | its time is that of the last dated occurrence with an artifact of the id |
| IngestOutcomes.ResourceOutcome | pkg/resource/manager.go:75-153 | an absent resource gets name, type and time of the first occurrence that belongs to it |
| IngestOutcomes.VersionOutcome | pkg/resource/manager.go:157-263 | which versions a request writes and with which names, time and parent; everything else is unchanged |
| IngestOutcomes.VersionReadsBack | pkg/resource/manager.go:423-450 | a stored version is answered under its URI as it was stored |
| IngestOutcomes.VersionNotFound | pkg/resource/manager.go:423-450 | which error an absent one gives |
| IngestSteps.ResourcesSentLater | pkg/resource/manager.go:108-141 | what a bulk of resources, made from an earlier read, writes into the index as it is by then |
| IngestSteps.VersionsSentLater | pkg/resource/manager.go:190-241 | the same for a bulk of versions |
| IngestSteps.RequestIsItsSteps | server/server.go:88-111 | a request that runs without interruption is its four steps |
| IngestSteps.WholeRequestsAreRuns | server/server.go:88-111 | requests that do not overlap are runs of the steps |
| IngestSteps.Reachable | pkg/resource/manager.go:75-263 | after every interleaving the parents of what is in flight are stored, and no document that a read found is gone |
| IngestSteps.StoredChangesExactly | pkg/resource/manager.go:108-241 | a stored document changes exactly by the write of a resource that its call found absent, or of a version that its call found absent or that brings names, and is never lost |
| IngestSteps.NamesLostExactly | pkg/resource/manager.go:215-241 | stored names are lost exactly by such a write to an id that the call found absent and brings no names for, as a version or as a resource |
| IngestSteps.NamesStay | pkg/resource/manager.go:215-241 | once no request in flight has missed a version with names, it keeps names under every interleaving |
| IngestSteps.StoredKeptExactly | pkg/resource/manager.go:75-263 | over every interleaving a stored document is the same later exactly when none of these steps came in between |
| IngestSteps.ResourcesStay | pkg/resource/manager.go:108-126 | once no request in flight has missed a resource, and when none brings names for a version of its id, it is never rewritten |
| IngestSteps.VersionsAreTimed | pkg/resource/manager.go:168-230 | after every interleaving of dated requests every stored version has a creation time |
| IngestSteps.OccurrenceStoredExactly | server/server.go:100-110 | when a request ends with others in flight, exactly when an occurrence's resource is stored and exactly when its version is found under it |
| IngestSteps.LateVersionLoses | pkg/resource/manager.go:186-241 | any two requests of which one names a version and the other names it with names have a run that loses the names |
| IngestSteps.LateResourceLoses | pkg/resource/manager.go:100-141 | so do any two of which one has a resource of that id |
| IngestSteps.LateResourceRewrites | pkg/resource/manager.go:100-141 | any two requests with a resource in common have a run that rewrites it |
| IngestSteps.NamesAreLost | pkg/resource/manager.go:186-241 | two such requests with dated occurrences on unambiguous URIs |
| Collectors.NoteIdInjective | server/server.go:416-437 | note ids determine collector and kind, whatever dashes the collector's id has |
| Collectors.RequestedIsListed | server/server.go:345-349 | every note a collector can ask for lies inside its prefix listing |
| Collectors.RegisteringAddsTheMissing | server/server.go:328-384 | registering adds exactly the missing ids, changes no note, and adds nothing a second time |
| Collectors.RodeServer.RegisterCollector | server/server.go:317-385 | refuses exactly a missing id or two notes of one kind; a failing request to Grafeas changes no note; otherwise the caller's messages are answered under every requested id with their full names |
| Collectors.RodeServer.CollectNotes | server/server.go:328-340 | refuses exactly two notes of one kind |
| Collectors.RodeServer.MarkExisting | server/server.go:354-362 | existing notes get their names in the shared messages, and what remains to be created is exactly what the store does not hold |
| Collectors.RodeServer.NameCreated | server/server.go:373-379 | the created notes get their names in the shared messages |
| CollectorOutcomes.NoteNames | server/server.go:416-437 | the full name of each kind's note |
| CollectorOutcomes.RegistrationOutcome | server/server.go:328-385 | each requested note is stored and answered under that name, as it was or with the kind and description of the request |
| CollectorSteps.RegistrationIsItsSteps | server/server.go:342-382 | a registration that runs without interruption is its two steps |
| CollectorSteps.RunKeepsNotes | server/server.go:342-382 | no interleaving of registrations changes or loses a stored note |
| CollectorSteps.CreationRegisters | server/server.go:364-372 | with others in flight, a creation that goes through leaves every requested note stored and adds exactly those that its listing did not find |
| CollectorSteps.RefusedExactly | server/server.go:364-372 | it is refused exactly when another registration has stored a requested note since the listing, and then stores nothing |

## Left out

- Authentication, roles, configuration and clients (auth, config, common): finite tables and flag parsing.
- Generated code, fakes, the HTTP gateway and the health server: no logic of Rode's own.
- Elasticsearch, Grafeas and OPA transport, routing, refresh and partial bulk failures: replaced by the contracts above.
- Rego parsing, compilation and evaluation, package paths, and OPA's merging of modules of one package: parameters.
- User filters, pagination, page tokens and sorting: searches are unpaged and unfiltered.
- Quotes in URIs that are rendered into Grafeas filter strings: a filter is the list of its alternatives.
- ListPolicyVersions, ListPolicyGroups, ListResources, ListResourceVersions, ListResourceEvaluations, GetResource: one search each.
- The join field of policy documents: only the parent of a version document is kept.
- PolicyNumbers.CommitNeverConflicts: for runs in which no counter reaches 2^32; beyond that numbers repeat, see NumbersHandedOut.
- AtomicPolicies.VersionsAreTheAcceptedContents: for policies with fewer than 2^32 versions, for the same reason.
- Resources.ResourceManager.MergeOccurrences: the entries of the map are values that are put back, so a version shared between map and caller is not modelled.
- System.StaleBaseKey: the exact condition is for a call that runs alone; with others in flight LoadedReplacedExactly says which step replaces a base id's module, BaseKeyHoldsAVersion what it holds.
- AtomicRequests.DeletedPolicyIsClosed: whole requests only; under interleaving the step that still stores an assignment is a StoreAssignment of a call that passed its target check before the deletion, see SystemRaces.AssignmentStoredExactly and PolicyDeletionIsFinal.
- AtomicRequests.DeletedGroupIsClosed: whole requests only, see SystemRaces.GroupDeletionUndoneExactly and GroupDeletionIsFinal.
- AtomicRequests.AssignmentsKeepOrigin: whole requests only; AssignmentTimes.CreationTimeChangesExactly says which interleaved step changes a creation time.
- Ingest.NamesAreNeverLost: requests that do not overlap; IngestSteps.NamesLostExactly is the general statement.
- Ingest.StoredKeptExactly: requests that do not overlap; IngestSteps.StoredKeptExactly is the general statement.
- Ingest.OccurrencesAreStoredExactly: requests that do not overlap; IngestSteps.OccurrenceStoredExactly is the general statement.
- Ingest.ResourcesAreNeverRewritten: a special case, without a row above; Ingest.StoredKeptExactly and IngestSteps.StoredKeptExactly are the general statements.
- Ingest.OccurrencesAreStored: a special case, without a row above; Ingest.OccurrencesAreStoredExactly is the general statement.
- CollectorSteps.RefusedExactly: that Grafeas refuses a creation as a whole is an assumption about it.
