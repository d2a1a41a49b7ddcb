/** The resource manager (pkg/resource/manager.go): resources and their versions, kept in one index and written as a
    side effect of creating occurrences. */
module Resources {
  import opened Wrappers
  import opened Text
  import opened Elastic
  import opened Uris
  import opened Grafeas

  datatype Resource = Resource(name: string, resourceType: ResourceType, created: Option<Time>)

  /** A version in memory; nil and empty names are different here and the same once stored. */
  datatype Version = Version(version: string, names: Option<seq<string>>, created: Option<Time>)

  datatype ResourceDoc =
    | ResourceDoc(resource: Resource)
    | VersionDoc(version: string, names: seq<string>, created: Option<Time>)

  function Stored(v: Version): ResourceDoc {
    VersionDoc(v.version, if v.names.Some? then v.names.value else [], v.created)
  }

  // ----- versions of one occurrence -----

  /** The versions after the first `n` artifacts. */
  function VersionsUpTo(o: Occurrence, n: nat): map<string, Version>
    requires n == 0 || (o.build.Some? && n <= |o.build.value|)
  {
    if n == 0 then map[o.uri := Version(o.uri, None, None)]
    else
      var a := o.build.value[n - 1];
      VersionsUpTo(o, n - 1)[a.id := Version(a.id, a.names, o.createTime)]
  }

  function VersionsOf(o: Occurrence): map<string, Version> {
    VersionsUpTo(o, if o.build.Some? then |o.build.value| else 0)
  }

  /** Its keys are the URIs the occurrence names; a version has names only with the occurrence's time. */
  lemma {:induction false} VersionsUpToMeans(o: Occurrence, n: nat)
    requires n == 0 || (o.build.Some? && n <= |o.build.value|)
    ensures VersionsUpTo(o, n).Keys == {o.uri} + set i | 0 <= i < n :: o.build.value[i].id
    ensures forall k | k in VersionsUpTo(o, n) ::
              var v := VersionsUpTo(o, n)[k]; v.version == k && (v.names.Some? ==> v.created == o.createTime)
  {
    if n > 0 {
      VersionsUpToMeans(o, n - 1);
    }
  }

  lemma VersionsOfMeans(o: Occurrence)
    ensures VersionsOf(o).Keys == Named(o)
    ensures forall k | k in VersionsOf(o) ::
              VersionsOf(o)[k].version == k &&
              (VersionsOf(o)[k].names.Some? ==> VersionsOf(o)[k].created == o.createTime)
  {
    VersionsUpToMeans(o, if o.build.Some? then |o.build.value| else 0);
  }

  // ----- merging a batch -----

  function Keys(os: seq<Occurrence>): set<string> {
    set o, k | o in os && k in Named(o) :: k
  }

  /** The names that the last occurrence with names for `k` gives it. */
  function LastNames(os: seq<Occurrence>, k: string): Option<seq<string>>
    decreases |os|
  {
    if os == [] then None
    else
      var init, last := os[..|os| - 1], VersionsOf(os[|os| - 1]);
      if k in last && last[k].names.Some? then last[k].names else LastNames(init, k)
  }

  /** The creation time that the last occurrence with a time for `k` gives it. */
  function LastCreated(os: seq<Occurrence>, k: string): Option<Time>
    decreases |os|
  {
    if os == [] then None
    else
      var init, last := os[..|os| - 1], VersionsOf(os[|os| - 1]);
      if k in last && last[k].created.Some? then last[k].created else LastCreated(init, k)
  }

  /** The batch as versions: each field is the last one that was set, over the occurrences in order. */
  function Merged(os: seq<Occurrence>): map<string, Version> {
    map k | k in Keys(os) :: Version(k, LastNames(os, k), LastCreated(os, k))
  }

  /** Updates an entry in place: fields that are set replace those it has. */
  function Update(existing: Version, newer: Version): Version {
    existing.(created := if newer.created.Some? then newer.created else existing.created,
    names := if newer.names.Some? then newer.names else existing.names)
  }

  /** The entries of `newer` in `done`, put into `versions`. */
  function PutAll(versions: map<string, Version>, newer: map<string, Version>, done: set<string>): map<string, Version>
    requires done <= newer.Keys
  {
    map k | k in versions.Keys + done ::
      if k !in done then versions[k]
      else if k in versions then Update(versions[k], newer[k])
      else newer[k]
  }

  lemma PutOne(base: map<string, Version>, newer: map<string, Version>, done: set<string>, k: string)
    requires done <= newer.Keys && k in newer && k !in done
    ensures var before := PutAll(base, newer, done);
            (k in before <==> k in base) &&
            PutAll(base, newer, done + {k}) == before[k := if k in base then Update(before[k], newer[k]) else newer[k]]
  {
  }

  lemma KeysOneMore(os: seq<Occurrence>, i: nat)
    requires i < |os|
    ensures Keys(os[..i + 1]) == Keys(os[..i]) + Named(os[i])
  {
    assert os[..i + 1] == os[..i] + [os[i]];
  }

  lemma {:induction false} AbsentHasNoFields(os: seq<Occurrence>, k: string)
    requires k !in Keys(os)
    ensures LastNames(os, k) == None && LastCreated(os, k) == None
    decreases |os|
  {
    if os != [] {
      var n := |os| - 1;
      KeysOneMore(os, n);
      assert os[..n + 1] == os;
      VersionsOfMeans(os[n]);
      AbsentHasNoFields(os[..n], k);
    }
  }

  lemma {:induction false} LastOneMore(os: seq<Occurrence>, i: nat, k: string)
    requires i < |os|
    ensures var newer := VersionsOf(os[i]);
            LastNames(os[..i + 1], k) ==
            (if k in newer && newer[k].names.Some? then newer[k].names else LastNames(os[..i], k)) &&
            LastCreated(os[..i + 1], k) ==
            (if k in newer && newer[k].created.Some? then newer[k].created else LastCreated(os[..i], k))
  {
    hide VersionsOf;
    assert os[..i + 1][..i] == os[..i];
  }

  /** One more occurrence, put in entry by entry, gives the merge of one more occurrence. */
  lemma MergeOneMore(os: seq<Occurrence>, i: nat)
    requires i < |os|
    ensures var newer := VersionsOf(os[i]);
            PutAll(Merged(os[..i]), newer, newer.Keys) == Merged(os[..i + 1])
  {
    var newer := VersionsOf(os[i]);
    VersionsOfMeans(os[i]);
    KeysOneMore(os, i);
    hide LastNames, LastCreated, VersionsOf, Keys;
    var l, r := PutAll(Merged(os[..i]), newer, newer.Keys), Merged(os[..i + 1]);
    assert l.Keys == r.Keys;
    forall k | k in r ensures l[k] == r[k] {
      LastOneMore(os, i, k);
      if k !in Keys(os[..i]) {
        AbsentHasNoFields(os[..i], k);
      }
    }
  }

  /** Names come with a creation time, when every occurrence of the batch has one. */
  lemma {:induction false} NamesComeWithTime(os: seq<Occurrence>, k: string)
    requires forall o | o in os :: o.createTime.Some?
    ensures LastNames(os, k).Some? ==> LastCreated(os, k).Some?
    decreases |os|
  {
    if os != [] {
      var n := |os| - 1;
      VersionsOfMeans(os[n]);
      assert os[n] in os;
      NamesComeWithTime(os[..n], k);
    }
  }

  // ----- what a batch writes -----

  predicate NoDuplicates<T(==)>(s: seq<T>) {
    forall i, j | 0 <= i < j < |s| :: s[i] != s[j]
  }

  /** A version is written when it is new or brings names. */
  predicate Rewrites(docs: Docs<ResourceDoc>, k: string, v: Version) {
    k !in docs || (v.names.Some? && v.names.value != [])
  }

  /** The times at which new versions of one request are stamped, by version id. */
  type Clock = string -> Time

  /** A new version without a time gets the current one. */
  function Finished(docs: Docs<ResourceDoc>, k: string, v: Version, clock: Clock): Version {
    if k !in docs && v.created.None? then v.(created := Some(clock(k))) else v
  }

  /** The index after the versions are stored; `parents` are the ids of the resources they belong to. */
  function WithVersions(docs: Docs<ResourceDoc>, merged: map<string, Version>, parents: map<string, string>,
                        clock: Clock)
    : Docs<ResourceDoc>
    requires merged.Keys <= parents.Keys
  {
    map k | k in docs.Keys + merged.Keys :: VersionAt(docs, k, merged, parents, clock)
  }

  function VersionAt(docs: Docs<ResourceDoc>, k: string, merged: map<string, Version>, parents: map<string, string>,
                     clock: Clock)
    : Doc<ResourceDoc>
    requires merged.Keys <= parents.Keys && (k in docs || k in merged)
  {
    if k in merged && Rewrites(docs, k, merged[k]) then
      Doc(Stored(Finished(docs, k, merged[k], clock)), Some(parents[k]), if k in docs then docs[k].version + 1 else 1)
    else docs[k]
  }

  /** The position of the first occurrence of the batch that belongs to resource `k`. */
  function FirstOf(parts: seq<UriComponents>, k: string): (i: nat)
    requires exists i :: 0 <= i < |parts| && parts[i].prefixedName == k
    ensures i < |parts| && parts[i].prefixedName == k && forall j | 0 <= j < i :: parts[j].prefixedName != k
  {
    if parts[0].prefixedName == k then 0 else 1 + FirstOf(parts[1..], k)
  }

  function ResourceIds(parts: seq<UriComponents>): set<string> {
    set i | 0 <= i < |parts| :: parts[i].prefixedName
  }

  /** The resource that a batch makes for the id `k`: that of the first occurrence that belongs to it. */
  function ResourceFor(os: seq<Occurrence>, parts: seq<UriComponents>, k: string): Resource
    requires |os| == |parts| && k in ResourceIds(parts)
  {
    var i := FirstOf(parts, k);
    Resource(parts[i].name, parts[i].resourceType, os[i].createTime)
  }

  /** The index after the resources are stored: only those it did not hold are added. */
  function WithResources(docs: Docs<ResourceDoc>, os: seq<Occurrence>, parts: seq<UriComponents>): Docs<ResourceDoc>
    requires |os| == |parts|
  {
    map k | k in docs.Keys + ResourceIds(parts) ::
      if k in docs then docs[k] else Doc(ResourceDoc(ResourceFor(os, parts, k)), None, 1)
  }

  // ----- bulk requests over distinct ids -----

  predicate DistinctIds(actions: seq<Action<ResourceDoc>>) {
    forall i, j | 0 <= i < j < |actions| :: actions[i].id != actions[j].id
  }

  predicate Writes(actions: seq<Action<ResourceDoc>>, k: string) {
    exists i :: 0 <= i < |actions| && actions[i].id == k
  }

  /** `docs'` is `docs` with the actions' documents written over it. */
  ghost predicate Overlaid(docs: Docs<ResourceDoc>, actions: seq<Action<ResourceDoc>>, docs': Docs<ResourceDoc>) {
    && (forall i | 0 <= i < |actions| ::
          var a := actions[i];
          a.id in docs' && docs'[a.id] == Doc(a.source, a.parent, if a.id in docs then docs[a.id].version + 1 else 1))
    && (forall k | !Writes(actions, k) :: (k in docs' <==> k in docs) && (k in docs ==> docs'[k] == docs[k]))
  }

  /** Indexing distinct ids succeeds, writes each of them, and leaves the others. */
  lemma {:induction false} BulkOfDistinct(docs: Docs<ResourceDoc>, actions: seq<Action<ResourceDoc>>)
    requires DistinctIds(actions) && forall i | 0 <= i < |actions| :: actions[i].op == BulkIndex
    ensures ApplyBulk(docs, actions).Some? && Overlaid(docs, actions, ApplyBulk(docs, actions).value)
    decreases |actions|
  {
    if actions != [] {
      var a, rest := actions[0], actions[1..];
      var docs1 := Overwritten(docs, a.id, a.source, a.parent);
      BulkOfDistinct(docs1, rest);
      var docs' := ApplyBulk(docs1, rest).value;
      assert forall i | 0 <= i < |rest| :: rest[i] == actions[i + 1] && rest[i].id != a.id;
      assert !Writes(rest, a.id);
      forall i | 0 <= i < |actions|
        ensures var b := actions[i];
                b.id in docs' &&
                docs'[b.id] == Doc(b.source, b.parent, if b.id in docs then docs[b.id].version + 1 else 1)
      {
        if i > 0 {
          assert rest[i - 1] == actions[i];
        }
      }
      forall k | !Writes(actions, k) ensures (k in docs' <==> k in docs) && (k in docs ==> docs'[k] == docs[k]) {
        assert actions[0].id != k;
        assert !Writes(rest, k);
      }
    }
  }

  /** The bulk items for the version ids, in order. */
  function VersionActions(docs: Docs<ResourceDoc>, ids: seq<string>, merged: map<string, Version>,
                          parents: map<string, string>, clock: Clock)
    : (actions: seq<Action<ResourceDoc>>)
    requires forall k | k in ids :: k in merged && k in parents
    ensures forall i | 0 <= i < |actions| :: actions[i].id in ids
    decreases |ids|
  {
    if ids == [] then [] else
      var k := ids[|ids| - 1];
      var init := VersionActions(docs, ids[..|ids| - 1], merged, parents, clock);
      if Rewrites(docs, k, merged[k]) then init + [VersionAction(docs, k, merged[k], parents[k], clock)] else init
  }

  function VersionAction(docs: Docs<ResourceDoc>, k: string, v: Version, parent: string,
                         clock: Clock): Action<ResourceDoc> {
    Action(BulkIndex, k, Stored(Finished(docs, k, v, clock)), Some(parent))
  }

  lemma {:induction false} VersionActionsAre(docs: Docs<ResourceDoc>, ids: seq<string>, merged: map<string, Version>,
                                             parents: map<string, string>, clock: Clock)
    requires NoDuplicates(ids) && forall k | k in ids :: k in merged && k in parents
    ensures var actions := VersionActions(docs, ids, merged, parents, clock);
            DistinctIds(actions) &&
            (forall i | 0 <= i < |actions| ::
               Rewrites(docs, actions[i].id, merged[actions[i].id]) &&
               actions[i]
               == VersionAction(docs, actions[i].id, merged[actions[i].id], parents[actions[i].id], clock)) &&
            (forall k :: Writes(actions, k) <==> k in ids && Rewrites(docs, k, merged[k]))
    decreases |ids|
  {
    if ids != [] {
      var n := |ids| - 1;
      VersionActionsAre(docs, ids[..n], merged, parents, clock);
      var before := VersionActions(docs, ids[..n], merged, parents, clock);
      var actions := VersionActions(docs, ids, merged, parents, clock);
      OneMoreWrite(before, actions);
    }
  }

  lemma OneMoreWrite(before: seq<Action<ResourceDoc>>, actions: seq<Action<ResourceDoc>>)
    requires actions == before || (|actions| == |before| + 1 && actions[..|before|] == before)
    ensures forall k :: Writes(actions, k) <==>
              Writes(before, k) || (|actions| > |before| && actions[|before|].id == k)
  {
    forall k ensures Writes(actions, k) <==> Writes(before, k) || (|actions| > |before| && actions[|before|].id == k) {
      if Writes(before, k) {
        var i :| 0 <= i < |before| && before[i].id == k;
        assert actions[i].id == k;
      }
      if Writes(actions, k) && actions != before {
        var i :| 0 <= i < |actions| && actions[i].id == k;
        assert i < |before| ==> before[i].id == k;
      }
    }
  }

  /** Sending those items gives the index with the versions. */
  lemma {:induction false} VersionsBulk(docs: Docs<ResourceDoc>, ids: seq<string>, merged: map<string, Version>,
                     parents: map<string, string>, clock: Clock)
    requires NoDuplicates(ids) && (forall k :: k in ids <==> k in merged) && parents.Keys == merged.Keys
    ensures ApplyBulk(docs, VersionActions(docs, ids, merged, parents, clock)) ==
            Some(WithVersions(docs, merged, parents, clock))
  {
    var actions := VersionActions(docs, ids, merged, parents, clock);
    VersionActionsAre(docs, ids, merged, parents, clock);
    BulkOfDistinct(docs, actions);
    var l, r := ApplyBulk(docs, actions).value, WithVersions(docs, merged, parents, clock);
    hide ApplyBulk, VersionActions, Overlaid, WithVersions, VersionAt, Writes, Rewrites, VersionAction, NoDuplicates;
    forall k ensures (k in l <==> k in r) && (k in l ==> l[k] == r[k]) {
      VersionsBulkAt(docs, actions, merged, parents, clock, l, k);
    }
    SameMap(l, r);
  }

  lemma SameMap<K, V>(l: map<K, V>, r: map<K, V>)
    requires forall k :: (k in l <==> k in r) && (k in l ==> l[k] == r[k])
    ensures l == r
  {
  }

  lemma VersionsBulkAt(docs: Docs<ResourceDoc>, actions: seq<Action<ResourceDoc>>, merged: map<string, Version>,
                       parents: map<string, string>, clock: Clock, docs': Docs<ResourceDoc>, k: string)
    requires merged.Keys == parents.Keys && Overlaid(docs, actions, docs')
    requires Writes(actions, k) <==> k in merged && Rewrites(docs, k, merged[k])
    requires forall i | 0 <= i < |actions| :: actions[i].id in merged &&
               actions[i] == VersionAction(docs, actions[i].id, merged[actions[i].id], parents[actions[i].id], clock)
    ensures var r := WithVersions(docs, merged, parents, clock);
            (k in docs' <==> k in r) && (k in docs' ==> docs'[k] == r[k])
  {
    if Writes(actions, k) {
      var i :| 0 <= i < |actions| && actions[i].id == k;
      assert docs'[actions[i].id].source == actions[i].source;
    }
  }

  /** The bulk items for the resource ids, in order. */
  function ResourceActions(docs: Docs<ResourceDoc>, ids: seq<string>, resources: map<string, Resource>)
    : (actions: seq<Action<ResourceDoc>>)
    requires forall k | k in ids :: k in resources
    decreases |ids|
  {
    if ids == [] then [] else
      var k := ids[|ids| - 1];
      var init := ResourceActions(docs, ids[..|ids| - 1], resources);
      if k in docs then init else init + [Action(BulkIndex, k, ResourceDoc(resources[k]), None)]
  }

  lemma {:induction false} ResourceActionsAre(docs: Docs<ResourceDoc>, ids: seq<string>,
                                              resources: map<string, Resource>)
    requires NoDuplicates(ids) && forall k | k in ids :: k in resources
    ensures var actions := ResourceActions(docs, ids, resources);
            DistinctIds(actions) &&
            (forall i | 0 <= i < |actions| ::
               actions[i].id in ids && actions[i].id !in docs &&
               actions[i] == Action(BulkIndex, actions[i].id, ResourceDoc(resources[actions[i].id]), None)) &&
            (forall k :: Writes(actions, k) <==> k in ids && k !in docs)
    decreases |ids|
  {
    if ids != [] {
      var n := |ids| - 1;
      ResourceActionsAre(docs, ids[..n], resources);
      var before := ResourceActions(docs, ids[..n], resources);
      var actions := ResourceActions(docs, ids, resources);
      OneMoreWrite(before, actions);
    }
  }

  lemma {:induction false} ResourcesBulk(docs: Docs<ResourceDoc>, ids: seq<string>, resources: map<string, Resource>,
                      os: seq<Occurrence>, parts: seq<UriComponents>)
    requires NoDuplicates(ids) && (forall k :: k in ids <==> k in resources)
    requires |os| == |parts| && resources.Keys == ResourceIds(parts)
    requires forall k | k in resources :: resources[k] == ResourceFor(os, parts, k)
    ensures ApplyBulk(docs, ResourceActions(docs, ids, resources)) == Some(WithResources(docs, os, parts))
  {
    var actions := ResourceActions(docs, ids, resources);
    ResourceActionsAre(docs, ids, resources);
    BulkOfDistinct(docs, actions);
    var l, r := ApplyBulk(docs, actions).value, WithResources(docs, os, parts);
    hide ApplyBulk, ResourceActions, Overlaid, Writes, ResourceFor, NoDuplicates;
    forall k ensures (k in l <==> k in r) && (k in l ==> l[k] == r[k]) {
      ResourcesBulkAt(docs, actions, resources, l, k);
    }
    SameMap(l, r);
  }

  lemma ResourcesBulkAt(docs: Docs<ResourceDoc>, actions: seq<Action<ResourceDoc>>, resources: map<string, Resource>,
                        docs': Docs<ResourceDoc>, k: string)
    requires Overlaid(docs, actions, docs')
    requires Writes(actions, k) <==> k in resources && k !in docs
    requires forall i | 0 <= i < |actions| :: actions[i].id in resources && actions[i].id !in docs &&
               actions[i] == Action(BulkIndex, actions[i].id, ResourceDoc(resources[actions[i].id]), None)
    ensures k in docs' <==> k in docs || k in resources
    ensures k in docs' ==> docs'[k] == if k in docs then docs[k] else Doc(ResourceDoc(resources[k]), None, 1)
  {
    if Writes(actions, k) {
      var i :| 0 <= i < |actions| && actions[i].id == k;
      assert docs'[actions[i].id].source == actions[i].source;
    }
  }

  /** Appending an occurrence leaves the resources of the earlier ones, and adds one where there was none. */
  lemma ResourceOneMore(os: seq<Occurrence>, parts: seq<UriComponents>, part: UriComponents)
    requires |parts| < |os|
    ensures var i := |parts|;
            var k := part.prefixedName;
            ResourceIds(parts + [part]) == ResourceIds(parts) + {k} &&
            (forall j | j in ResourceIds(parts) ::
               ResourceFor(os[..i + 1], parts + [part], j) == ResourceFor(os[..i], parts, j)) &&
            (k !in ResourceIds(parts) ==>
               ResourceFor(os[..i + 1], parts + [part], k) == Resource(part.name, part.resourceType, os[i].createTime))
  {
    var i, more := |parts|, parts + [part];
    forall j | j in ResourceIds(parts) ensures j in ResourceIds(more) && FirstOf(more, j) == FirstOf(parts, j) {
      FirstStays(parts, part, j);
    }
    assert more[i] == part;
    assert forall j | 0 <= j < i :: more[j] == parts[j] && parts[j].prefixedName in ResourceIds(parts);
  }

  lemma {:induction false} FirstStays(parts: seq<UriComponents>, part: UriComponents, k: string)
    requires k in ResourceIds(parts)
    ensures k in ResourceIds(parts + [part]) && FirstOf(parts + [part], k) == FirstOf(parts, k)
  {
    var more := parts + [part];
    var i :| 0 <= i < |parts| && parts[i].prefixedName == k;
    assert more[i].prefixedName == k;
    var f, g := FirstOf(parts, k), FirstOf(more, k);
    assert more[f] == parts[f];
    assert g <= f;
    assert parts[g] == more[g];
  }

  // ----- the manager -----

  /** A document read as a version. */
  function AsVersion(doc: ResourceDoc): ResourceDoc {
    match doc
    case VersionDoc(_, _, _) => doc
    case ResourceDoc(r) => VersionDoc("", [], r.created)
  }

  function FindResourceVersion(docs: Docs<ResourceDoc>, uri: string): (r: Result<ResourceDoc>)
    ensures r.Err? ==> r.code == Internal || r.code == NotFound
  {
    if Unparseable(uri) then Err(Internal)
    else if uri !in docs then Err(NotFound)
    else Ok(AsVersion(docs[uri].source))
  }

  /** Queued items that say what the actions say. */
  ghost predicate Queued(items: seq<BulkItem<ResourceDoc>>, actions: seq<Action<ResourceDoc>>)
    reads Messages(items)
  {
    |items| == |actions| &&
    forall i | 0 <= i < |items| ::
      assert items[i].message in Messages(items);
      items[i].op == actions[i].op && items[i].id == actions[i].id && items[i].parent == actions[i].parent &&
      items[i].message.v == actions[i].source
  }

  lemma QueueOne(items: seq<BulkItem<ResourceDoc>>, actions: seq<Action<ResourceDoc>>,
                 item: BulkItem<ResourceDoc>, action: Action<ResourceDoc>)
    requires Queued(items, actions)
    requires action == Action(item.op, item.id, item.message.v, item.parent)
    ensures Queued(items + [item], actions + [action])
    ensures Messages(items + [item]) == Messages(items) + {item.message}
  {
    var more := items + [item];
    assert more[|items|] == item;
    assert forall i | 0 <= i < |items| :: more[i] == items[i];
    forall i | 0 <= i < |items| ensures items[i].message in Messages(items) {
    }
  }

  lemma {:induction false} QueuedIsSent(items: seq<BulkItem<ResourceDoc>>, actions: seq<Action<ResourceDoc>>)
    requires Queued(items, actions)
    ensures Marshalled(items) == actions
  {
  }

  lemma {:induction false} ResourceActionsOneMore(docs: Docs<ResourceDoc>, ids: seq<string>, i: nat,
                                                  resources: map<string, Resource>)
    requires i < |ids| && forall k | k in ids :: k in resources
    ensures ResourceActions(docs, ids[..i + 1], resources) ==
            ResourceActions(docs, ids[..i], resources) +
            if ids[i] in docs then [] else [Action(BulkIndex, ids[i], ResourceDoc(resources[ids[i]]), None)]
  {
    assert ids[..i + 1][..i] == ids[..i];
  }

  class ResourceManager {
    const resources: Index<ResourceDoc>

    constructor (resources: Index<ResourceDoc>)
      ensures this.resources == resources
    {
      this.resources := resources;
    }

    /** The first loop of BatchCreateResources: the first occurrence that belongs to a resource provides it. */
    method CollectResources(os: seq<Occurrence>)
      returns (r: Result<seq<string>>, found: map<string, Resource>, ghost parts: seq<UriComponents>)
      ensures r.Err? <==> exists i :: 0 <= i < |os| && Unparseable(os[i].uri)
      ensures r.Ok? ==>
                |parts| == |os| && (forall i | 0 <= i < |os| :: PossibleParse(os[i].uri, parts[i])) &&
                NoDuplicates(r.value) && (forall k :: k in r.value <==> k in found) &&
                found.Keys == ResourceIds(parts) && forall k | k in found :: found[k] == ResourceFor(os, parts, k)
    {
      hide Matches, Match, Components, Unparseable, PossibleParse, ResourceFor, ResourceIds;
      found, parts := map[], [];
      var ids: seq<string> := [];
      NoResources();
      for i := 0 to |os|
        invariant |parts| == i && forall j | 0 <= j < i :: PossibleParse(os[j].uri, parts[j]) && !Unparseable(os[j].uri)
        invariant NoDuplicates(ids) && forall k :: k in ids <==> k in found
        invariant found.Keys == ResourceIds(parts)
        invariant forall k | k in found :: found[k] == ResourceFor(os[..i], parts, k)
      {
        var parsed := ParseResourceUri(os[i].uri);
        if parsed.Err? {
          return Err(Internal), found, parts;
        }
        var part := parsed.value;
        var resource := Resource(part.name, part.resourceType, os[i].createTime);
        ResourceOneMore(os, parts, part);
        parts := parts + [part];
        if part.prefixedName !in found {
          found := found[part.prefixedName := resource];
          ids := ids + [part.prefixedName];
        }
      }
      assert os[..|os|] == os;
      r := Ok(ids);
    }

    method BatchCreateResources(os: seq<Occurrence>) returns (r: Result<()>, ghost parts: seq<UriComponents>)
      modifies resources
      ensures r.Err? <==> exists i :: 0 <= i < |os| && Unparseable(os[i].uri)
      ensures r.Err? ==> resources.docs == old(resources.docs)
      ensures r.Ok? ==>
                |parts| == |os| && (forall i | 0 <= i < |os| :: PossibleParse(os[i].uri, parts[i])) &&
                resources.docs == WithResources(old(resources.docs), os, parts)
    {
      hide Unparseable, PossibleParse, ResourceFor, ResourceIds, WithResources, NoDuplicates, ResourceActions;
      var ids, batch;
      ids, batch, parts := CollectResources(os);
      if ids.Err? {
        return Err(Internal), parts;
      }
      var resourceIds := ids.value;
      var found := resources.MultiGet(resourceIds);
      var items: seq<BulkItem<ResourceDoc>> := [];
      ghost var actions: seq<Action<ResourceDoc>> := [];
      NoResourceActions(resources.docs, batch);
      for i := 0 to |resourceIds|
        invariant resources.docs == old(resources.docs)
        invariant Queued(items, actions) && fresh(Messages(items))
        invariant actions == ResourceActions(resources.docs, resourceIds[..i], batch)
      {
        var resourceId := resourceIds[i];
        ResourceActionsOneMore(resources.docs, resourceIds, i, batch);
        if found[i].None? {
          var message := new Ref(ResourceDoc(batch[resourceId]));
          var item := BulkItem(BulkIndex, resourceId, message, None);
          ghost var action := Action(BulkIndex, resourceId, ResourceDoc(batch[resourceId]), None);
          QueueOne(items, actions, item, action);
          items := items + [item];
          actions := actions + [action];
        }
      }
      assert resourceIds[..|resourceIds|] == resourceIds;
      ResourcesBulk(resources.docs, resourceIds, batch, os, parts);
      QueuedIsSent(items, actions);
      if items != [] {
        var _ := resources.Bulk(items);
      }
      r := Ok(());
    }

    method GetResourceVersion(uri: string) returns (r: Result<ResourceDoc>)
      ensures r == FindResourceVersion(resources.docs, uri)
    {
      var parsed := ParseResourceUri(uri);
      if parsed.Err? {
        return Err(Internal);
      }
      var source := resources.Get(uri);
      match source {
        case None => r := Err(NotFound);
        case Some(doc) => r := Ok(AsVersion(doc));
      }
    }

    method VersionsFromOccurrence(o: Occurrence) returns (result: map<string, Version>)
      ensures result == VersionsOf(o)
    {
      result := map[o.uri := Version(o.uri, None, None)];
      if o.build.Some? {
        var artifacts := o.build.value;
        for i := 0 to |artifacts|
          invariant result == VersionsUpTo(o, i)
        {
          var artifact := artifacts[i];
          result := result[artifact.id := Version(artifact.id, artifact.names, o.createTime)];
        }
      }
    }

    /** The first loop of BatchCreateResourceVersions. The entries of one occurrence come in whatever order its map
        is iterated in; the merge does not depend on it, the order of the ids does. */
    method MergeOccurrences(os: seq<Occurrence>) returns (versions: map<string, Version>, versionIds: seq<string>)
      ensures versions == Merged(os)
      ensures NoDuplicates(versionIds) && forall k :: k in versionIds <==> k in Keys(os)
    {
      versions, versionIds := map[], [];
      for i := 0 to |os|
        invariant versions == Merged(os[..i])
        invariant NoDuplicates(versionIds) && forall k :: k in versionIds <==> k in versions
      {
        var newer := VersionsFromOccurrence(os[i]);
        versions, versionIds := MergeEntries(versions, versionIds, newer);
        MergeOneMore(os, i);
      }
      assert os[..|os|] == os;
    }

    method MergeEntries(base: map<string, Version>, ids: seq<string>, newer: map<string, Version>)
      returns (versions: map<string, Version>, versionIds: seq<string>)
      requires NoDuplicates(ids) && forall k :: k in ids <==> k in base
      ensures versions == PutAll(base, newer, newer.Keys)
      ensures NoDuplicates(versionIds) && forall k :: k in versionIds <==> k in versions
    {
      versions, versionIds := base, ids;
      var pending := newer.Keys;
      while pending != {}
        invariant pending <= newer.Keys
        invariant versions == PutAll(base, newer, newer.Keys - pending)
        invariant NoDuplicates(versionIds) && forall k :: k in versionIds <==> k in versions
      {
        var versionId :| versionId in pending;
        PutOne(base, newer, newer.Keys - pending, versionId);
        assert newer.Keys - (pending - {versionId}) == newer.Keys - pending + {versionId};
        pending := pending - {versionId};
        var newVersion := newer[versionId];
        if versionId in versions {
          if newVersion.created.Some? {
            versions := versions[versionId := versions[versionId].(created := newVersion.created)];
          }
          if newVersion.names.Some? {
            versions := versions[versionId := versions[versionId].(names := newVersion.names)];
          }
        } else {
          versions := versions[versionId := newVersion];
          versionIds := versionIds + [versionId];
        }
      }
    }

    /** The part of the second loop that decides about one version. The item is made first; a missing creation time is
        put on its message afterwards. */
    method VersionItem(versionId: string, version: Version, found: bool, parent: string, clock: Clock,
                       ghost docs: Docs<ResourceDoc>)
      returns (item: Option<BulkItem<ResourceDoc>>)
      requires found == (versionId in docs)
      ensures item.Some? <==> Rewrites(docs, versionId, version)
      ensures item.Some? ==>
                fresh(item.value.message) &&
                Action(item.value.op, item.value.id, item.value.message.v, item.value.parent) ==
                VersionAction(docs, versionId, version, parent, clock)
    {
      var message := new Ref(Stored(version));
      item := Some(BulkItem(BulkIndex, versionId, message, Some(parent)));
      if found {
        if version.names.None? || version.names.value == [] {
          item := None; // nothing to add to the stored version
        }
      } else if version.created.None? {
        message.v := Stored(version.(created := Some(clock(versionId))));
      }
    }

    /** The second loop: a URI that does not parse ends it before anything is sent. */
    method VersionItems(versionIds: seq<string>, versions: map<string, Version>, clock: Clock)
      returns (r: Result<seq<BulkItem<ResourceDoc>>>, ghost parents: map<string, string>,
               ghost actions: seq<Action<ResourceDoc>>)
      requires NoDuplicates(versionIds) && forall k :: k in versionIds <==> k in versions
      ensures r.Err? <==> exists k :: k in versions && Unparseable(k)
      ensures r.Ok? ==>
                parents.Keys == versions.Keys && (forall k | k in parents :: IsParent(k, parents[k])) &&
                actions == VersionActions(resources.docs, versionIds, versions, parents, clock) &&
                Queued(r.value, actions) && fresh(Messages(r.value))
    {
      hide Matches, Match, Components, Rewrites, VersionAction, NoDuplicates, VersionActions, Unparseable;
      var found := resources.MultiGet(versionIds);
      parents, actions := map[], [];
      var items: seq<BulkItem<ResourceDoc>> := [];
      NoActions(resources.docs, versions, clock);
      for i := 0 to |versionIds|
        invariant forall k :: k in parents <==> k in versionIds[..i]
        invariant forall k | k in parents :: IsParent(k, parents[k]) && !Unparseable(k)
        invariant Queued(items, actions) && fresh(Messages(items))
        invariant forall k | k in versionIds[..i] :: k in versions && k in parents
        invariant actions == VersionActions(resources.docs, versionIds[..i], versions, parents, clock)
      {
        var versionId := versionIds[i];
        var parsed := ParseResourceUri(versionId);
        if parsed.Err? {
          return Err(Internal), parents, actions;
        }
        var parent := parsed.value.prefixedName;
        VersionActionsOneMore(resources.docs, versionIds, i, versions, parents, parent, clock);
        assert versionIds[..i + 1] == versionIds[..i] + [versionId];
        parents := parents[versionId := parent];
        var item := VersionItem(versionId, versions[versionId], found[i].Some?, parent, clock, resources.docs);
        if item.Some? {
          ghost var action := VersionAction(resources.docs, versionId, versions[versionId], parent, clock);
          QueueOne(items, actions, item.value, action);
          items := items + [item.value];
          actions := actions + [action];
        }
      }
      assert versionIds[..|versionIds|] == versionIds;
      r := Ok(items);
    }

    /** `parents` records which resource each version was stored under. */
    method BatchCreateResourceVersions(os: seq<Occurrence>, clock: Clock)
      returns (r: Result<()>, ghost parents: map<string, string>)
      modifies resources
      ensures r.Err? <==> exists k :: k in Keys(os) && Unparseable(k)
      ensures r.Err? ==> resources.docs == old(resources.docs)
      ensures r.Ok? ==>
                parents.Keys == Keys(os) &&
                (forall k | k in parents :: IsParent(k, parents[k])) &&
                resources.docs == WithVersions(old(resources.docs), Merged(os), parents, clock)
    {
      hide WithVersions, LastNames, LastCreated, VersionActions, NoDuplicates, Unparseable, IsParent;
      var versions, versionIds := MergeOccurrences(os);
      var items;
      ghost var actions;
      items, parents, actions := VersionItems(versionIds, versions, clock);
      if items.Err? {
        return Err(Internal), parents;
      }
      VersionsBulk(resources.docs, versionIds, versions, parents, clock);
      QueuedIsSent(items.value, actions);
      if items.value != [] {
        var _ := resources.Bulk(items.value);
      }
      r := Ok(());
    }
  }

  lemma NoResources()
    ensures ResourceIds([]) == {}
  {
  }

  lemma {:induction false} NoResourceActions(docs: Docs<ResourceDoc>, resources: map<string, Resource>)
    ensures ResourceActions(docs, [], resources) == []
  {
  }

  lemma {:induction false} NoActions(docs: Docs<ResourceDoc>, merged: map<string, Version>, clock: Clock)
    ensures VersionActions(docs, [], merged, map[], clock) == []
  {
  }

  lemma {:induction false} VersionActionsOneMore(docs: Docs<ResourceDoc>, ids: seq<string>, i: nat,
                                                 merged: map<string, Version>, parents: map<string, string>,
                                                 parent: string, clock: Clock)
    requires i < |ids| && NoDuplicates(ids) && ids[i] in merged
    requires forall k | k in ids[..i] :: k in merged && k in parents
    ensures var k, parents' := ids[i], parents[ids[i] := parent];
            (forall j | j in ids[..i + 1] :: j in merged && j in parents') &&
            VersionActions(docs, ids[..i + 1], merged, parents', clock) ==
            VersionActions(docs, ids[..i], merged, parents, clock) +
            if Rewrites(docs, k, merged[k]) then [VersionAction(docs, k, merged[k], parent, clock)] else []
  {
    assert ids[..i + 1] == ids[..i] + [ids[i]];
    assert ids[..i + 1][..i] == ids[..i];
    SameParents(docs, ids[..i], merged, parents, parents[ids[i] := parent], clock);
  }

  lemma {:induction false} SameParents(docs: Docs<ResourceDoc>, ids: seq<string>, merged: map<string, Version>,
                                       parents: map<string, string>, parents': map<string, string>, clock: Clock)
    requires forall k | k in ids :: k in merged && k in parents && k in parents' && parents'[k] == parents[k]
    ensures VersionActions(docs, ids, merged, parents, clock) == VersionActions(docs, ids, merged, parents', clock)
    decreases |ids|
  {
    if ids != [] {
      SameParents(docs, ids[..|ids| - 1], merged, parents, parents', clock);
    }
  }

  /** A resource id the parser may give for a version id. */
  ghost predicate IsParent(versionId: string, resourceId: string) {
    exists parts :: PossibleParse(versionId, parts) && parts.prefixedName == resourceId
  }
}
