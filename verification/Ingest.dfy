/** Creating occurrences (server/server.go) and what any sequence of requests that do not overlap does to the resource
    index; IngestSteps has those that do. */
module Ingest {
  import opened Wrappers
  import opened Text
  import opened Elastic
  import opened Uris
  import opened Grafeas
  import opened Resources

  /** What one request stores, with the parses it happened to use; an incomplete one failed on an artifact's URI
      after its resources were stored. */
  datatype Batch = Batch(
    os: seq<Occurrence>, parts: seq<UriComponents>, parents: map<string, string>, clock: Clock, complete: bool)

  ghost predicate Legal(b: Batch) {
    && |b.parts| == |b.os| && (forall i | 0 <= i < |b.os| :: PossibleParse(b.os[i].uri, b.parts[i]))
    && (b.complete ==> b.parents.Keys == Keys(b.os) && forall k | k in b.parents :: IsParent(k, b.parents[k]))
  }

  function Ingested(docs: Docs<ResourceDoc>, b: Batch): Docs<ResourceDoc>
    requires |b.parts| == |b.os| && (b.complete ==> b.parents.Keys == Keys(b.os))
  {
    var docs1 := WithResources(docs, b.os, b.parts);
    if b.complete then WithVersions(docs1, Merged(b.os), b.parents, b.clock) else docs1
  }

  class RodeServer {
    const resourceManager: ResourceManager

    constructor (resourceManager: ResourceManager)
      ensures this.resourceManager == resourceManager
    {
      this.resourceManager := resourceManager;
    }

    /** `os` are the occurrences Grafeas created. A failure leaves the index as it was, or with the batch's
        resources. */
    method BatchCreateOccurrences(os: seq<Occurrence>, clock: Clock)
      returns (r: Result<seq<Occurrence>>, ghost b: Batch)
      modifies resourceManager.resources
      ensures var docs, docs' := old(resourceManager.resources.docs), resourceManager.resources.docs;
              (r.Ok? <==> forall k | k in Keys(os) :: !Unparseable(k)) &&
              (r.Ok? ==> r.value == os && b.os == os && b.complete && Legal(b) && docs' == Ingested(docs, b)) &&
              (r.Err? ==> docs' == docs || (b.os == os && !b.complete && Legal(b) && docs' == Ingested(docs, b)))
    {
      hide Unparseable, PossibleParse, IsParent, WithResources, WithVersions, Merged;
      var stored;
      ghost var parts;
      ghost var parents: map<string, string> := map[];
      stored, parts := resourceManager.BatchCreateResources(os);
      b := Batch(os, parts, parents, clock, false);
      UrisAreKeys(os);
      if stored.Err? {
        return Err(Internal), b;
      }
      stored, parents := resourceManager.BatchCreateResourceVersions(os, clock);
      if stored.Err? {
        return Err(Internal), b;
      }
      b := Batch(os, parts, parents, clock, true);
      r := Ok(os);
    }
  }

  lemma UrisAreKeys(os: seq<Occurrence>)
    ensures forall i | 0 <= i < |os| :: os[i].uri in Keys(os)
  {
    forall i | 0 <= i < |os| ensures os[i].uri in Keys(os) {
      assert os[i].uri in Named(os[i]);
    }
  }

  // ----- runs -----

  ghost predicate AllLegal(bs: seq<Batch>) {
    forall i | 0 <= i < |bs| :: Legal(bs[i])
  }

  ghost function Run(bs: seq<Batch>): Docs<ResourceDoc>
    requires AllLegal(bs)
    decreases |bs|
  {
    if bs == [] then map[] else Ingested(Run(bs[..|bs| - 1]), bs[|bs| - 1])
  }

  // ----- names are not lost -----

  predicate HasNames(docs: Docs<ResourceDoc>, k: string) {
    k in docs && docs[k].source.VersionDoc? && docs[k].source.names != []
  }

  lemma IngestKeepsNames(docs: Docs<ResourceDoc>, b: Batch, k: string)
    requires Legal(b) && HasNames(docs, k)
    ensures HasNames(Ingested(docs, b), k)
  {
  }

  /** A stored version that has names never loses them, whatever requests that do not overlap
      follow. */
  lemma {:induction false} NamesAreNeverLost(bs: seq<Batch>, m: nat, k: string)
    requires AllLegal(bs) && m <= |bs| && HasNames(Run(bs[..m]), k)
    ensures HasNames(Run(bs), k)
  {
    hide Ingested, Legal, HasNames;
    if m == |bs| {
      assert bs[..m] == bs;
    } else {
      var n := |bs| - 1;
      assert bs[..n][..m] == bs[..m];
      NamesAreNeverLost(bs[..n], m, k);
      IngestKeepsNames(Run(bs[..n]), bs[n], k);
    }
  }

  // ----- creation times -----

  predicate Timed(doc: ResourceDoc) {
    doc.VersionDoc? ==> doc.created.Some?
  }

  predicate AllTimed(docs: Docs<ResourceDoc>) {
    forall k | k in docs :: Timed(docs[k].source)
  }

  predicate BringsNames(v: Version) {
    v.names.Some? && v.names.value != []
  }

  /** Storing versions keeps every stored version's creation time exactly when no version that is already there is
      rewritten by a merged one without a time. */
  lemma TimesKeptExactly(docs: Docs<ResourceDoc>, merged: map<string, Version>, parents: map<string, string>,
                         clock: Clock)
    requires merged.Keys <= parents.Keys && AllTimed(docs)
    ensures AllTimed(WithVersions(docs, merged, parents, clock)) <==>
            forall k | k in merged && k in docs && BringsNames(merged[k]) :: merged[k].created.Some?
  {
    var docs' := WithVersions(docs, merged, parents, clock);
    if AllTimed(docs') {
      forall k | k in merged && k in docs && BringsNames(merged[k]) ensures merged[k].created.Some? {
        assert Timed(docs'[k].source);
      }
    }
  }

  predicate AllDated(os: seq<Occurrence>) {
    forall o | o in os :: o.createTime.Some?
  }

  lemma IngestKeepsTimes(docs: Docs<ResourceDoc>, b: Batch)
    requires Legal(b) && AllTimed(docs) && AllDated(b.os)
    ensures AllTimed(Ingested(docs, b))
  {
    var docs1 := WithResources(docs, b.os, b.parts);
    forall k | k in docs1 ensures Timed(docs1[k].source) {
      assert k in docs ==> Timed(docs[k].source);
    }
    if b.complete {
      forall k | k in Merged(b.os) && BringsNames(Merged(b.os)[k]) ensures Merged(b.os)[k].created.Some? {
        NamesComeWithTime(b.os, k);
      }
      TimesKeptExactly(docs1, Merged(b.os), b.parents, b.clock);
    }
  }

  /** When all occurrences carry a creation time, so does every stored version, after any sequence of batches. */
  lemma {:induction false} VersionsAreTimed(bs: seq<Batch>)
    requires AllLegal(bs) && forall i | 0 <= i < |bs| :: AllDated(bs[i].os)
    ensures AllTimed(Run(bs))
  {
    if bs != [] {
      var n := |bs| - 1;
      VersionsAreTimed(bs[..n]);
      IngestKeepsTimes(Run(bs[..n]), bs[n]);
    }
  }

  // ----- resources are not rewritten, unless a version has their id -----

  /** The two kinds of document share one index. Storing versions leaves every resource document as it was exactly
      when no version that brings names has the id of a stored resource. */
  lemma ResourcesKeptExactly(docs: Docs<ResourceDoc>, merged: map<string, Version>, parents: map<string, string>,
                             clock: Clock)
    requires merged.Keys <= parents.Keys
    ensures (forall k | k in docs && docs[k].source.ResourceDoc? ::
              WithVersions(docs, merged, parents, clock)[k] == docs[k])
            <==> forall k | k in merged && BringsNames(merged[k]) :: !(k in docs && docs[k].source.ResourceDoc?)
  {
    var docs' := WithVersions(docs, merged, parents, clock);
    forall k | k in docs && docs[k].source.ResourceDoc?
      ensures docs'[k] == docs[k] <==> !(k in merged && BringsNames(merged[k]))
    {
    }
  }

  /** And that can happen: every Docker version URI is also the resource id of longer ones. */
  lemma VersionUriAsResourceId(w: string, digest: string)
    requires w != "" && '\n' !in w && digest != "" && '\n' !in digest && '@' !in digest
    ensures var u := w + "@sha256:" + digest;
            Matches(Docker, u) && Components(Docker, u).prefixedName == w
  {
    var u, at := w + "@sha256:" + digest, |w|;
    assert u[at..at + 8] == "@sha256:";
    assert SplitsAt(u, "@sha256:", 0, at);
    var i := LastSplit(u, "@sha256:", 0, |u|).value;
    assert at <= i && u[i] == '@' by { assert u[i..i + 8][0] == '@'; }
    assert forall j | at < j < |u| :: u[j] != '@' by {
      forall j | at < j < |u| ensures u[j] != '@' {
        if j < at + 8 {
          assert u[j] == "@sha256:"[j - at];
        } else {
          assert u[j] == digest[j - at - 8];
        }
      }
    }
    assert i == at;
    assert MatchLine(Docker, u) == Some((w, digest)) by {
      assert u[0..at] == w && u[at + 8..] == digest;
    }
    assert '\n' !in u;
    assert Split(u, '\n') == [u];
    assert FirstMatch([u]) == u;
  }

  lemma DockerParse(u: string)
    requires Matches(Docker, u)
    ensures PossibleParse(u, Components(Docker, u))
  {
    hide Matches, Components;
  }

  lemma NestedUris() returns (u: string, p1: UriComponents, w: string, p2: UriComponents)
    ensures u != w && PossibleParse(u, p1) && p1.prefixedName == w && PossibleParse(w, p2) && p2.prefixedName != w
    ensures !Ambiguous(u) && !Ambiguous(w)
  {
    hide Matches, Components, PossibleParse, Ambiguous;
    UnambiguousDocker("a", "b");
    w := "a" + "@sha256:" + "b";
    p2 := Components(Docker, w);
    UnambiguousDocker(w, "c");
    u := w + "@sha256:" + "c";
    p1 := Components(Docker, u);
  }

  lemma UnambiguousDocker(w: string, digest: string)
    requires w != "" && w[0] == 'a' && '\n' !in w && digest != "" && '\n' !in digest && '@' !in digest
    ensures var u := w + "@sha256:" + digest;
            Matches(Docker, u) && Components(Docker, u).prefixedName == w && PossibleParse(u, Components(Docker, u)) &&
            !Ambiguous(u) && u != w && u[0] == 'a' && '\n' !in u
  {
    hide Matches, Components, PossibleParse, Ambiguous;
    var u := w + "@sha256:" + digest;
    VersionUriAsResourceId(w, digest);
    DockerParse(u);
    assert |u| > |w| && u[0] == 'a';
    assert '\n' !in "@sha256:";
    StartsWithA(u);
  }

  lemma StartsWithA(u: string)
    requires |u| > 0 && u[0] == 'a' && '\n' !in u
    ensures !Ambiguous(u)
  {
    assert Split(u, '\n') == [u];
    forall t | t in HANDLERS && t != Docker ensures !Matches(t, u) {
      assert Anchor(t)[0] != 'a';
    }
  }

  /** A run in which a stored resource is rewritten: the second batch builds an artifact under the id of the resource
      that the first batch stored. */
  lemma StoredResourceIsRewritten()
    ensures exists bs: seq<Batch>, k :: AllLegal(bs) && |bs| == 2 &&
              k in Run(bs[..1]) && Run(bs[..1])[k].source.ResourceDoc? &&
              k in Run(bs) && Run(bs)[k].source.VersionDoc?
  {
    hide PossibleParse, AllLegal, Run, Ambiguous;
    var u, p1, w, p2 := NestedUris();
    TwoBatches(u, p1, w, p2, _ => 0);
  }

  lemma TwoBatches(u: string, p1: UriComponents, w: string, p2: UriComponents, clock: Clock)
    requires u != w && PossibleParse(u, p1) && p1.prefixedName == w && PossibleParse(w, p2)
    ensures exists bs: seq<Batch>, k :: AllLegal(bs) && |bs| == 2 &&
              k in Run(bs[..1]) && Run(bs[..1])[k].source.ResourceDoc? &&
              k in Run(bs) && Run(bs)[k].source.VersionDoc?
  {
    hide PossibleParse, Ingested;
    var o1 := Occurrence("1", u, Some(0), None);
    var o2 := Occurrence("2", w, Some(0), Some([Artifact(w, Some(["n"]))]));
    var b1 := Batch([o1], [p1], map[u := w], clock, true);
    var b2 := Batch([o2], [p2], map[w := p2.prefixedName], clock, true);
    assert IsParent(u, w) && IsParent(w, p2.prefixedName);
    KeysOfOne(o1);
    KeysOfOne(o2);
    assert o2.build.value[0].id == w;
    OneOccurrence(b1, o1, p1, w);
    OneOccurrence(b2, o2, p2, p2.prefixedName);
    FirstBatchOf(b1, u, w);
    SecondBatchOf(o2, b2, w);
    RunOfTwo(b1, b2);
    hide Legal, Run, Keys, IsParent, AllLegal;
    var bs := [b1, b2];
    assert bs[..1] == [b1];
    assert w in Run(bs[..1]);
  }

  lemma OneOccurrence(b: Batch, o: Occurrence, p: UriComponents, parent: string)
    requires b.os == [o] && b.parts == [p] && PossibleParse(o.uri, p) && b.complete
    requires Keys([o]) == {o.uri} && b.parents == map[o.uri := parent] && IsParent(o.uri, parent)
    ensures Legal(b)
  {
    hide PossibleParse, IsParent, Keys;
  }

  lemma RunOfTwo(b1: Batch, b2: Batch)
    requires Legal(b1) && Legal(b2)
    ensures AllLegal([b1, b2]) && AllLegal([b1])
    ensures Run([b1]) == Ingested(map[], b1) && Run([b1, b2]) == Ingested(Run([b1]), b2)
  {
    hide Ingested, Legal;
    assert [b1, b2][..1] == [b1] && [b1][..0] == [];
  }

  lemma KeysOfOne(o: Occurrence)
    ensures Keys([o]) == Named(o)
  {
    assert o in [o];
  }

  lemma FirstBatchOf(b: Batch, u: string, w: string)
    requires Legal(b) && b.complete && Keys(b.os) == {u} && |b.parts| == 1 && b.parts[0].prefixedName == w && u != w
    ensures var docs := Ingested(map[], b); w in docs && docs[w].source.ResourceDoc?
  {
    assert w in ResourceIds(b.parts);
  }

  lemma SecondBatchOf(o: Occurrence, b: Batch, w: string)
    requires Legal(b) && b.complete && b.os == [o] && Keys(b.os) == {w}
    requires o.build == Some([Artifact(w, Some(["n"]))])
    ensures forall docs | w in docs :: w in Ingested(docs, b) && Ingested(docs, b)[w].source.VersionDoc?
  {
    hide Legal;
    assert VersionsUpTo(o, 1)[w].names == Some(["n"]);
    assert LastNames([o], w) == Some(["n"]);
    assert BringsNames(Merged(b.os)[w]);
  }

  /** The ids that batches may use, split into those of resources and those of versions. */
  predicate Within(b: Batch, resourceIds: set<string>, versionIds: set<string>) {
    ResourceIds(b.parts) <= resourceIds && Keys(b.os) <= versionIds
  }

  /** Each document is of the kind its id is for. */
  predicate Sorted(docs: Docs<ResourceDoc>, resourceIds: set<string>, versionIds: set<string>) {
    forall k | k in docs :: if docs[k].source.ResourceDoc? then k in resourceIds else k in versionIds
  }

  lemma IngestKeepsResources(docs: Docs<ResourceDoc>, b: Batch, resourceIds: set<string>, versionIds: set<string>)
    requires Legal(b) && Within(b, resourceIds, versionIds) && resourceIds !! versionIds
    requires Sorted(docs, resourceIds, versionIds)
    ensures Sorted(Ingested(docs, b), resourceIds, versionIds)
    ensures forall k | k in docs && docs[k].source.ResourceDoc? ::
              k in Ingested(docs, b) && Ingested(docs, b)[k] == docs[k]
  {
    hide LastNames, LastCreated;
  }

  lemma {:induction false} RunIsSorted(bs: seq<Batch>, resourceIds: set<string>, versionIds: set<string>)
    requires AllLegal(bs) && resourceIds !! versionIds
    requires forall i | 0 <= i < |bs| :: Within(bs[i], resourceIds, versionIds)
    ensures Sorted(Run(bs), resourceIds, versionIds)
  {
    if bs != [] {
      var n := |bs| - 1;
      RunIsSorted(bs[..n], resourceIds, versionIds);
      IngestKeepsResources(Run(bs[..n]), bs[n], resourceIds, versionIds);
    }
  }

  /** The batch writes over the document: it stores its versions, and one with this id that brings names. */
  predicate WritesOver(b: Batch, k: string) {
    b.complete && k in Merged(b.os) && BringsNames(Merged(b.os)[k])
  }

  lemma IngestKeepsExactly(docs: Docs<ResourceDoc>, b: Batch, k: string)
    requires Legal(b) && k in docs
    ensures k in Ingested(docs, b)
    ensures if WritesOver(b, k) then Ingested(docs, b)[k].version == docs[k].version + 1
            else Ingested(docs, b)[k] == docs[k]
  {
    hide LastNames, LastCreated, ResourceFor;
  }

  ghost predicate SomeWritesOver(bs: seq<Batch>, m: nat, k: string) {
    exists i | m <= i < |bs| :: WritesOver(bs[i], k)
  }

  lemma {:induction false} RunKeepsOrRaises(bs: seq<Batch>, m: nat, k: string)
    requires AllLegal(bs) && m <= |bs| && k in Run(bs[..m])
    ensures k in Run(bs)
    ensures if SomeWritesOver(bs, m, k) then Run(bs)[k].version > Run(bs[..m])[k].version
            else Run(bs)[k] == Run(bs[..m])[k]
  {
    hide Ingested, Legal, WritesOver;
    if m == |bs| {
      assert bs[..m] == bs;
    } else {
      var n := |bs| - 1;
      assert bs[..n][..m] == bs[..m];
      RunKeepsOrRaises(bs[..n], m, k);
      IngestKeepsExactly(Run(bs[..n]), bs[n], k);
      OneMoreBatch(bs, m, k);
    }
  }

  lemma OneMoreBatch(bs: seq<Batch>, m: nat, k: string)
    requires m < |bs|
    ensures var n := |bs| - 1;
            SomeWritesOver(bs, m, k) <==> SomeWritesOver(bs[..n], m, k) || WritesOver(bs[n], k)
  {
    hide WritesOver;
    var n := |bs| - 1;
    var init := bs[..n];
    if SomeWritesOver(init, m, k) {
      var i :| m <= i < n && WritesOver(init[i], k);
      assert WritesOver(bs[i], k);
    }
    if SomeWritesOver(bs, m, k) {
      var i :| m <= i < |bs| && WritesOver(bs[i], k);
      if i < n {
        assert WritesOver(init[i], k);
      }
    }
  }

  /** Over any requests that do not overlap: a stored document, resource or version, is the same later exactly when no
      complete batch in between has a version with its id that brings names. */
  lemma {:induction false} StoredKeptExactly(bs: seq<Batch>, m: nat, k: string)
    requires AllLegal(bs) && m <= |bs| && k in Run(bs[..m])
    ensures k in Run(bs)
    ensures Run(bs)[k] == Run(bs[..m])[k] <==>
            forall i | m <= i < |bs| :: !(bs[i].complete && k in Merged(bs[i].os) && BringsNames(Merged(bs[i].os)[k]))
  {
    hide Run;
    RunKeepsOrRaises(bs, m, k);
    assert SomeWritesOver(bs, m, k) <==> !forall i | m <= i < |bs| :: !WritesOver(bs[i], k);
  }

  /** So over batches in which no version id is a resource id, a stored resource is never rewritten. */
  lemma {:induction false} ResourcesAreNeverRewritten(bs: seq<Batch>, m: nat, k: string, resourceIds: set<string>,
                                                      versionIds: set<string>)
    requires AllLegal(bs) && m <= |bs| && resourceIds !! versionIds
    requires forall i | 0 <= i < |bs| :: Within(bs[i], resourceIds, versionIds)
    requires k in Run(bs[..m]) && Run(bs[..m])[k].source.ResourceDoc?
    ensures k in Run(bs) && Run(bs)[k] == Run(bs[..m])[k]
  {
    hide Run;
    assert forall i | 0 <= i < m :: bs[..m][i] == bs[i];
    RunIsSorted(bs[..m], resourceIds, versionIds);
    StoredKeptExactly(bs, m, k);
  }

  // ----- the same batch twice -----

  /** The same documents, apart from the counts of writes. */
  predicate SameContent(a: Docs<ResourceDoc>, b: Docs<ResourceDoc>) {
    a.Keys == b.Keys && forall k | k in a :: a[k].source == b[k].source && a[k].parent == b[k].parent
  }

  /** Two parses of the same batch agree, when each of its URIs is matched by one handler. */
  lemma BatchIsDetermined(b: Batch, b': Batch)
    requires Legal(b) && Legal(b') && b.complete && b'.complete && b'.os == b.os
    requires forall k | k in Keys(b.os) :: !Ambiguous(k)
    ensures b'.parts == b.parts && b'.parents == b.parents
  {
    UrisAreKeys(b.os);
    hide PossibleParse, IsParent, Ambiguous, Keys;
    forall i | 0 <= i < |b.os| ensures b'.parts[i] == b.parts[i] {
      OnlyParse(b.os[i].uri, b.parts[i]);
      OnlyParse(b.os[i].uri, b'.parts[i]);
    }
    forall k | k in b.parents ensures b'.parents[k] == b.parents[k] {
      OnlyParent(k, b.parents[k]);
      OnlyParent(k, b'.parents[k]);
    }
  }

  lemma OnlyParent(k: string, parent: string)
    requires IsParent(k, parent) && !Ambiguous(k)
    ensures !Unparseable(k) && parent == ParseOf(k).prefixedName
  {
    var parts :| PossibleParse(k, parts) && parts.prefixedName == parent;
    OnlyParse(k, parts);
  }

  /** Ingesting a batch a second time, with nothing in between, leaves the documents as they were after the first time
      exactly when no version that brought names without a time was new the first time. */
  lemma SecondIngestChangesNothingExactly(docs: Docs<ResourceDoc>, b: Batch, b': Batch)
    requires Legal(b) && Legal(b') && b.complete && b'.complete && b'.os == b.os
    requires b'.parts == b.parts && b'.parents == b.parents
    ensures var once := Ingested(docs, b);
            var merged := Merged(b.os);
            SameContent(Ingested(once, b'), once) <==>
            forall k | k in merged && BringsNames(merged[k]) && merged[k].created.None? ::
              k in docs || k in ResourceIds(b.parts)
  {
    hide VersionAt, WithResources, WithVersions, LastNames, LastCreated, BringsNames;
    var merged, docs1, once := Merged(b.os), WithResources(docs, b.os, b.parts), Ingested(docs, b);
    assert once == WithVersions(docs1, merged, b.parents, b.clock);
    ResourcesTwice(docs, b, b');
    var twice := Ingested(once, b');
    assert twice == WithVersions(once, merged, b.parents, b'.clock);
    SecondVersions(docs1, merged, b.parents, b.clock, b'.clock);
    ResourceKeys(docs, b.os, b.parts);
  }

  lemma ResourceKeys(docs: Docs<ResourceDoc>, os: seq<Occurrence>, parts: seq<UriComponents>)
    requires |os| == |parts|
    ensures WithResources(docs, os, parts).Keys == docs.Keys + ResourceIds(parts)
  {
  }

  lemma ResourcesTwice(docs: Docs<ResourceDoc>, b: Batch, b': Batch)
    requires Legal(b) && b.complete && |b'.parts| == |b'.os| && b'.os == b.os && b'.parts == b.parts
    ensures WithResources(Ingested(docs, b), b'.os, b'.parts) == Ingested(docs, b)
  {
    hide WithResources, VersionAt, LastNames, LastCreated, ResourceIds, PossibleParse, IsParent;
    var once := Ingested(docs, b);
    ResourceKeys(docs, b.os, b.parts);
    assert ResourceIds(b.parts) <= once.Keys;
    StoredResourcesStay(once, b.os, b.parts);
  }

  lemma StoredResourcesStay(docs: Docs<ResourceDoc>, os: seq<Occurrence>, parts: seq<UriComponents>)
    requires |os| == |parts| && ResourceIds(parts) <= docs.Keys
    ensures WithResources(docs, os, parts) == docs
  {
    hide ResourceIds, ResourceFor;
    assert docs.Keys + ResourceIds(parts) == docs.Keys;
  }

  lemma SecondVersions(docs: Docs<ResourceDoc>, merged: map<string, Version>, parents: map<string, string>,
                       clock: Clock, clock': Clock)
    requires merged.Keys <= parents.Keys
    ensures var once := WithVersions(docs, merged, parents, clock);
            SameContent(WithVersions(once, merged, parents, clock'), once) <==>
            forall k | k in merged && BringsNames(merged[k]) && merged[k].created.None? :: k in docs
  {
    var once := WithVersions(docs, merged, parents, clock);
    var twice := WithVersions(once, merged, parents, clock');
    assert twice.Keys == once.Keys;
    forall k | k in once
      ensures (twice[k].source == once[k].source && twice[k].parent == once[k].parent) <==>
              !(k in merged && BringsNames(merged[k]) && merged[k].created.None? && k !in docs)
    {
    }
    if SameContent(twice, once) {
      forall k | k in merged && BringsNames(merged[k]) && merged[k].created.None? ensures k in docs {
        assert k in once;
      }
    }
  }

  /** In particular when every occurrence carries a creation time and each URI is matched by one handler. */
  lemma IngestIsIdempotent(docs: Docs<ResourceDoc>, b: Batch, b': Batch)
    requires Legal(b) && Legal(b') && b.complete && b'.complete && b'.os == b.os
    requires AllDated(b.os) && forall k | k in Keys(b.os) :: !Ambiguous(k)
    ensures SameContent(Ingested(Ingested(docs, b), b'), Ingested(docs, b))
  {
    BatchIsDetermined(b, b');
    forall k | k in Merged(b.os) && BringsNames(Merged(b.os)[k]) ensures Merged(b.os)[k].created.Some? {
      NamesComeWithTime(b.os, k);
    }
    SecondIngestChangesNothingExactly(docs, b, b');
  }

  // ----- what a successful request leaves behind -----

  /** Every stored version is stored under its URI and belongs to that URI's resource. */
  predicate Parented(docs: Docs<ResourceDoc>) {
    forall k | k in docs && docs[k].source.VersionDoc? ::
      docs[k].source.version == k && !Unparseable(k) && docs[k].parent == Some(ParseOf(k).prefixedName)
  }

  lemma IngestKeepsParented(docs: Docs<ResourceDoc>, b: Batch)
    requires Legal(b) && Parented(docs) && forall k | k in Keys(b.os) :: !Ambiguous(k)
    ensures Parented(Ingested(docs, b))
  {
    hide Unparseable, ParseOf, PossibleParse, IsParent, Parented, WithResources, WithVersions, LastNames, LastCreated;
    var docs1 := WithResources(docs, b.os, b.parts);
    ResourcesKeepParented(docs, b.os, b.parts);
    if b.complete {
      forall k | k in b.parents ensures !Unparseable(k) && b.parents[k] == ParseOf(k).prefixedName {
        OnlyParent(k, b.parents[k]);
      }
      VersionsKeepParented(docs1, Merged(b.os), b.parents, b.clock);
    }
  }

  lemma ResourcesKeepParented(docs: Docs<ResourceDoc>, os: seq<Occurrence>, parts: seq<UriComponents>)
    requires |os| == |parts| && Parented(docs)
    ensures Parented(WithResources(docs, os, parts))
  {
    hide Unparseable, ParseOf, ResourceFor;
  }

  lemma VersionsKeepParented(docs: Docs<ResourceDoc>, merged: map<string, Version>, parents: map<string, string>,
                             clock: Clock)
    requires Parented(docs) && merged.Keys == parents.Keys && forall k | k in merged :: merged[k].version == k
    requires forall k | k in parents :: !Unparseable(k) && parents[k] == ParseOf(k).prefixedName
    ensures Parented(WithVersions(docs, merged, parents, clock))
  {
    hide Unparseable, ParseOf;
  }

  lemma {:induction false} RunIsParented(bs: seq<Batch>)
    requires AllLegal(bs) && forall i | 0 <= i < |bs| :: forall k | k in Keys(bs[i].os) :: !Ambiguous(k)
    ensures Parented(Run(bs))
  {
    hide Ingested;
    if bs != [] {
      var n := |bs| - 1;
      RunIsParented(bs[..n]);
      IngestKeepsParented(Run(bs[..n]), bs[n]);
    }
  }

  /** The resource of an occurrence has its document, a resource. */
  predicate ResourceStored(docs: Docs<ResourceDoc>, uri: string)
    requires !Unparseable(uri)
  {
    var p := ParseOf(uri).prefixedName;
    p in docs && docs[p].source.ResourceDoc?
  }

  /** Looking the URI up finds its version, which belongs to that resource. */
  predicate VersionStored(docs: Docs<ResourceDoc>, uri: string)
    requires !Unparseable(uri)
  {
    && uri in docs && docs[uri].source.VersionDoc? && docs[uri].source.version == uri
    && docs[uri].parent == Some(ParseOf(uri).prefixedName)
    && FindResourceVersion(docs, uri) == Ok(docs[uri].source)
  }

  lemma OccurrenceParses(b: Batch, i: nat)
    requires Legal(b) && i < |b.os| && !Ambiguous(b.os[i].uri)
    ensures !Unparseable(b.os[i].uri) && ParseOf(b.os[i].uri) == b.parts[i]
    ensures b.parts[i].prefixedName in ResourceIds(b.parts) && b.os[i].uri in Keys(b.os)
  {
    OnlyParse(b.os[i].uri, b.parts[i]);
    UrisAreKeys(b.os);
  }

  /** What kind of document an id has after a batch. */
  lemma KindAfter(docs: Docs<ResourceDoc>, b: Batch, k: string)
    requires Legal(b) && b.complete && (k in docs || k in ResourceIds(b.parts) || k in Merged(b.os))
    ensures var docs', merged := Ingested(docs, b), Merged(b.os);
            k in docs' &&
            (docs'[k].source.VersionDoc? <==>
             (k in merged && BringsNames(merged[k])) ||
             if k in docs then docs[k].source.VersionDoc? else k !in ResourceIds(b.parts))
  {
    hide LastNames, LastCreated, ResourceFor, PossibleParse, IsParent, Keys;
  }

  /** After a request that succeeds on URIs that match one handler each: an occurrence's resource is stored exactly when
      its id was not a version's before and no version of the batch that brings names has it; and its version is found
      under that resource exactly when it brings names, or was found before, or was new and not also a resource of the
      batch. Resources are stored first, so such a version is taken to exist already. */
  lemma OccurrenceStoredExactly(docs: Docs<ResourceDoc>, b: Batch, i: nat)
    requires Legal(b) && b.complete && Parented(docs) && i < |b.os| && forall k | k in Keys(b.os) :: !Ambiguous(k)
    ensures var docs', uri, merged := Ingested(docs, b), b.os[i].uri, Merged(b.os);
            !Unparseable(uri) && uri in merged &&
            var p := ParseOf(uri).prefixedName;
            (ResourceStored(docs', uri) <==>
             (p in docs ==> docs[p].source.ResourceDoc?) && !(p in merged && BringsNames(merged[p]))) &&
            (VersionStored(docs', uri) <==>
             BringsNames(merged[uri]) ||
             if uri in docs then docs[uri].source.VersionDoc? else uri !in ResourceIds(b.parts))
  {
    UrisAreKeys(b.os);
    OccurrenceParses(b, i);
    IngestKeepsParented(docs, b);
    var uri, p := b.os[i].uri, b.parts[i].prefixedName;
    assert uri in Merged(b.os);
    hide Unparseable, ParseOf, Ambiguous, Ingested, Merged, Legal, Parented, Keys, ResourceIds, VersionStored,
      BringsNames;
    KindAfter(docs, b, p);
    KindAfter(docs, b, uri);
    StoredVersionIsFound(Ingested(docs, b), uri);
  }

  lemma StoredVersionIsFound(docs: Docs<ResourceDoc>, uri: string)
    requires Parented(docs) && !Unparseable(uri)
    ensures VersionStored(docs, uri) <==> uri in docs && docs[uri].source.VersionDoc?
  {
    hide Unparseable, ParseOf;
  }

  /** The same at the end of any run of requests over such URIs that do not overlap. */
  lemma OccurrencesAreStoredExactly(bs: seq<Batch>, i: nat)
    requires AllLegal(bs) && bs != [] && bs[|bs| - 1].complete && i < |bs[|bs| - 1].os|
    requires forall j | 0 <= j < |bs| :: forall k | k in Keys(bs[j].os) :: !Ambiguous(k)
    ensures var docs, docs', b := Run(bs[..|bs| - 1]), Run(bs), bs[|bs| - 1];
            var uri, merged := b.os[i].uri, Merged(b.os);
            !Unparseable(uri) && uri in merged &&
            var p := ParseOf(uri).prefixedName;
            (ResourceStored(docs', uri) <==>
             (p in docs ==> docs[p].source.ResourceDoc?) && !(p in merged && BringsNames(merged[p]))) &&
            (VersionStored(docs', uri) <==>
             BringsNames(merged[uri]) ||
             if uri in docs then docs[uri].source.VersionDoc? else uri !in ResourceIds(b.parts))
  {
    hide Ingested, Legal, ResourceStored, VersionStored, Unparseable, ParseOf, Merged;
    RunIsParented(bs[..|bs| - 1]);
    OccurrenceStoredExactly(Run(bs[..|bs| - 1]), bs[|bs| - 1], i);
  }

  /** In particular when over the whole run no version id is a resource id. */
  lemma OccurrencesAreStored(bs: seq<Batch>, i: nat, resourceIds: set<string>, versionIds: set<string>)
    requires AllLegal(bs) && bs != [] && resourceIds !! versionIds
    requires forall j | 0 <= j < |bs| :: Within(bs[j], resourceIds, versionIds)
    requires forall j | 0 <= j < |bs| :: forall k | k in Keys(bs[j].os) :: !Ambiguous(k)
    requires bs[|bs| - 1].complete && i < |bs[|bs| - 1].os|
    ensures var docs, uri := Run(bs), bs[|bs| - 1].os[i].uri;
            !Unparseable(uri) && ResourceStored(docs, uri) && VersionStored(docs, uri)
  {
    hide Run, Legal, Ambiguous, Unparseable, ParseOf, ResourceStored, VersionStored, Merged, Keys, ResourceIds,
      BringsNames, Within, Sorted;
    var before, b := bs[..|bs| - 1], bs[|bs| - 1];
    assert b.os[i].uri in Keys(b.os) by { UrisAreKeys(b.os); }
    assert !Unparseable(b.os[i].uri) && ParseOf(b.os[i].uri).prefixedName in ResourceIds(b.parts) by {
      OccurrenceParses(b, i);
    }
    assert Sorted(Run(before), resourceIds, versionIds) by { RunIsSorted(before, resourceIds, versionIds); }
    KindsApart(Run(before), b, resourceIds, versionIds, ParseOf(b.os[i].uri).prefixedName, b.os[i].uri);
    OccurrencesAreStoredExactly(bs, i);
  }

  lemma KindsApart(docs: Docs<ResourceDoc>, b: Batch, resourceIds: set<string>, versionIds: set<string>, p: string,
                   uri: string)
    requires Sorted(docs, resourceIds, versionIds) && Within(b, resourceIds, versionIds) && resourceIds !! versionIds
    requires p in ResourceIds(b.parts) && uri in Keys(b.os)
    ensures (p in docs ==> docs[p].source.ResourceDoc?) && p !in Merged(b.os)
    ensures if uri in docs then docs[uri].source.VersionDoc? else uri !in ResourceIds(b.parts)
  {
    hide LastNames, LastCreated;
  }

  // ----- a version hidden by a resource -----

  /** The request succeeds, all its occurrences are dated, and each of its URIs matches one handler; yet the lookup of
      this one answers with an empty version. */
  ghost predicate Hides(b: Batch, i: nat) {
    && Legal(b) && b.complete && AllDated(b.os) && (forall k | k in Keys(b.os) :: !Ambiguous(k))
    && i < |b.os| && !Unparseable(b.os[i].uri) && !VersionStored(Ingested(map[], b), b.os[i].uri)
    && FindResourceVersion(Ingested(map[], b), b.os[i].uri) == Ok(VersionDoc("", [], Some(0)))
  }

  /** A request after which a version it names is not found: another of its occurrences has the resource of that id. */
  lemma VersionHiddenByResource()
    ensures exists b, i :: Hides(b, i)
  {
    hide PossibleParse, Ambiguous, Hides;
    var u, p1, w, p2 := NestedUris();
    var b := TwoOccurrences(u, p1, w, p2, _ => 1);
  }

  lemma TwoOccurrences(u: string, p1: UriComponents, w: string, p2: UriComponents, clock: Clock) returns (b: Batch)
    requires u != w && PossibleParse(u, p1) && p1.prefixedName == w && PossibleParse(w, p2)
    requires !Ambiguous(u) && !Ambiguous(w)
    ensures Hides(b, 1)
  {
    var o1, o2 := Occurrence("1", u, Some(0), None), Occurrence("2", w, Some(0), None);
    b := Batch([o1, o2], [p1, p2], map[u := w, w := p2.prefixedName], clock, true);
    assert IsParent(u, w) && IsParent(w, p2.prefixedName);
    KeysOfTwo(o1, o2);
    hide IsParent, Keys, PossibleParse, Ambiguous, Hides;
    LegalPair(b, u, w);
    hide Legal;
    NamelessIsHidden(b, u, w);
  }

  lemma LegalPair(b: Batch, u: string, w: string)
    requires |b.os| == |b.parts| == 2 && PossibleParse(b.os[0].uri, b.parts[0]) &&
               PossibleParse(b.os[1].uri, b.parts[1])
    requires Keys(b.os) == {u, w} == b.parents.Keys && IsParent(u, b.parents[u]) && IsParent(w, b.parents[w])
    ensures Legal(b)
  {
    hide IsParent, Keys, PossibleParse;
  }

  lemma NamelessIsHidden(b: Batch, u: string, w: string)
    requires Legal(b) && b.complete && |b.os| == 2 && b.os[0].build.None? && b.os[1].build.None?
    requires b.parts[0].prefixedName == w && b.os[0].createTime == Some(0) && b.os[1].createTime == Some(0)
    requires b.os[0].uri == u && b.os[1].uri == w && Keys(b.os) == {u, w} && !Ambiguous(u) && !Ambiguous(w)
    ensures Hides(b, 1)
  {
    hide Keys, PossibleParse, IsParent, Ambiguous, Ingested, VersionStored, Unparseable, ParseOf, Merged, BringsNames,
      Parented, ResourceIds, ResourceStored;
    assert |b.parts| == |b.os| && b.parents.Keys == Keys(b.os);
    hide Legal;
    assert w in ResourceIds(b.parts) by { OccurrenceParses(b, 0); }
    assert !Unparseable(w) && w in Merged(b.os) && !VersionStored(Ingested(map[], b), w) by {
      EmptyIsParented();
      assert w in Merged(b.os) by { KeysAreMerged(b.os); }
      StaysAResource(b, w);
      OccurrenceStoredExactly(map[], b, 1);
    }
    StaysAResource(b, w);
  }

  lemma KeysAreMerged(os: seq<Occurrence>)
    ensures Merged(os).Keys == Keys(os)
  {
  }

  lemma KeysOfTwo(o1: Occurrence, o2: Occurrence)
    requires o1.build.None? && o2.build.None?
    ensures Keys([o1, o2]) == {o1.uri, o2.uri}
  {
    var os := [o1, o2];
    assert os[0] in os && os[1] in os;
    forall k ensures k in Keys(os) <==> k in {o1.uri, o2.uri} {
      assert k in Named(os[0]) <==> k == o1.uri;
      assert k in Named(os[1]) <==> k == o2.uri;
    }
  }

  lemma EmptyIsParented()
    ensures Parented(map[])
  {
  }

  /** A batch of two occurrences that bring no names leaves the first one's resource as it stored it. */
  lemma StaysAResource(b: Batch, w: string)
    requires Legal(b) && b.complete && |b.os| == 2 && b.os[0].build.None? && b.os[1].build.None?
    requires b.parts[0].prefixedName == w && b.os[0].createTime == Some(0) && w in Merged(b.os)
    ensures !BringsNames(Merged(b.os)[w])
    ensures var docs := Ingested(map[], b);
            w in docs && docs[w].source.ResourceDoc? && docs[w].source.resource.created == Some(0)
  {
    NoNames(b.os, w);
    assert w in ResourceIds(b.parts);
    assert ResourceFor(b.os, b.parts, w).created == Some(0);
    hide LastNames, LastCreated, ResourceFor, Keys, ResourceIds, PossibleParse, IsParent;
  }

  lemma {:induction false} NoNames(os: seq<Occurrence>, k: string)
    requires |os| == 2 && os[0].build.None? && os[1].build.None?
    ensures LastNames(os, k) == None
  {
    assert os[..2] == os && os[..0] == [];
    LastOneMore(os, 1, k);
    LastOneMore(os, 0, k);
  }
}
