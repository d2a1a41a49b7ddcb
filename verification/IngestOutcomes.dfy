/** What a request that creates occurrences leaves in the resource index, field by field from its occurrences and
    artifacts. */
module IngestOutcomes {
  import opened Wrappers
  import opened Elastic
  import opened Uris
  import opened Grafeas
  import opened Resources
  import opened Ingest

  // ----- one occurrence -----

  /** The occurrence's last artifact with the id: an earlier one of the same id is overwritten, names and all. */
  predicate IsLast(o: Occurrence, j: nat, k: string) {
    && o.build.Some? && j < |o.build.value| && o.build.value[j].id == k
    && forall n | j < n < |o.build.value| :: o.build.value[n].id != k
  }

  predicate HasArtifact(o: Occurrence, k: string) {
    o.build.Some? && exists n | 0 <= n < |o.build.value| :: o.build.value[n].id == k
  }

  lemma {:induction false} UpToLast(o: Occurrence, n: nat, j: nat, k: string)
    requires o.build.Some? && j < n <= |o.build.value| && o.build.value[j].id == k
    requires forall m | j < m < n :: o.build.value[m].id != k
    ensures k in VersionsUpTo(o, n) && VersionsUpTo(o, n)[k] == Version(k, o.build.value[j].names, o.createTime)
  {
    if j < n - 1 {
      UpToLast(o, n - 1, j, k);
    }
  }

  lemma {:induction false} UpToNone(o: Occurrence, n: nat, k: string)
    requires n == 0 || (o.build.Some? && n <= |o.build.value|)
    requires forall m | 0 <= m < n :: o.build.value[m].id != k
    ensures k in VersionsUpTo(o, n) <==> k == o.uri
    ensures k == o.uri ==> VersionsUpTo(o, n)[k] == Version(k, None, None)
  {
    if n > 0 {
      UpToNone(o, n - 1, k);
    }
  }

  /** A version has all the names of the last artifact of its id and the occurrence's time; the occurrence's own URI,
      without an artifact, has neither; nothing else is a version. */
  lemma VersionsOfOccurrence(o: Occurrence, j: nat, k: string)
    ensures IsLast(o, j, k) ==>
              k in VersionsOf(o) && VersionsOf(o)[k] == Version(k, o.build.value[j].names, o.createTime)
    ensures !HasArtifact(o, k) ==>
              (k in VersionsOf(o) <==> k == o.uri) && (k == o.uri ==> VersionsOf(o)[k] == Version(k, None, None))
  {
    if IsLast(o, j, k) {
      UpToLast(o, |o.build.value|, j, k);
    }
    if !HasArtifact(o, k) {
      UpToNone(o, if o.build.Some? then |o.build.value| else 0, k);
    }
  }

  lemma {:induction false} SomeIsLast(o: Occurrence, k: string, n: nat) returns (j: nat)
    requires o.build.Some? && n < |o.build.value| && o.build.value[n].id == k
    ensures IsLast(o, j, k)
    decreases |o.build.value| - n
  {
    if m :| n < m < |o.build.value| && o.build.value[m].id == k {
      j := SomeIsLast(o, k, m);
    } else {
      j := n;
    }
  }

  // ----- a batch -----

  predicate GivesNames(o: Occurrence, j: nat, k: string) {
    IsLast(o, j, k) && o.build.value[j].names.Some?
  }

  ghost predicate GivesNoNames(o: Occurrence, k: string) {
    forall j: nat :: !GivesNames(o, j, k)
  }

  predicate GivesTime(o: Occurrence, k: string) {
    HasArtifact(o, k) && o.createTime.Some?
  }

  lemma WithoutNames(o: Occurrence, k: string)
    requires GivesNoNames(o, k)
    ensures k in VersionsOf(o) ==> VersionsOf(o)[k].names.None?
  {
    if HasArtifact(o, k) {
      var n :| 0 <= n < |o.build.value| && o.build.value[n].id == k;
      var j := SomeIsLast(o, k, n);
      VersionsOfOccurrence(o, j, k);
      assert !GivesNames(o, j, k);
    } else {
      VersionsOfOccurrence(o, 0, k);
    }
  }

  lemma TimeGiven(o: Occurrence, k: string)
    ensures k in VersionsOf(o) && VersionsOf(o)[k].created.Some? <==> GivesTime(o, k)
    ensures GivesTime(o, k) ==> VersionsOf(o)[k].created == o.createTime
  {
    if HasArtifact(o, k) {
      var n :| 0 <= n < |o.build.value| && o.build.value[n].id == k;
      var j := SomeIsLast(o, k, n);
      VersionsOfOccurrence(o, j, k);
    } else {
      VersionsOfOccurrence(o, 0, k);
    }
  }

  /** The names of a batch are those of the last occurrence that gives some. */
  lemma {:induction false} NamesAre(os: seq<Occurrence>, k: string, i: nat, j: nat)
    requires i < |os| && GivesNames(os[i], j, k) && forall n | i < n < |os| :: GivesNoNames(os[n], k)
    ensures LastNames(os, k) == os[i].build.value[j].names
    decreases |os|
  {
    hide GivesNames, GivesNoNames, VersionsOf;
    var n := |os| - 1;
    if i == n {
      assert IsLast(os[i], j, k) && os[i].build.value[j].names.Some? by { Given(os[i], j, k); }
      VersionsOfOccurrence(os[i], j, k);
    } else {
      WithoutNames(os[n], k);
      NamesAre(os[..n], k, i, j);
    }
  }

  lemma Given(o: Occurrence, j: nat, k: string)
    requires GivesNames(o, j, k)
    ensures IsLast(o, j, k) && o.build.value[j].names.Some?
  {
  }

  lemma {:induction false} NoNamesAre(os: seq<Occurrence>, k: string)
    requires forall n | 0 <= n < |os| :: GivesNoNames(os[n], k)
    ensures LastNames(os, k) == None
    decreases |os|
  {
    if os != [] {
      WithoutNames(os[|os| - 1], k);
      NoNamesAre(os[..|os| - 1], k);
    }
  }

  /** Its creation time is that of the last dated occurrence with an artifact of the id; the time of an occurrence on
      the version itself does not count. */
  lemma {:induction false} TimeIs(os: seq<Occurrence>, k: string, i: nat)
    requires i < |os| && GivesTime(os[i], k) && forall n | i < n < |os| :: !GivesTime(os[n], k)
    ensures LastCreated(os, k) == os[i].createTime
    decreases |os|
  {
    hide GivesTime, VersionsOf;
    var n := |os| - 1;
    TimeGiven(os[n], k);
    if i < n {
      TimeIs(os[..n], k, i);
    }
  }

  lemma {:induction false} NoTimeIs(os: seq<Occurrence>, k: string)
    requires forall n | 0 <= n < |os| :: !GivesTime(os[n], k)
    ensures LastCreated(os, k) == None
    decreases |os|
  {
    hide GivesTime, VersionsOf;
    if os != [] {
      TimeGiven(os[|os| - 1], k);
      NoTimeIs(os[..|os| - 1], k);
    }
  }

  lemma KeysAre(os: seq<Occurrence>, k: string)
    ensures k in Keys(os) <==> exists i | 0 <= i < |os| :: os[i].uri == k || HasArtifact(os[i], k)
  {
    if i :| 0 <= i < |os| && (os[i].uri == k || HasArtifact(os[i], k)) {
      assert os[i] in os && k in Named(os[i]);
    }
    if k in Keys(os) {
      var o :| o in os && k in Named(o);
      var i :| 0 <= i < |os| && os[i] == o;
      assert os[i].uri == k || HasArtifact(os[i], k);
    }
  }

  // ----- the index -----

  /** The first occurrence that belongs to a resource the index does not hold provides it. */
  lemma ResourceOutcome(docs: Docs<ResourceDoc>, b: Batch, i: nat)
    requires Legal(b) && !b.complete && i < |b.parts|
    requires forall n | 0 <= n < i :: b.parts[n].prefixedName != b.parts[i].prefixedName
    ensures var k, docs' := b.parts[i].prefixedName, Ingested(docs, b);
            k in docs' &&
            docs'[k] ==
            if k in docs then docs[k]
            else
              var resource := Resource(b.parts[i].name, b.parts[i].resourceType, b.os[i].createTime);
              Doc(ResourceDoc(resource), None, 1)
  {
    hide PossibleParse, IsParent;
  }

  /** A named version is written exactly when the index, with the batch's resources, does not hold its id or the batch
      has names for it: with those names, under a resource its URI parses to, and at the time of the batch, or at the
      current time when it is new. Everything else is as the batch's resources left it. */
  lemma {:induction false} VersionOutcome(docs: Docs<ResourceDoc>, b: Batch, k: string)
    requires Legal(b) && b.complete
    ensures var before, docs' := Ingested(docs, b.(complete := false)), Ingested(docs, b);
            var names, created := LastNames(b.os, k), LastCreated(b.os, k);
            var isNew := k !in before;
            if k in Keys(b.os) && (isNew || (names.Some? && names.value != []))
            then
              k in docs' && docs'[k].parent == Some(b.parents[k]) && IsParent(k, b.parents[k]) &&
              docs'[k].version == (if isNew then 1 else before[k].version + 1) &&
              docs'[k].source ==
              VersionDoc(k, if names.Some? then names.value else [],
                         if isNew && created.None? then Some(b.clock(k)) else created)
            else (k in docs' <==> !isNew) && (!isNew ==> docs'[k] == before[k])
  {
    hide PossibleParse, IsParent, LastNames, LastCreated, WithResources, Keys;
  }

  /** A URI that no handler matches is an error of its own, also where it has no document. */
  lemma VersionNotFound(docs: Docs<ResourceDoc>, uri: string)
    requires uri !in docs
    ensures (forall t: ResourceType :: Match(t, uri).None?) ==> FindResourceVersion(docs, uri) == Err(Internal)
    ensures (exists t: ResourceType :: Match(t, uri).Some?) ==> FindResourceVersion(docs, uri) == Err(NotFound)
  {
    if !forall t: ResourceType :: Match(t, uri).None? {
      var t: ResourceType :| Match(t, uri).Some?;
      hide Match;
      assert t in HANDLERS && Matches(t, uri);
    }
  }

  /** Looked up by its URI, a version that was written is answered as it was stored. */
  lemma VersionReadsBack(docs: Docs<ResourceDoc>, k: string)
    requires k in docs && docs[k].source.VersionDoc? && (exists resourceId :: IsParent(k, resourceId))
    ensures FindResourceVersion(docs, k) == Ok(docs[k].source)
  {
    var resourceId :| IsParent(k, resourceId);
    var parts :| PossibleParse(k, parts) && parts.prefixedName == resourceId;
    var t :| Matches(t, k) && parts == Components(t, k);
    assert t in HANDLERS;
  }
}
