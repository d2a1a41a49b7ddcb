/** Occurrences, and the search for those related to a resource (pkg/grafeas/extensions.go). */
module Grafeas {
  import opened Wrappers
  import opened Text

  /** `names` is None for a nil slice. */
  datatype Artifact = Artifact(id: string, names: Option<seq<string>>)

  /** A build occurrence carries its built artifacts. */
  datatype Occurrence = Occurrence(name: string, uri: string, createTime: Option<Time>, build: Option<seq<Artifact>>)

  const MAX_PAGE_SIZE := 1000

  /** The URIs an occurrence names: its resource and, of a build, its artifacts. */
  function Named(o: Occurrence): set<string> {
    {o.uri} + if o.build.Some? then set i | 0 <= i < |o.build.value| :: o.build.value[i].id else {}
  }

  /** A build of the resource: as its resource or as an artifact. */
  predicate BuildOf(u: string, o: Occurrence) {
    o.build.Some? && u in Named(o)
  }

  function Select(os: seq<Occurrence>, wanted: Occurrence -> bool): (r: seq<Occurrence>)
    ensures forall o :: o in r <==> o in os && wanted(o)
  {
    if os == [] then [] else (if wanted(os[0]) then [os[0]] else []) + Select(os[1..], wanted)
  }

  /** One page of an answer, and whether there is more. */
  function Page<T>(all: seq<T>, size: nat): (seq<T>, bool) {
    if |all| <= size then (all, false) else (all[..size], true)
  }

  function AllNamed(builds: seq<Occurrence>): set<string> {
    set b, v | b in builds && v in Named(b) :: v
  }

  /** What the second query selects, given the builds the first one returned. */
  predicate Chosen(u: string, builds: seq<Occurrence>, o: Occurrence) {
    o.uri == u || o.uri in AllNamed(builds)
  }

  /** A rendered filter: the alternatives `resource.uri == "..."` in the order they were written. */
  predicate Accepted(filter: seq<string>, o: Occurrence) {
    o.uri in filter
  }

  class Extensions {
    var occurrences: seq<Occurrence>

    constructor (occurrences: seq<Occurrence>)
      ensures this.occurrences == occurrences
    {
      this.occurrences := occurrences;
    }

    /** The filter is rendered from a map, in whatever order its keys come; the answer does not depend on it. */
    method ListVersionedResourceOccurrences(u: string, pageSize: nat)
      returns (page: seq<Occurrence>, more: bool, truncated: bool)
      ensures var (builds, cut) := Page(Select(occurrences, o => BuildOf(u, o)), MAX_PAGE_SIZE);
              truncated == cut &&
              (page, more) == Page(Select(occurrences, o => Chosen(u, builds, o)), pageSize)
    {
      var builds;
      builds, truncated := ListOccurrences(o => BuildOf(u, o), MAX_PAGE_SIZE);

      var resourceUris := CollectUris(u, builds);
      var filter := RenderFilter(resourceUris);
      SameAnswer(occurrences, o => Accepted(filter, o), o => Chosen(u, builds, o));
      page, more := ListOccurrences(o => Accepted(filter, o), pageSize);
    }

    static method CollectUris(u: string, builds: seq<Occurrence>) returns (resourceUris: map<string, string>)
      ensures resourceUris.Keys == {u} + AllNamed(builds)
    {
      resourceUris := map[u := u];
      for i := 0 to |builds|
        invariant resourceUris.Keys == {u} + AllNamed(builds[..i])
      {
        var o := builds[i];
        resourceUris := resourceUris[o.uri := o.uri];
        ghost var seen := {u} + AllNamed(builds[..i]);
        if o.build.Some? {
          var artifacts := o.build.value;
          for j := 0 to |artifacts|
            invariant resourceUris.Keys == seen + {o.uri} + set n | 0 <= n < j :: artifacts[n].id
          {
            resourceUris := resourceUris[artifacts[j].id := artifacts[j].id];
          }
        }
        OneMoreBuild(builds, i);
      }
      assert builds[..|builds|] == builds;
    }

    static method RenderFilter(resourceUris: map<string, string>) returns (filter: seq<string>)
      ensures forall k :: k in filter <==> k in resourceUris
    {
      filter := [];
      var pending := resourceUris.Keys;
      while pending != {}
        invariant pending <= resourceUris.Keys
        invariant forall k :: k in filter <==> k in resourceUris.Keys - pending
      {
        var k :| k in pending;
        pending := pending - {k};
        filter := filter + [k];
      }
    }

    method ListOccurrences(wanted: Occurrence -> bool, pageSize: nat) returns (page: seq<Occurrence>, more: bool)
      ensures (page, more) == Page(Select(occurrences, wanted), pageSize)
    {
      var selected := [];
      for i := 0 to |occurrences|
        invariant selected == Select(occurrences[..i], wanted)
      {
        SelectOneMore(occurrences, i, wanted);
        if wanted(occurrences[i]) {
          selected := selected + [occurrences[i]];
        }
      }
      assert occurrences[..|occurrences|] == occurrences;
      more := |selected| > pageSize;
      page := if more then selected[..pageSize] else selected;
    }
  }

  lemma {:induction false} SelectFirst(os: seq<Occurrence>, wanted: Occurrence -> bool)
    requires os != []
    ensures Select(os, wanted) == (if wanted(os[0]) then [os[0]] else []) + Select(os[1..], wanted)
  {
  }

  lemma {:induction false} SelectOneMore(os: seq<Occurrence>, i: nat, wanted: Occurrence -> bool)
    requires i < |os|
    ensures Select(os[..i + 1], wanted) == Select(os[..i], wanted) + if wanted(os[i]) then [os[i]] else []
  {
    if i > 0 {
      assert os[1..][..i] == os[..i + 1][1..] && os[1..][..i - 1] == os[..i][1..];
      SelectOneMore(os[1..], i - 1, wanted);
      SelectFirst(os[..i + 1], wanted);
      SelectFirst(os[..i], wanted);
      hide Select;
      var first, last := if wanted(os[0]) then [os[0]] else [], if wanted(os[i]) then [os[i]] else [];
      assert first + (Select(os[..i][1..], wanted) + last) == first + Select(os[..i][1..], wanted) + last;
    } else {
      assert os[..1] == [os[0]];
    }
  }

  lemma OneMoreBuild(builds: seq<Occurrence>, i: nat)
    requires i < |builds|
    ensures AllNamed(builds[..i + 1]) == AllNamed(builds[..i]) + Named(builds[i])
  {
    assert builds[..i + 1] == builds[..i] + [builds[i]];
  }

  lemma {:induction false} SameAnswer(os: seq<Occurrence>, p: Occurrence -> bool, q: Occurrence -> bool)
    requires forall o :: p(o) <==> q(o)
    ensures Select(os, p) == Select(os, q)
  {
    if os != [] {
      SameAnswer(os[1..], p, q);
    }
  }

  // ----- what is selected -----

  /** Two URIs are related when they are equal or some stored build names both. */
  predicate Related(os: seq<Occurrence>, u: string, v: string) {
    u == v || exists i | 0 <= i < |os| :: BuildOf(u, os[i]) && BuildOf(v, os[i])
  }

  lemma RelatedIsSymmetric(os: seq<Occurrence>, u: string, v: string)
    ensures Related(os, u, v) <==> Related(os, v, u)
  {
  }

  /** Unless the build query was cut, exactly the occurrences of related resources are selected; in any case,
      no others are. */
  lemma {:induction false} SelectsRelated(os: seq<Occurrence>, u: string, o: Occurrence)
    ensures var (builds, truncated) := Page(Select(os, o => BuildOf(u, o)), MAX_PAGE_SIZE);
            (Chosen(u, builds, o) ==> Related(os, u, o.uri)) &&
            (!truncated ==> (Chosen(u, builds, o) <==> Related(os, u, o.uri)))
  {
    var all := Select(os, o => BuildOf(u, o));
    var (builds, truncated) := Page(all, MAX_PAGE_SIZE);
    if Chosen(u, builds, o) && o.uri != u {
      var b :| b in builds && o.uri in Named(b);
      assert b in all;
      var i :| 0 <= i < |os| && os[i] == b;
      assert BuildOf(u, os[i]) && BuildOf(o.uri, os[i]);
    }
    if !truncated && Related(os, u, o.uri) && o.uri != u {
      var i :| 0 <= i < |os| && BuildOf(u, os[i]) && BuildOf(o.uri, os[i]);
      assert os[i] in all;
    }
  }

  /** The occurrence is on the URI, or is a build with an artifact of that id. */
  predicate Mentions(o: Occurrence, u: string) {
    o.uri == u || (o.build.Some? && exists j | 0 <= j < |o.build.value| :: o.build.value[j].id == u)
  }

  predicate MentionedTogether(os: seq<Occurrence>, u: string, v: string) {
    exists i | 0 <= i < |os| :: os[i].build.Some? && Mentions(os[i], u) && Mentions(os[i], v)
  }

  /** With at most 1000 builds of the resource, exactly its own occurrences are selected and those on a URI that some
      build mentions together with it. */
  lemma {:induction false} SelectedExactly(os: seq<Occurrence>, u: string, o: Occurrence)
    ensures var all := Select(os, b => BuildOf(u, b));
            (forall b :: b in all <==> b in os && b.build.Some? && Mentions(b, u)) &&
            (|all| <= 1000 ==>
               (Chosen(u, Page(all, MAX_PAGE_SIZE).0, o) <==> o.uri == u || MentionedTogether(os, u, o.uri))) &&
            (|all| > 1000 ==> |Page(all, MAX_PAGE_SIZE).0| == 1000 && Page(all, MAX_PAGE_SIZE).0 <= all)
  {
    SelectsRelated(os, u, o);
    forall b, v ensures v in Named(b) <==> Mentions(b, v) {
    }
    if Related(os, u, o.uri) && o.uri != u {
      var i :| 0 <= i < |os| && BuildOf(u, os[i]) && BuildOf(o.uri, os[i]);
      assert MentionedTogether(os, u, o.uri);
    }
    if MentionedTogether(os, u, o.uri) {
      var i :| 0 <= i < |os| && os[i].build.Some? && Mentions(os[i], u) && Mentions(os[i], o.uri);
      assert BuildOf(u, os[i]) && BuildOf(o.uri, os[i]);
    }
  }

  /** When it was cut, an occurrence of a related resource is lost exactly when only builds beyond the page name it. */
  lemma {:induction false} LostExactly(os: seq<Occurrence>, u: string, o: Occurrence)
    ensures var all := Select(os, o => BuildOf(u, o));
            var builds := Page(all, MAX_PAGE_SIZE).0;
            Related(os, u, o.uri) && !Chosen(u, builds, o) <==>
            o.uri != u && o.uri !in AllNamed(builds) && o.uri in AllNamed(all[|builds|..])
  {
    var all := Select(os, o => BuildOf(u, o));
    var builds := Page(all, MAX_PAGE_SIZE).0;
    assert all == builds + all[|builds|..];
    assert o.uri in AllNamed(all) <==> o.uri in AllNamed(builds) || o.uri in AllNamed(all[|builds|..]);
    if o.uri in AllNamed(all) {
      var b :| b in all && o.uri in Named(b);
      var i :| 0 <= i < |os| && os[i] == b;
      assert BuildOf(u, os[i]) && BuildOf(o.uri, os[i]);
    }
    if Related(os, u, o.uri) && o.uri != u {
      var i :| 0 <= i < |os| && BuildOf(u, os[i]) && BuildOf(o.uri, os[i]);
      assert os[i] in all;
    }
  }

  /** Every stored build that names the resource is itself selected, when the build query was not cut. */
  lemma {:induction false} BuildsAreSelected(os: seq<Occurrence>, u: string, b: Occurrence)
    requires b in os && BuildOf(u, b)
    ensures var (builds, truncated) := Page(Select(os, o => BuildOf(u, o)), MAX_PAGE_SIZE);
            !truncated ==> Chosen(u, builds, b)
  {
    assert b.uri in Named(b);
  }

  /** The selection is not a transitive closure: what a related resource is related to may be left out. */
  lemma RelatedIsNotTransitive()
    ensures exists os: seq<Occurrence>, u, v, w :: Related(os, u, v) && Related(os, v, w) && !Related(os, u, w)
  {
    var os := [Occurrence("1", "u", None, Some([Artifact("v", None)])),
               Occurrence("2", "v", None, Some([Artifact("w", None)]))];
    assert os[0].build.value[0].id == "v" && os[1].build.value[0].id == "w";
    assert BuildOf("u", os[0]) && BuildOf("v", os[0]) && BuildOf("v", os[1]) && BuildOf("w", os[1]);
    assert Related(os, "u", "v") && Related(os, "v", "w") && !Related(os, "u", "w");
  }

  lemma {:induction false} SelectAll(os: seq<Occurrence>, wanted: Occurrence -> bool)
    requires forall o | o in os :: wanted(o)
    ensures Select(os, wanted) == os
  {
    if os != [] {
      SelectAll(os[1..], wanted);
    }
  }

  /** A cut build query can lose a related resource: here the 1001st build of "u" is the only one to name "v". */
  lemma CutQueryLosesRelated()
    ensures exists os: seq<Occurrence>, o: Occurrence ::
              var (builds, truncated) := Page(Select(os, b => BuildOf("u", b)), MAX_PAGE_SIZE);
              truncated && Related(os, "u", o.uri) && !Chosen("u", builds, o)
  {
    var plain, last := Occurrence("b", "u", None, Some([])), Occurrence("c", "u", None, Some([Artifact("v", None)]));
    var first := seq(MAX_PAGE_SIZE, _ => plain);
    var os, o := first + [last], Occurrence("o", "v", None, None);
    assert last.build.value[0].id == "v";
    SelectAll(os, b => BuildOf("u", b));
    var (builds, truncated) := Page(Select(os, b => BuildOf("u", b)), MAX_PAGE_SIZE);
    assert builds == first && truncated;
    assert os[MAX_PAGE_SIZE] == last && BuildOf("v", os[MAX_PAGE_SIZE]);
    assert Related(os, "u", o.uri) && !Chosen("u", builds, o);
  }
}
