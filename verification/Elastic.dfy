/** One Elasticsearch index behind its alias, under the contracts the managers rely on:
    a create fails on an existing id, an index or update overwrites and raises the document
    version by one, and a bulk request applies all of its items or none. */
module Elastic {
  import opened Wrappers

  datatype Doc<+D> = Doc(source: D, parent: Option<string>, version: nat)

  type Docs<D> = map<string, Doc<D>>

  /** A pointer to a protobuf message: the holder of the pointer may change the message until it is sent. */
  class Ref<D> {
    var v: D

    constructor (v: D)
      ensures this.v == v
    {
      this.v := v;
    }
  }

  datatype Op = BulkCreate | BulkIndex

  /** A bulk item as it is queued, and as it is sent. */
  datatype BulkItem<D> = BulkItem(op: Op, id: string, message: Ref<D>, parent: Option<string>)
  datatype Action<+D> = Action(op: Op, id: string, source: D, parent: Option<string>)

  function Source<D>(docs: Docs<D>, id: string): Option<D> {
    if id in docs then Some(docs[id].source) else None
  }

  function Sources<D>(docs: Docs<D>, ids: seq<string>): (sources: seq<Option<D>>) {
    seq(|ids|, i requires 0 <= i < |ids| => Source(docs, ids[i]))
  }

  function Overwritten<D>(docs: Docs<D>, id: string, source: D, parent: Option<string>): Docs<D> {
    docs[id := Doc(source, parent, if id in docs then docs[id].version + 1 else 1)]
  }

  /** None when an item creates a document that exists. */
  function ApplyBulk<D>(docs: Docs<D>, actions: seq<Action<D>>): (r: Option<Docs<D>>)
    decreases |actions|
  {
    if actions == [] then
      Some(docs)
    else
      var a := actions[0];
      if a.op == BulkCreate && a.id in docs then None
      else ApplyBulk(Overwritten(docs, a.id, a.source, a.parent), actions[1..])
  }

  function Messages<D>(items: seq<BulkItem<D>>): set<Ref<D>> {
    set i | 0 <= i < |items| :: items[i].message
  }

  /** What the queued items say at the moment the request is sent. */
  function Marshalled<D>(items: seq<BulkItem<D>>): (actions: seq<Action<D>>)
    reads Messages(items)
    ensures |actions| == |items|
    ensures forall i | 0 <= i < |items| ::
              actions[i] == Action(items[i].op, items[i].id, items[i].message.v, items[i].parent)
  {
    if items == [] then [] else
      var item := items[0];
      assert forall i | 0 <= i < |items[1..]| :: items[1..][i].message in Messages(items) by {
        forall i | 0 <= i < |items[1..]| ensures items[1..][i].message in Messages(items) {
          assert items[1..][i] == items[i + 1];
        }
      }
      [Action(item.op, item.id, item.message.v, item.parent)] + Marshalled(items[1..])
  }

  class Index<D> {
    var docs: Docs<D>

    constructor ()
      ensures docs == map[]
    {
      docs := map[];
    }

    method Get(id: string) returns (source: Option<D>)
      ensures source == Source(docs, id)
    {
      source := if id in docs then Some(docs[id].source) else None;
    }

    method MultiGet(ids: seq<string>) returns (sources: seq<Option<D>>)
      ensures sources == Sources(docs, ids)
    {
      sources := [];
      for i := 0 to |ids|
        invariant sources == Sources(docs, ids[..i])
      {
        var source := Get(ids[i]);
        sources := sources + [source];
        assert ids[..i + 1] == ids[..i] + [ids[i]];
      }
      assert ids[..|ids|] == ids;
    }

    method Create(id: string, source: D) returns (ok: bool)
      modifies this
      ensures ok == (id !in old(docs))
      ensures docs == if ok then Overwritten(old(docs), id, source, None) else old(docs)
    {
      ok := id !in docs;
      if ok {
        docs := docs[id := Doc(source, None, 1)];
      }
    }

    /** Answers with the new document version. */
    method Update(id: string, source: D) returns (version: nat)
      modifies this
      ensures docs == Overwritten(old(docs), id, source, None)
      ensures version == docs[id].version
    {
      version := if id in docs then docs[id].version + 1 else 1;
      docs := docs[id := Doc(source, None, version)];
    }

    method Delete(id: string)
      modifies this
      ensures docs == old(docs) - {id}
    {
      docs := docs - {id};
    }

    method Bulk(items: seq<BulkItem<D>>) returns (ok: bool)
      modifies this
      ensures var applied := ApplyBulk(old(docs), old(Marshalled(items)));
              ok == applied.Some? && docs == if ok then applied.value else old(docs)
    {
      var actions := Marshalled(items);
      var pending := docs;
      for i := 0 to |actions|
        invariant docs == old(docs)
        invariant ApplyBulk(docs, actions) == ApplyBulk(pending, actions[i..])
      {
        var a := actions[i];
        assert actions[i..][1..] == actions[i + 1..];
        if a.op == BulkCreate && a.id in pending {
          return false;
        }
        pending := Overwritten(pending, a.id, a.source, a.parent);
      }
      docs := pending;
      ok := true;
    }
  }

  /** An unpaged search: every hit once, in whatever order the search returns them. */
  ghost predicate IsListing<D(!new)>(ids: seq<string>, docs: Docs<D>, hit: D -> bool) {
    && (forall i, j | 0 <= i < j < |ids| :: ids[i] != ids[j])
    && (forall k :: k in ids <==> k in docs && hit(docs[k].source))
  }
}
