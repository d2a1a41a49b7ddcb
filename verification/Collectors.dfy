/** Registering a collector (server/server.go): the notes it asks for are created unless they exist. */
module Collectors {
  import opened Wrappers
  import opened Text
  import opened Elastic

  datatype NoteKind =
    | Unspecified | Vulnerability | Build | Image | Package | Deployment | Discovery | Attestation | Intoto

  datatype Note = Note(name: string, kind: NoteKind, description: string)

  const NOTES_PREFIX := "projects/rode/notes/"

  function KindSuffix(kind: NoteKind): string {
    match kind
    case Vulnerability => "vulnerability"
    case Build => "build"
    case Image => "image"
    case Package => "package"
    case Deployment => "deployment"
    case Discovery => "discovery"
    case Attestation => "attestation"
    case Intoto => "intoto"
    case Unspecified => "unspecified"
  }

  function NoteIdOf(collectorId: string, kind: NoteKind): string {
    collectorId + "-" + KindSuffix(kind)
  }

  function NoteName(noteId: string): string {
    NOTES_PREFIX + noteId
  }

  function NoteIdFromName(noteName: string): string {
    TrimPrefix(noteName, NOTES_PREFIX)
  }

  // ----- ids -----

  lemma SuffixHasNoDash(kind: NoteKind)
    ensures '-' !in KindSuffix(kind)
  {
  }

  lemma {:induction false} SuffixesDiffer(k: NoteKind, l: NoteKind)
    requires KindSuffix(k) == KindSuffix(l)
    ensures k == l
  {
    var a, b := KindSuffix(k), KindSuffix(l);
    assert a[0] == b[0] && |a| == |b| && a[1] == b[1] && a[2] == b[2];
  }

  /** The id before the last dash. */
  function Before(s: string): string
    requires '-' in s
  {
    if s[|s| - 1] == '-' then s[..|s| - 1] else Before(s[..|s| - 1])
  }

  lemma {:induction false} BeforeLastDash(a: string, b: string)
    requires '-' !in b
    ensures '-' in a + "-" + b && Before(a + "-" + b) == a
    decreases |b|
  {
    var s := a + "-" + b;
    assert s[|a|] == '-';
    if b == [] {
      assert s[..|s| - 1] == a;
    } else {
      var init := b[..|b| - 1];
      assert s[|s| - 1] == b[|b| - 1];
      assert s[..|s| - 1] == a + "-" + init;
      BeforeLastDash(a, init);
    }
  }

  /** Note ids determine the collector and the kind, whatever dashes the collector's id contains. */
  lemma NoteIdInjective(a: string, k: NoteKind, b: string, l: NoteKind)
    requires NoteIdOf(a, k) == NoteIdOf(b, l)
    ensures a == b && k == l
  {
    SuffixHasNoDash(k);
    SuffixHasNoDash(l);
    BeforeLastDash(a, KindSuffix(k));
    BeforeLastDash(b, KindSuffix(l));
    assert KindSuffix(k) == NoteIdOf(a, k)[|a| + 1..] == NoteIdOf(b, l)[|b| + 1..] == KindSuffix(l);
    SuffixesDiffer(k, l);
  }

  lemma NameUndone(noteId: string)
    ensures NoteIdFromName(NoteName(noteId)) == noteId
  {
  }

  /** The prefix that the listing asks for. */
  function ListingPrefix(collectorId: string): string {
    NOTES_PREFIX + collectorId + "-"
  }

  /** Each note a collector can ask for lies inside its listing. */
  lemma RequestedIsListed(collectorId: string, kind: NoteKind)
    ensures HasPrefix(NoteName(NoteIdOf(collectorId, kind)), ListingPrefix(collectorId))
  {
    Grouped(NOTES_PREFIX, collectorId, "-", KindSuffix(kind));
  }

  lemma Grouped(a: string, b: string, c: string, d: string)
    ensures a + (b + c + d) == a + b + c + d && HasPrefix(a + b + c + d, a + b + c)
  {
  }

  // ----- registering -----

  predicate DistinctKinds(notes: seq<Note>) {
    forall i, j | 0 <= i < j < |notes| :: notes[i].kind != notes[j].kind
  }

  /** The requested notes by id. */
  function Requested(collectorId: string, notes: seq<Note>): (requested: map<string, Note>)
    decreases |notes|
  {
    if notes == [] then map[] else
      var n := |notes| - 1;
      Requested(collectorId, notes[..n])[NoteIdOf(collectorId, notes[n].kind) := notes[n]]
  }

  /** Its ids are those of the notes' kinds. */
  lemma {:induction false} RequestedIds(collectorId: string, notes: seq<Note>)
    ensures forall id | id in Requested(collectorId, notes) ::
              exists i :: 0 <= i < |notes| && NoteIdOf(collectorId, notes[i].kind) == id
    ensures forall i | 0 <= i < |notes| :: NoteIdOf(collectorId, notes[i].kind) in Requested(collectorId, notes)
    decreases |notes|
  {
    hide NoteIdOf;
    if notes != [] {
      var n := |notes| - 1;
      RequestedIds(collectorId, notes[..n]);
      forall id | id in Requested(collectorId, notes)
        ensures exists i :: 0 <= i < |notes| && NoteIdOf(collectorId, notes[i].kind) == id
      {
        if id in Requested(collectorId, notes[..n]) {
          var i :| 0 <= i < n && NoteIdOf(collectorId, notes[..n][i].kind) == id;
          assert NoteIdOf(collectorId, notes[i].kind) == id;
        } else {
          assert NoteIdOf(collectorId, notes[n].kind) == id;
        }
      }
      forall i | 0 <= i < |notes| ensures NoteIdOf(collectorId, notes[i].kind) in Requested(collectorId, notes) {
        assert i < n ==> notes[..n][i] == notes[i];
      }
    }
  }

  lemma NamesUndone()
    ensures forall id {:trigger NoteName(id)} :: NoteIdFromName(NoteName(id)) == id
  {
    forall id ensures NoteIdFromName(NoteName(id)) == id {
      NameUndone(id);
    }
  }

  /** The full names of some ids. */
  function NamesOf(ids: set<string>): (names: set<string>)
    ensures forall name | name in names :: NoteIdFromName(name) in ids && NoteName(NoteIdFromName(name)) == name
    ensures forall id | id in ids :: NoteName(id) in names
  {
    NamesUndone();
    set id | id in ids :: NoteName(id)
  }

  /** Each requested note with the full name of its id. */
  function WithNames(requested: map<string, Note>): map<string, Note> {
    map id | id in requested :: requested[id].(name := NoteName(id))
  }

  /** The same notes under their full names. */
  function ByName(requested: map<string, Note>): map<string, Note> {
    map name | name in NamesOf(requested.Keys) :: requested[NoteIdFromName(name)].(name := name)
  }

  lemma ByNameOneMore(some: map<string, Note>, id: string, note: Note)
    ensures ByName(some[id := note]) == ByName(some)[NoteName(id) := note.(name := NoteName(id))]
  {
    NamesUndone();
    hide NoteName, NoteIdFromName;
    var l, r := ByName(some[id := note]), ByName(some)[NoteName(id) := note.(name := NoteName(id))];
    forall name ensures (name in l <==> name in r) && (name in l ==> l[name] == r[name]) {
      if name in l {
        assert NoteName(NoteIdFromName(name)) == name;
      }
    }
    assert l == r;
  }

  /** The note store with every requested note that it did not hold. */
  function Registered(store: map<string, Note>, requested: map<string, Note>): map<string, Note> {
    ByName(requested) + store
  }

  lemma MissingName(store: map<string, Note>, requested: map<string, Note>, name: string)
    ensures name in NamesOf(set id | id in requested && NoteName(id) !in store) <==>
              name in NamesOf(requested.Keys) && name !in store
  {
    hide NoteName, NoteIdFromName;
    var missing := set id | id in requested && NoteName(id) !in store;
    if name in NamesOf(requested.Keys) && name !in store {
      assert NoteName(NoteIdFromName(name)) == name;
      assert NoteIdFromName(name) in missing;
    }
    if name in NamesOf(missing) {
      assert NoteName(NoteIdFromName(name)) == name;
    }
  }

  /** Registering adds exactly the names of the missing ids and changes no note; a second time it adds nothing. */
  lemma RegisteringAddsTheMissing(store: map<string, Note>, requested: map<string, Note>)
    ensures forall name | name in store ::
              name in Registered(store, requested) && Registered(store, requested)[name] == store[name]
    ensures Registered(store, requested).Keys - store.Keys ==
            NamesOf(set id | id in requested && NoteName(id) !in store)
    ensures Registered(Registered(store, requested), requested) == Registered(store, requested)
  {
    NamesUndone();
    hide NoteName, NoteIdFromName;
    var once, missing := Registered(store, requested), set id | id in requested && NoteName(id) !in store;
    forall name ensures name in once.Keys - store.Keys <==> name in NamesOf(missing) {
      MissingName(store, requested, name);
    }
  }

  predicate Named(store: map<string, Note>) {
    forall name | name in store :: store[name].name == name
  }

  predicate SomeExists(store: map<string, Note>, toCreate: map<string, Note>) {
    exists id | id in toCreate :: NoteName(id) in store
  }

  /** The part of Grafeas that keeps notes under their names. Its requests may fail, and then change nothing. */
  class NoteStore {
    var notes: map<string, Note>

    /** Whether any request has failed. */
    ghost var failed: bool

    constructor ()
      ensures notes == map[] && !failed
    {
      notes, failed := map[], false;
    }

    /** A complete listing, in some order. */
    method ListNotes(prefix: string) returns (r: Option<seq<Note>>)
      requires Named(notes)
      modifies `failed
      ensures r.Some? ==>
                forall n :: n in r.value <==> n.name in notes && notes[n.name] == n && HasPrefix(n.name, prefix)
      ensures failed <==> old(failed) || r.None?
    {
      if * {
        failed := true;
        return None;
      }
      var listed: seq<Note> := [];
      var pending := notes.Keys;
      while pending != {}
        invariant pending <= notes.Keys
        invariant forall n :: n in listed <==>
                    n.name in notes.Keys - pending && notes[n.name] == n && HasPrefix(n.name, prefix)
      {
        var name :| name in pending;
        pending := pending - {name};
        if HasPrefix(name, prefix) {
          listed := listed + [notes[name]];
        }
      }
      r := Some(listed);
    }

    /** Creates the notes under the names of their ids and answers with them; refused when one of them exists. */
    method BatchCreateNotes(toCreate: map<string, Note>) returns (r: Option<seq<Note>>)
      requires Named(notes)
      modifies this
      ensures Named(notes)
      ensures notes == if r.Some? then old(notes) + ByName(toCreate) else old(notes)
      ensures r.Some? ==> AreCreated(r.value, toCreate) && !SomeExists(old(notes), toCreate)
      ensures failed <==> old(failed) || (r.None? && !SomeExists(old(notes), toCreate))
    {
      if SomeExists(notes, toCreate) {
        return None;
      }
      if * {
        failed := true;
        return None;
      }
      hide Named, ByName, AreCreated;
      var created := Store(toCreate);
      r := Some(created);
    }

    method Store(toCreate: map<string, Note>) returns (created: seq<Note>)
      requires Named(notes)
      modifies `notes
      ensures Named(notes) && notes == old(notes) + ByName(toCreate) && AreCreated(created, toCreate)
    {
      created := [];
      var pending := toCreate.Keys;
      ghost var done: map<string, Note> := map[];
      ByNameOfNothing();
      hide NoteName, NoteIdFromName, ByName, Named;
      assert AreCreated(created, done);
      hide AreCreated;
      while pending != {}
        invariant pending <= toCreate.Keys
        invariant done == map id | id in toCreate.Keys - pending :: toCreate[id]
        invariant Named(notes) && notes == old(notes) + ByName(done) && AreCreated(created, done)
      {
        var id :| id in pending;
        pending := pending - {id};
        ByNameOneMore(done, id, toCreate[id]);
        OneMoreCreated(created, done, id, toCreate[id]);
        var note := toCreate[id].(name := NoteName(id));
        StoreOneMore(old(notes), ByName(done), note);
        done := done[id := toCreate[id]];
        notes := notes[note.name := note];
        created := created + [note];
      }
      assert done == toCreate;
    }
  }

  /** The notes are those to be created, under the names of their ids. */
  ghost predicate AreCreated(created: seq<Note>, toCreate: map<string, Note>) {
    && (forall n :: n in created ==> exists id :: id in toCreate && n == toCreate[id].(name := NoteName(id)))
    && (forall id | id in toCreate :: toCreate[id].(name := NoteName(id)) in created)
  }

  lemma StoreOneMore(before: map<string, Note>, added: map<string, Note>, note: Note)
    requires Named(before + added)
    ensures (before + added)[note.name := note] == before + added[note.name := note]
    ensures Named((before + added)[note.name := note])
  {
  }

  lemma OneMoreCreated(created: seq<Note>, done: map<string, Note>, id: string, note: Note)
    requires AreCreated(created, done) && id !in done
    ensures AreCreated(created + [note.(name := NoteName(id))], done[id := note])
  {
    hide NoteName;
    var more, all := created + [note.(name := NoteName(id))], done[id := note];
    forall n | n in more ensures exists other :: other in all && n == all[other].(name := NoteName(other)) {
      if n in created {
        var other :| other in done && n == done[other].(name := NoteName(other));
        assert other in all && n == all[other].(name := NoteName(other));
      } else {
        assert id in all && n == all[id].(name := NoteName(id));
      }
    }
    assert more[|created|] == note.(name := NoteName(id));
    forall other | other in all ensures all[other].(name := NoteName(other)) in more {
      assert other in done ==> done[other].(name := NoteName(other)) in created;
    }
  }

  lemma ByNameOfNothing()
    ensures ByName(map[]) == map[]
  {
    assert NamesOf({}) == {};
  }

  // ----- messages -----

  /** What the messages say. */
  function NotesOf(refs: seq<Ref<Note>>): (notes: seq<Note>)
    reads set r | r in refs
    ensures |notes| == |refs| && forall i | 0 <= i < |refs| :: notes[i] == refs[i].v
  {
    if refs == [] then [] else [refs[0].v] + NotesOf(refs[1..])
  }

  function Deref(refs: map<string, Ref<Note>>): (notes: map<string, Note>)
    reads refs.Values
  {
    map id | id in refs :: refs[id].v
  }

  /** No message is held under two ids. */
  predicate Injective(refs: map<string, Ref<Note>>) {
    forall a, b | a in refs && b in refs && a != b :: refs[a] != refs[b]
  }

  class RodeServer {
    const grafeas: NoteStore

    constructor (grafeas: NoteStore)
      ensures this.grafeas == grafeas
    {
      this.grafeas := grafeas;
    }

    /** The notes are messages of the caller, held by both maps; they are answered with their full names. */
    method RegisterCollector(collectorId: string, notes: seq<Ref<Note>>) returns (r: Result<map<string, Ref<Note>>>)
      requires Named(grafeas.notes)
      modifies grafeas, set n | n in notes
      ensures r == Err(InvalidArgument) <==> collectorId == "" || !DistinctKinds(old(NotesOf(notes)))
      ensures r.Err? ==> r.code == InvalidArgument || (r.code == Internal && grafeas.failed)
      ensures r.Err? ==> grafeas.notes == old(grafeas.notes)
      ensures r.Ok? ==>
                (forall id | id in r.value :: r.value[id] in notes) &&
                Deref(r.value) == WithNames(Requested(collectorId, old(NotesOf(notes)))) &&
                grafeas.notes == Registered(old(grafeas.notes), Requested(collectorId, old(NotesOf(notes))))
    {
      if collectorId == "" {
        return Err(InvalidArgument);
      }
      if notes == [] {
        ByNameOfNothing();
        assert Registered(grafeas.notes, map[]) == grafeas.notes;
        return Ok(map[]);
      }
      hide NoteName, NoteIdFromName, NoteIdOf, ListingPrefix, DistinctKinds, NamesOf;
      var collected := CollectNotes(collectorId, notes);
      if collected.Err? {
        return Err(InvalidArgument);
      }
      RequestedAreListed(collectorId, NotesOf(notes));
      hide Requested, Registered, ByName, WithNames;
      var registered := Register(collectorId, collected.value);
      if !registered {
        return Err(Internal);
      }
      r := Ok(collected.value);
    }

    /** The part of RegisterCollector after the first loop. */
    method Register(collectorId: string, notesWithIds: map<string, Ref<Note>>) returns (ok: bool)
      requires Named(grafeas.notes) && Injective(notesWithIds)
      requires forall id | id in notesWithIds :: HasPrefix(NoteName(id), ListingPrefix(collectorId))
      modifies grafeas, notesWithIds.Values
      ensures !ok ==> grafeas.failed && grafeas.notes == old(grafeas.notes)
      ensures ok ==>
                Deref(notesWithIds) == WithNames(old(Deref(notesWithIds))) &&
                grafeas.notes == Registered(old(grafeas.notes), old(Deref(notesWithIds)))
    {
      hide NoteName, NoteIdFromName, ListingPrefix, NamesOf, ByName, WithNames, Registered, Named, Injective, HasPrefix;
      ghost var requested, store := Deref(notesWithIds), grafeas.notes;
      var listed := grafeas.ListNotes(ListingPrefix(collectorId));
      if listed.None? {
        return false;
      }
      var notesToCreate := MarkExisting(collectorId, notesWithIds, listed.value, store);
      ok := CreateMissing(notesWithIds, notesToCreate, requested);
    }

    /** The part after the second loop. */
    method CreateMissing(notesWithIds: map<string, Ref<Note>>, notesToCreate: map<string, Ref<Note>>,
                         ghost requested: map<string, Note>)
      returns (ok: bool)
      requires Named(grafeas.notes) && Injective(notesWithIds) && requested.Keys == notesWithIds.Keys
      requires notesToCreate == map id | id in notesWithIds && NoteName(id) !in grafeas.notes :: notesWithIds[id]
      requires forall id | id in notesWithIds ::
                 notesWithIds[id].v == NamedIf(NoteName(id) in grafeas.notes, requested[id], id)
      modifies grafeas, notesWithIds.Values
      ensures !ok ==> grafeas.failed && grafeas.notes == old(grafeas.notes)
      ensures ok ==>
                Deref(notesWithIds) == WithNames(requested) &&
                grafeas.notes == Registered(old(grafeas.notes), requested)
    {
      hide NoteName, NoteIdFromName, NamesOf, ByName, WithNames, Registered, Named, Injective, AreCreated, NamedIf;
      ghost var store, marked, toCreate := grafeas.notes, Deref(notesWithIds), Deref(notesToCreate);
      MissingAre(notesWithIds, notesToCreate, requested, store);
      AllNamed(requested, store, marked, toCreate);
      CreatedIsRegistered(store, requested, toCreate);
      ByNameOfNothing();
      if notesToCreate != map[] {
        var created := grafeas.BatchCreateNotes(Deref(notesToCreate));
        if created.None? {
          return false;
        }
        NameCreated(notesWithIds, toCreate, created.value);
        assert Deref(notesWithIds) == map id | id in marked :: NamedIf(id in toCreate, marked[id], id);
      }
      ok := true;
    }

    /** The first loop; two notes of the same kind are refused. */
    static method CollectNotes(collectorId: string, notes: seq<Ref<Note>>) returns (r: Result<map<string, Ref<Note>>>)
      ensures r.Ok? <==> DistinctKinds(NotesOf(notes))
      ensures r.Ok? ==>
                Deref(r.value) == Requested(collectorId, NotesOf(notes)) && Injective(r.value) &&
                forall id | id in r.value :: r.value[id] in notes
    {
      hide NoteIdOf, Requested, DistinctKinds, NotesOf, Injective;
      ghost var values := NotesOf(notes);
      var notesWithIds: map<string, Ref<Note>> := map[];
      NothingRequested(collectorId);
      assert values[..0] == [];
      for i := 0 to |notes|
        invariant DistinctKinds(values[..i]) && Deref(notesWithIds) == Requested(collectorId, values[..i])
        invariant forall id | id in notesWithIds ::
                    notesWithIds[id] in notes && NoteIdOf(collectorId, notesWithIds[id].v.kind) == id
      {
        var noteId := NoteIdOf(collectorId, notes[i].v.kind);
        assert noteId in notesWithIds <==> noteId in Deref(notesWithIds);
        if noteId in notesWithIds {
          SameKind(collectorId, values, i);
          return Err(InvalidArgument);
        }
        DistinctOneMore(collectorId, values, i);
        RequestedOneMore(collectorId, values, i);
        notesWithIds := notesWithIds[noteId := notes[i]];
      }
      assert values[..|notes|] == values;
      ByIdIsInjective(collectorId, notesWithIds);
      r := Ok(notesWithIds);
    }

    /** The second loop: existing notes get their names and need not be created. */
    static method MarkExisting(collectorId: string, notesWithIds: map<string, Ref<Note>>, listed: seq<Note>,
                               ghost store: map<string, Note>)
      returns (notesToCreate: map<string, Ref<Note>>)
      requires Named(store) && Injective(notesWithIds)
      requires forall n :: n in listed <==>
                 n.name in store && store[n.name] == n && HasPrefix(n.name, ListingPrefix(collectorId))
      requires forall id | id in notesWithIds :: HasPrefix(NoteName(id), ListingPrefix(collectorId))
      modifies notesWithIds.Values
      ensures notesToCreate == map id | id in notesWithIds && NoteName(id) !in store :: notesWithIds[id]
      ensures forall id | id in notesWithIds ::
                notesWithIds[id].v == NamedIf(NoteName(id) in store, old(notesWithIds[id].v), id)
    {
      hide NoteName, NoteIdFromName, ListingPrefix, Seen, Named;
      NothingSeen();
      notesToCreate := notesWithIds;
      for i := 0 to |listed|
        invariant forall id | id in notesWithIds ::
                    notesWithIds[id].v == NamedIf(Seen(listed[..i], id), old(notesWithIds[id].v), id)
        invariant notesToCreate == map id | id in notesWithIds && !Seen(listed[..i], id) :: notesWithIds[id]
      {
        var note := listed[i];
        assert note in listed;
        var noteId := NoteIdFromName(note.name);
        ListedName(collectorId, note.name);
        SeenOneMore(listed, i, noteId);
        if noteId in notesWithIds {
          notesWithIds[noteId].v := notesWithIds[noteId].v.(name := note.name);
          notesToCreate := notesToCreate - {noteId};
        }
      }
      assert listed[..|listed|] == listed;
      SeenIsStored(collectorId, notesWithIds.Keys, listed, store);
    }

    /** The last loop: the created notes get their names. */
    static method NameCreated(notesWithIds: map<string, Ref<Note>>, ghost toCreate: map<string, Note>,
                              created: seq<Note>)
      requires Injective(notesWithIds) && toCreate.Keys <= notesWithIds.Keys && AreCreated(created, toCreate)
      modifies notesWithIds.Values
      ensures forall id | id in notesWithIds ::
                notesWithIds[id].v == NamedIf(id in toCreate, old(notesWithIds[id].v), id)
    {
      NamesUndone();
      hide NoteName, NoteIdFromName, Seen;
      NothingSeen();
      for i := 0 to |created|
        invariant forall id | id in notesWithIds ::
                    notesWithIds[id].v == NamedIf(Seen(created[..i], id), old(notesWithIds[id].v), id)
      {
        var note := created[i];
        assert note in created;
        var noteId := NoteIdFromName(note.name);
        ghost var id :| id in toCreate && note == toCreate[id].(name := NoteName(id));
        SeenOneMore(created, i, noteId);
        if noteId in notesWithIds {
          notesWithIds[noteId].v := notesWithIds[noteId].v.(name := note.name);
        }
      }
      assert created[..|created|] == created;
      CreatedAreSeen(created, toCreate);
    }
  }

  /** What the second loop leaves in the messages. */
  lemma MissingAre(notesWithIds: map<string, Ref<Note>>, notesToCreate: map<string, Ref<Note>>,
                   requested: map<string, Note>, store: map<string, Note>)
    requires requested.Keys == notesWithIds.Keys
    requires notesToCreate == map id | id in notesWithIds && NoteName(id) !in store :: notesWithIds[id]
    requires forall id | id in notesWithIds ::
               notesWithIds[id].v == NamedIf(NoteName(id) in store, requested[id], id)
    ensures Deref(notesToCreate) == map id | id in requested && NoteName(id) !in store :: requested[id]
    ensures Deref(notesWithIds) == map id | id in requested :: NamedIf(NoteName(id) in store, requested[id], id)
    ensures notesToCreate == map[] <==> Deref(notesToCreate) == map[]
  {
    hide NoteName;
    assert Deref(notesToCreate).Keys == notesToCreate.Keys;
    assert notesToCreate == map[] <==> notesToCreate.Keys == {};
    assert Deref(notesToCreate) == map[] <==> Deref(notesToCreate).Keys == {};
  }

  /** A note, with the full name of its id where it has got it. */
  function NamedIf(named: bool, note: Note, id: string): Note {
    if named then note.(name := NoteName(id)) else note
  }

  lemma CreatedAreSeen(created: seq<Note>, toCreate: map<string, Note>)
    requires AreCreated(created, toCreate)
    ensures forall id :: Seen(created, id) <==> id in toCreate
  {
    NamesUndone();
    hide NoteName, NoteIdFromName;
    forall id ensures Seen(created, id) <==> id in toCreate {
      if Seen(created, id) {
        var n :| n in created && n.name == NoteName(id);
        var other :| other in toCreate && n == toCreate[other].(name := NoteName(other));
        assert NoteIdFromName(NoteName(id)) == NoteIdFromName(NoteName(other));
      }
    }
  }

  lemma {:induction false} NothingRequested(collectorId: string)
    ensures Requested(collectorId, []) == map[] && DistinctKinds([])
  {
  }

  lemma {:induction false} RequestedOneMore(collectorId: string, notes: seq<Note>, i: nat)
    requires i < |notes|
    ensures Requested(collectorId, notes[..i + 1])
         == Requested(collectorId, notes[..i])[NoteIdOf(collectorId, notes[i].kind) := notes[i]]
  {
    hide NoteIdOf;
    assert notes[..i + 1][..i] == notes[..i];
  }

  lemma {:induction false} SameKind(collectorId: string, notes: seq<Note>, i: nat)
    requires i < |notes| && NoteIdOf(collectorId, notes[i].kind) in Requested(collectorId, notes[..i])
    ensures !DistinctKinds(notes)
  {
    hide NoteIdOf, Requested;
    RequestedIds(collectorId, notes[..i]);
    var j :| 0 <= j < i && NoteIdOf(collectorId, notes[..i][j].kind) == NoteIdOf(collectorId, notes[i].kind);
    NoteIdInjective(collectorId, notes[..i][j].kind, collectorId, notes[i].kind);
    assert notes[j].kind == notes[i].kind;
  }

  lemma ByIdIsInjective(collectorId: string, refs: map<string, Ref<Note>>)
    requires forall id | id in refs :: NoteIdOf(collectorId, refs[id].v.kind) == id
    ensures Injective(refs)
  {
    hide NoteIdOf;
  }

  lemma {:induction false} DistinctOneMore(collectorId: string, notes: seq<Note>, i: nat)
    requires i < |notes| && DistinctKinds(notes[..i])
    requires NoteIdOf(collectorId, notes[i].kind) !in Requested(collectorId, notes[..i])
    ensures DistinctKinds(notes[..i + 1])
  {
    hide NoteIdOf, Requested;
    RequestedIds(collectorId, notes[..i]);
    forall j | 0 <= j < i ensures notes[j].kind != notes[i].kind {
      assert NoteIdOf(collectorId, notes[..i][j].kind) in Requested(collectorId, notes[..i]);
    }
    KindsOneMore(notes, i);
  }

  lemma KindsOneMore(notes: seq<Note>, i: nat)
    requires i < |notes| && DistinctKinds(notes[..i]) && forall j | 0 <= j < i :: notes[j].kind != notes[i].kind
    ensures DistinctKinds(notes[..i + 1])
  {
    var some, more := notes[..i], notes[..i + 1];
    forall j, k | 0 <= j < k < |more| ensures more[j].kind != more[k].kind {
      assert k < i ==> some[j].kind != some[k].kind;
    }
  }

  /** The two ways a requested note gets its name leave none without. */
  lemma AllNamed(requested: map<string, Note>, store: map<string, Note>, marked: map<string, Note>,
                 toCreate: map<string, Note>)
    requires toCreate.Keys == set id | id in requested && NoteName(id) !in store
    requires marked == map id | id in requested :: NamedIf(NoteName(id) in store, requested[id], id)
    ensures (map id | id in marked :: NamedIf(id in toCreate, marked[id], id)) == WithNames(requested)
    ensures toCreate == map[] ==> marked == WithNames(requested)
  {
    hide NoteName;
    if toCreate == map[] {
      forall id | id in requested ensures marked[id] == WithNames(requested)[id] {
        assert id !in toCreate.Keys;
      }
    }
  }

  ghost predicate Seen(ns: seq<Note>, id: string) {
    exists n :: n in ns && n.name == NoteName(id)
  }

  lemma NothingSeen()
    ensures forall id :: !Seen([], id)
  {
  }

  lemma SeenIsStored(collectorId: string, requested: set<string>, listed: seq<Note>, store: map<string, Note>)
    requires Named(store)
    requires forall n :: n in listed <==>
               n.name in store && store[n.name] == n && HasPrefix(n.name, ListingPrefix(collectorId))
    requires forall id | id in requested :: HasPrefix(NoteName(id), ListingPrefix(collectorId))
    ensures forall id | id in requested :: Seen(listed, id) <==> NoteName(id) in store
  {
    hide NoteName, ListingPrefix;
    forall id | id in requested ensures Seen(listed, id) <==> NoteName(id) in store {
      if NoteName(id) in store {
        assert store[NoteName(id)] in listed;
      }
    }
  }

  lemma SeenOneMore(ns: seq<Note>, i: nat, noteId: string)
    requires i < |ns| && ns[i].name == NoteName(noteId)
    ensures forall id :: Seen(ns[..i + 1], id) <==> Seen(ns[..i], id) || id == noteId
  {
    NamesUndone();
    hide NoteName, NoteIdFromName;
    assert ns[..i + 1] == ns[..i] + [ns[i]];
    forall id ensures Seen(ns[..i + 1], id) <==> Seen(ns[..i], id) || id == noteId {
      assert ns[i] in ns[..i + 1];
    }
  }

  lemma ListedName(collectorId: string, name: string)
    requires HasPrefix(name, ListingPrefix(collectorId))
    ensures name == NoteName(NoteIdFromName(name))
  {
    assert NOTES_PREFIX <= ListingPrefix(collectorId);
    assert NOTES_PREFIX <= name;
  }

  lemma {:induction false} RequestedAreListed(collectorId: string, notes: seq<Note>)
    ensures forall id | id in Requested(collectorId, notes) :: HasPrefix(NoteName(id), ListingPrefix(collectorId))
  {
    RequestedIds(collectorId, notes);
    hide NoteName, NoteIdOf, ListingPrefix, Requested;
    forall id | id in Requested(collectorId, notes) ensures HasPrefix(NoteName(id), ListingPrefix(collectorId)) {
      var i :| 0 <= i < |notes| && NoteIdOf(collectorId, notes[i].kind) == id;
      RequestedIsListed(collectorId, notes[i].kind);
    }
  }

  /** Creating the missing notes registers the requested ones. */
  lemma CreatedIsRegistered(store: map<string, Note>, requested: map<string, Note>, toCreate: map<string, Note>)
    requires toCreate == map id | id in requested && NoteName(id) !in store :: requested[id]
    ensures Registered(store, requested) == store + ByName(toCreate)
  {
    NamesUndone();
    hide NoteName, NoteIdFromName;
    var l, r := Registered(store, requested), store + ByName(toCreate);
    forall name ensures (name in l <==> name in r) && (name in l ==> l[name] == r[name]) {
      if name in ByName(requested) {
        assert NoteName(NoteIdFromName(name)) == name;
      }
    }
    assert l == r;
  }
}
