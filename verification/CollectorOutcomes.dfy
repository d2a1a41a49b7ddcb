/** What a registration leaves in the note store and answers, note by note. */
module CollectorOutcomes {
  import opened Collectors

  /** What the server puts after a collector's id. */
  function Dashed(kind: NoteKind): string {
    match kind
    case Vulnerability => "-vulnerability"
    case Build => "-build"
    case Image => "-image"
    case Package => "-package"
    case Deployment => "-deployment"
    case Discovery => "-discovery"
    case Attestation => "-attestation"
    case Intoto => "-intoto"
    case Unspecified => "-unspecified"
  }

  /** The full name of each kind's note. */
  lemma NoteNames(c: string, kind: NoteKind)
    ensures NoteName(NoteIdOf(c, kind)) == "projects/rode/notes/" + (c + Dashed(kind))
  {
    DashedSuffix(kind);
    hide Dashed, KindSuffix;
    assert c + "-" + KindSuffix(kind) == c + ("-" + KindSuffix(kind));
  }

  lemma DashedSuffix(kind: NoteKind)
    ensures Dashed(kind) == "-" + KindSuffix(kind)
  {
  }

  lemma {:induction false} RequestedAt(c: string, notes: seq<Note>, i: nat)
    requires i < |notes| && DistinctKinds(notes)
    ensures NoteIdOf(c, notes[i].kind) in Requested(c, notes)
    ensures Requested(c, notes)[NoteIdOf(c, notes[i].kind)] == notes[i]
    decreases |notes|
  {
    hide NoteIdOf;
    var n := |notes| - 1;
    if i < n {
      RequestedAt(c, notes[..n], i);
      if NoteIdOf(c, notes[i].kind) == NoteIdOf(c, notes[n].kind) {
        NoteIdInjective(c, notes[i].kind, c, notes[n].kind);
      }
    }
  }

  /** Each requested note is stored and answered under the full name of its kind: as it was stored before, or else with
      the kind and the description of the request. */
  lemma {:induction false} RegistrationOutcome(store: map<string, Note>, c: string, notes: seq<Note>, i: nat)
    requires i < |notes| && DistinctKinds(notes)
    ensures var requested, id, name :=
              Requested(c, notes), NoteIdOf(c, notes[i].kind), NoteName(NoteIdOf(c, notes[i].kind));
            var note := Note(name, notes[i].kind, notes[i].description);
            name in Registered(store, requested) &&
            Registered(store, requested)[name] == (if name in store then store[name] else note) &&
            id in WithNames(requested) && WithNames(requested)[id] == note
  {
    RequestedAt(c, notes, i);
    NameUndone(NoteIdOf(c, notes[i].kind));
    hide NoteIdOf, NoteName, NoteIdFromName, Requested;
  }
}
