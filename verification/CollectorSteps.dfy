/** Registrations of collectors as they really run: a listing, then the creation of what it did not find, without a
    lock, so any number of registrations interleave. */
module CollectorSteps {
  import opened Collectors

  /** A registration that has listed the notes: what it asks for, and what of it the listing did not find. */
  datatype Call = Call(requested: map<string, Note>, toCreate: map<string, Note>)

  datatype State = State(store: map<string, Note>, calls: map<nat, Call>)

  datatype Label =
    | List(c: nat, collectorId: string, notes: seq<Note>)
    | CreateNotes(c: nat)
    | Fail(c: nat)

  const INITIAL := State(map[], map[])

  function Finish(s: State, c: nat): State {
    s.(calls := s.calls - {c})
  }

  function Missing(store: map<string, Note>, requested: map<string, Note>): map<string, Note> {
    map id | id in requested && NoteName(id) !in store :: requested[id]
  }

  /** The creation of the missing notes fails as a whole when one of them has been created in the meantime. */
  predicate Refused(s: State, c: nat)
    requires c in s.calls
  {
    SomeExists(s.store, s.calls[c].toCreate)
  }

  function Apply(s: State, l: Label): State {
    match l
    case List(c, collectorId, notes) =>
      if c in s.calls || collectorId == "" || !DistinctKinds(notes) then s
      else
        var requested := Requested(collectorId, notes);
        s.(calls := s.calls[c := Call(requested, Missing(s.store, requested))])
    case CreateNotes(c) =>
      if c !in s.calls then s
      else if Refused(s, c) then Finish(s, c)
      else Finish(s.(store := s.store + ByName(s.calls[c].toCreate)), c)
    case Fail(c) => Finish(s, c)
  }

  function Run(labels: seq<Label>): State
    decreases |labels|
  {
    if labels == [] then INITIAL else Apply(Run(labels[..|labels| - 1]), labels[|labels| - 1])
  }

  /** A registration that runs without interruption registers its notes. */
  lemma {:induction false} RegistrationIsItsSteps(s: State, c: nat, collectorId: string, notes: seq<Note>)
    requires c !in s.calls && collectorId != "" && DistinctKinds(notes)
    ensures Apply(Apply(s, List(c, collectorId, notes)), CreateNotes(c))
         == State(Registered(s.store, Requested(collectorId, notes)), s.calls)
  {
    hide NoteName, NoteIdFromName, Requested, DistinctKinds;
    var requested := Requested(collectorId, notes);
    CreatedIsRegistered(s.store, requested, Missing(s.store, requested));
    hide ByName, Registered;
    assert s.calls[c := Call(requested, Missing(s.store, requested))] - {c} == s.calls;
  }

  /** What a call in flight holds: it asks for the notes it found missing, and the others are stored. */
  ghost predicate Inv(s: State) {
    forall c {:trigger CallOk(s.store, s.calls[c])} | c in s.calls :: CallOk(s.store, s.calls[c])
  }

  ghost predicate CallOk(store: map<string, Note>, call: Call) {
    && (forall id | id in call.toCreate :: id in call.requested && call.toCreate[id] == call.requested[id])
    && forall id | id in call.requested && id !in call.toCreate :: NoteName(id) in store
  }

  /** A stored note is never changed or lost, whatever registrations overlap. */
  lemma StepKeepsNotes(s: State, l: Label)
    requires Inv(s)
    ensures Inv(Apply(s, l))
    ensures forall name | name in s.store :: name in Apply(s, l).store && Apply(s, l).store[name] == s.store[name]
  {
    hide NoteName, NoteIdFromName, Requested, DistinctKinds;
    var s' := Apply(s, l);
    if l.CreateNotes? && l.c in s.calls && !Refused(s, l.c) {
      NewNamesAreNew(s.store, s.calls[l.c].toCreate);
    }
    hide ByName, SomeExists;
    forall c | c in s'.calls ensures CallOk(s'.store, s'.calls[c]) {
      assert c in s.calls && s'.calls[c] == s.calls[c] ==> CallOk(s.store, s.calls[c]);
    }
  }

  lemma NewNamesAreNew(store: map<string, Note>, toCreate: map<string, Note>)
    requires !SomeExists(store, toCreate)
    ensures forall name | name in store :: name !in ByName(toCreate)
  {
    hide NoteName, NoteIdFromName, ByName;
    forall name | name in store ensures name !in ByName(toCreate) {
      NameIsOfAnId(toCreate, name);
    }
  }

  lemma NameIsOfAnId(toCreate: map<string, Note>, name: string)
    ensures name in ByName(toCreate) ==> NoteIdFromName(name) in toCreate && NoteName(NoteIdFromName(name)) == name
  {
    hide NoteName, NoteIdFromName;
  }

  /** When a registration's creation goes through, every requested note is stored, and exactly its missing ones are
      new. */
  lemma CreationRegisters(s: State, c: nat)
    requires Inv(s) && c in s.calls && !Refused(s, c)
    ensures var store', call := Apply(s, CreateNotes(c)).store, s.calls[c];
            store'.Keys - s.store.Keys == NamesOf(call.toCreate.Keys) &&
            forall id | id in call.requested :: NoteName(id) in store'
  {
    NewNamesAreNew(s.store, s.calls[c].toCreate);
    assert CallOk(s.store, s.calls[c]);
    hide NoteName, NoteIdFromName;
    var store', toCreate := Apply(s, CreateNotes(c)).store, s.calls[c].toCreate;
    forall id | id in s.calls[c].requested ensures NoteName(id) in store' {
      assert id in toCreate ==> NoteName(id) in NamesOf(toCreate.Keys);
    }
  }

  lemma {:induction false} RunKeepsNotes(labels: seq<Label>, m: nat)
    requires m <= |labels|
    ensures Inv(Run(labels))
    ensures forall name | name in Run(labels[..m]).store ::
              name in Run(labels).store && Run(labels).store[name] == Run(labels[..m]).store[name]
  {
    hide Apply, CallOk;
    if m == |labels| {
      assert labels[..m] == labels;
    }
    if labels != [] {
      var n := |labels| - 1;
      RunKeepsNotes(labels[..n], if m <= n then m else n);
      assert m <= n ==> labels[..n][..m] == labels[..m];
      StepKeepsNotes(Run(labels[..n]), labels[n]);
    }
  }

  /** Under every interleaving: a creation is refused exactly when another registration has stored one of the notes that
      the listing did not find. A refused registration stores nothing; asked again, it finds that note. */
  lemma {:induction false} RefusedExactly(labels: seq<Label>, m: nat, c: nat, collectorId: string, notes: seq<Note>)
    requires m < |labels| && labels[m] == List(c, collectorId, notes) && c !in Run(labels[..m]).calls
    requires collectorId != "" && DistinctKinds(notes)
    requires c in Run(labels).calls && forall i | m < i < |labels| :: labels[i].c != c
    ensures var requested := Requested(collectorId, notes);
            (Refused(Run(labels), c) <==>
             exists id | id in requested ::
               NoteName(id) !in Run(labels[..m]).store && NoteName(id) in Run(labels).store) &&
            (Refused(Run(labels), c) ==> Apply(Run(labels), CreateNotes(c)).store == Run(labels).store)
  {
    CallKeepsListing(labels, m, c, collectorId, notes);
    hide Run, NoteName, Requested, DistinctKinds;
  }

  lemma {:induction false} CallKeepsListing(labels: seq<Label>, m: nat, c: nat, collectorId: string, notes: seq<Note>)
    requires m < |labels| && labels[m] == List(c, collectorId, notes) && c !in Run(labels[..m]).calls
    requires collectorId != "" && DistinctKinds(notes) && forall i | m < i < |labels| :: labels[i].c != c
    ensures var requested := Requested(collectorId, notes);
            c in Run(labels).calls &&
            Run(labels).calls[c] == Call(requested, Missing(Run(labels[..m]).store, requested))
  {
    hide NoteName, Requested, DistinctKinds, ByName, SomeExists, Missing;
    var n := |labels| - 1;
    if m < n {
      assert labels[..n][..m] == labels[..m];
      CallKeepsListing(labels[..n], m, c, collectorId, notes);
    }
  }
}
