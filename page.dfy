/**
 * The notes page: the client-side mirror of the caller's notes and types,
 * kept in sync with the datastore by refetching after each reported success,
 * with optimistic edits of the type list (rolled back only when the call
 * throws) and an optimistic, never reverted, move of a note.
 */
module Page {
  import opened Wrappers
  import opened NotesAction
  import opened NoteViews

  /** An entry of the page's `noteTypes` state: `{ id, typeName }`. */
  datatype Column = Column(id: int, typeName: string)

  /**
   * The outcome of one server-action call as the page sees it: the call threw
   * (it never reached the store), or it returned and the store reported
   * success (`queryOk`) or an error.
   */
  datatype Reply = Thrown | Replied(queryOk: bool)

  /**
   * The outcome of the refetch `Promise.all([fetchNotes(), fetchNoteTypes()])`:
   * it threw, or both returned; the flags are the outcomes of fetchNotes' type
   * query, its note query, and fetchNoteTypes' query.
   */
  datatype Refetch = RefetchThrown | Refetched(notesTypeQueryOk: bool, notesQueryOk: bool, typesQueryOk: bool)

  function Columns(types: seq<NoteType>): seq<Column>
  {
    seq(|types|, i requires 0 <= i < |types| => Column(types[i].id, types[i].typeName))
  }

  /** `notes.filter(note => !!note.content)`. */
  function WithContent(notes: seq<NoteWithTypeName>): (r: seq<NoteWithTypeName>)
    ensures |r| <= |notes|
    ensures forall v :: v in r <==> v in notes && v.content != ""
  {
    if notes == [] then []
    else (if notes[0].content != "" then [notes[0]] else []) + WithContent(notes[1..])
  }

  /** The empty-content filter keeps the order of the notes it keeps. */
  lemma {:induction false} WithContentAppend(a: seq<NoteWithTypeName>, b: seq<NoteWithTypeName>)
    ensures WithContent(a + b) == WithContent(a) + WithContent(b)
  {
    if a != [] {
      assert (a + b)[0] == a[0] && (a + b)[1..] == a[1..] + b;
      WithContentAppend(a[1..], b);
      var head := if a[0].content != "" then [a[0]] else [];
      assert WithContent(a + b) == head + (WithContent(a[1..]) + WithContent(b));
    } else {
      assert a + b == b;
    }
  }

  /** `types.filter(t => t.id !== id)`. */
  function WithoutColumn(cols: seq<Column>, id: int): (r: seq<Column>)
    ensures |r| <= |cols|
    ensures forall c :: c in r <==> c in cols && c.id != id
  {
    if cols == [] then []
    else (if cols[0].id != id then [cols[0]] else []) + WithoutColumn(cols[1..], id)
  }

  /** The type filter keeps the order of the entries it keeps. */
  lemma {:induction false} WithoutColumnAppend(a: seq<Column>, b: seq<Column>, id: int)
    ensures WithoutColumn(a + b, id) == WithoutColumn(a, id) + WithoutColumn(b, id)
  {
    if a != [] {
      assert (a + b)[0] == a[0] && (a + b)[1..] == a[1..] + b;
      WithoutColumnAppend(a[1..], b, id);
      var head := if a[0].id != id then [a[0]] else [];
      assert WithoutColumn(a + b, id) == head + (WithoutColumn(a[1..], id) + WithoutColumn(b, id));
    } else {
      assert a + b == b;
    }
  }

  /** `types.find(t => t.id === id)`: the first entry with that id. */
  function FindColumn(cols: seq<Column>, id: int): (r: Option<Column>)
    ensures r.None? <==> forall c :: c in cols ==> c.id != id
    ensures r.Some? ==> r.value.id == id &&
                        exists k :: 0 <= k < |cols| && cols[k] == r.value && forall j :: 0 <= j < k ==> cols[j].id != id
  {
    if cols == [] then None
    else if cols[0].id == id then Some(cols[0])
    else
      var r := FindColumn(cols[1..], id);
      assert r.Some? ==> exists k :: 0 <= k < |cols| && cols[k] == r.value && forall j :: 0 <= j < k ==> cols[j].id != id by {
        if r.Some? {
          var k :| 0 <= k < |cols[1..]| && cols[1..][k] == r.value && forall j :: 0 <= j < k ==> cols[1..][j].id != id;
          assert cols[k + 1] == r.value;
          assert forall j :: 0 <= j < k + 1 ==> cols[j].id != id by {
            forall j | 0 <= j < k + 1 ensures cols[j].id != id {
              if j > 0 { assert cols[j] == cols[1..][j - 1]; }
            }
          }
        }
      }
      r
  }

  /** Filtering out a fresh temporary id gives back the list it was appended to. */
  lemma {:induction false} AddTypeRollbackRestores(cols: seq<Column>, tempId: int, typeName: string)
    requires forall c :: c in cols ==> c.id != tempId
    ensures WithoutColumn(cols + [Column(tempId, typeName)], tempId) == cols
  {
    if cols == [] {
      assert WithoutColumn([Column(tempId, typeName)], tempId) == [] + WithoutColumn([], tempId);
    } else {
      assert (cols + [Column(tempId, typeName)])[1..] == cols[1..] + [Column(tempId, typeName)];
      AddTypeRollbackRestores(cols[1..], tempId, typeName);
    }
  }

  /**
   * When ids are unique, removing a type and re-appending the removed entry
   * gives back the same entries ...
   */
  lemma RemoveTypeRollbackRestoresMembership(cols: seq<Column>, id: int)
    requires forall i, j :: 0 <= i < j < |cols| ==> cols[i].id != cols[j].id
    requires FindColumn(cols, id).Some?
    ensures var back := WithoutColumn(cols, id) + [FindColumn(cols, id).value];
            |back| == |cols| && forall c :: c in back <==> c in cols
  {
    var removed := FindColumn(cols, id).value;
    forall c | c in cols && c.id == id ensures c == removed {
      var i :| 0 <= i < |cols| && cols[i] == c;
      var j :| 0 <= j < |cols| && cols[j] == removed;
      assert cols[i].id == cols[j].id;
    }
    WithoutColumnLength(cols, id);
  }

  lemma {:induction false} WithoutColumnLength(cols: seq<Column>, id: int)
    requires forall i, j :: 0 <= i < j < |cols| ==> cols[i].id != cols[j].id
    requires FindColumn(cols, id).Some?
    ensures |WithoutColumn(cols, id)| == |cols| - 1
  {
    if cols[0].id != id {
      WithoutColumnLength(cols[1..], id);
    } else {
      assert forall c :: c in cols[1..] ==> c.id != id by {
        forall c | c in cols[1..] ensures c.id != id {
          var k :| 0 <= k < |cols[1..]| && cols[1..][k] == c;
          assert cols[k + 1] == c;
        }
      }
      WithoutColumnKeepsAll(cols[1..], id);
    }
  }

  lemma {:induction false} WithoutColumnKeepsAll(cols: seq<Column>, id: int)
    requires forall c :: c in cols ==> c.id != id
    ensures WithoutColumn(cols, id) == cols
  {
    if cols != [] {
      assert cols[0] in cols;
      assert forall c :: c in cols[1..] ==> c in cols;
      WithoutColumnKeepsAll(cols[1..], id);
    }
  }

  /** ... but not in the same place: the re-appended entry goes to the end. */
  lemma RemoveTypeRollbackMovesToEnd()
    ensures var cols := [Column(1, "Ideas"), Column(2, "Todo")];
            var back := WithoutColumn(cols, 1) + [FindColumn(cols, 1).value];
            back == [Column(2, "Todo"), Column(1, "Ideas")] && back != cols
  {
    var cols := [Column(1, "Ideas"), Column(2, "Todo")];
    assert cols[1..] == [Column(2, "Todo")];
    assert WithoutColumn(cols[1..][1..], 1) == [];
  }

  /** The notes page's state, bound to the datastore its server actions reach. */
  class NotesPage {
    const store: Datastore
    const session: Option<UserId>
    var notes: seq<NoteWithTypeName>
    var noteTypes: seq<Column>
    var currentNote: Option<NoteWithTypeName>
    var isEditing: bool
    var loading: bool
    var noteModalOpen: bool

    constructor (store: Datastore, session: Option<UserId>)
      ensures this.store == store && this.session == session
      ensures notes == [] && noteTypes == [] && currentNote == None
      ensures !isEditing && loading && !noteModalOpen
    {
      this.store := store;
      this.session := session;
      notes, noteTypes, currentNote := [], [], None;
      isEditing, loading, noteModalOpen := false, true, false;
    }

    /**
     * The mirror after a refetch of the current tables, given what it held
     * before: a thrown refetch leaves it alone.
     */
    ghost predicate AfterFetch(f: Refetch, notes0: seq<NoteWithTypeName>, types0: seq<Column>, loading0: bool)
      reads this, store
    {
      match f
      case RefetchThrown =>
        notes == notes0 && noteTypes == types0 && loading == loading0
      case Refetched(notesTypeQueryOk, notesQueryOk, typesQueryOk) =>
        && notes == WithContent(FetchNotes(store.notes, store.types, session, notesTypeQueryOk, notesQueryOk))
        && noteTypes == Columns(FetchNoteTypes(store.types, session, typesQueryOk))
        && !loading
    }

    twostate predicate MirrorKept()
      reads this
    {
      notes == old(notes) && noteTypes == old(noteTypes) && loading == old(loading)
    }

    twostate predicate FormKept()
      reads this
    {
      currentNote == old(currentNote) && isEditing == old(isEditing) && noteModalOpen == old(noteModalOpen)
    }

    /**
     * fetchData: replaces both lists with what the two fetches return, dropping
     * notes with empty content; a thrown fetch changes nothing.
     */
    method FetchData(f: Refetch)
      modifies this
      ensures AfterFetch(f, old(notes), old(noteTypes), old(loading))
      ensures f.Refetched? ==>
                forall v :: v in notes ==>
                  && v.content != "" && v.Row() in store.notes
                  && session.Some? && v.typeId in OwnedIds(store.types, session.value)
      ensures FormKept()
    {
      if f.Refetched? {
        var notesRes := FetchNotes(store.notes, store.types, session, f.notesTypeQueryOk, f.notesQueryOk);
        var typesRes := FetchNoteTypes(store.types, session, f.typesQueryOk);
        notes := WithContent(notesRes);
        noteTypes := Columns(typesRes);
        loading := false;
      }
    }

    /**
     * The effect of createNote(values) followed, on a returned note only, by a
     * refetch.
     */
    twostate predicate NoteCreated(values: NoteInput, reply: Reply, f: Refetch)
      reads this, store
    {
      var ok := session.Some? && reply == Replied(true);
      && store.types == old(store.types) && store.nextTypeId == old(store.nextTypeId)
      && (ok ==>
            && store.notes == old(store.notes) + [Note(old(store.nextNoteId), values.content, values.typeId, values.color)]
            && store.nextNoteId == old(store.nextNoteId) + 1
            && AfterFetch(f, old(notes), old(noteTypes), old(loading)))
      && (!ok ==>
            && store.notes == old(store.notes) && store.nextNoteId == old(store.nextNoteId)
            && MirrorKept())
    }

    /** handleCreateNote: create, then refetch only if a note came back. */
    method HandleCreateNote(values: NoteInput, reply: Reply, f: Refetch)
      requires store.Valid()
      modifies this, store
      ensures store.Valid()
      ensures NoteCreated(values, reply, f)
      ensures FormKept()
    {
      if reply.Replied? {
        var created := store.CreateNote(session, values, reply.queryOk);
        if created.Some? {
          FetchData(f);
        }
      }
    }

    /**
     * The effect of handleUpdateNote: nothing without a current note; otherwise
     * updateNote(current id, values), and on a returned note a refetch and
     * clearing of the current note.
     */
    twostate predicate CurrentNoteUpdated(values: NoteInput, reply: Reply, f: Refetch)
      reads this, store
    {
      var target := old(currentNote);
      var ok := target.Some? && session.Some? && reply == Replied(true) && HasNote(old(store.notes), target.value.id);
      && store.types == old(store.types)
      && store.nextNoteId == old(store.nextNoteId) && store.nextTypeId == old(store.nextTypeId)
      && isEditing == old(isEditing) && noteModalOpen == old(noteModalOpen)
      && (ok ==>
            && store.notes == UpdatedNotes(old(store.notes), target.value.id, FullPatch(values))
            && AfterFetch(f, old(notes), old(noteTypes), old(loading))
            && currentNote == None)
      && (!ok ==>
            && store.notes == old(store.notes)
            && MirrorKept() && currentNote == old(currentNote))
    }

    /** handleUpdateNote: no-op without a current note; clears it only on a returned note. */
    method HandleUpdateNote(values: NoteInput, reply: Reply, f: Refetch)
      requires store.Valid()
      modifies this, store
      ensures store.Valid()
      ensures CurrentNoteUpdated(values, reply, f)
    {
      if currentNote.Some? && reply.Replied? {
        var updated := store.UpdateNote(session, currentNote.value.id, FullPatch(values), reply.queryOk);
        if updated.Some? {
          FetchData(f);
          currentNote := None;
        }
      }
    }

    /** handleDeleteNote: delete by id, then refetch only on a reported success. */
    method HandleDeleteNote(noteId: int, reply: Reply, f: Refetch)
      requires store.Valid()
      modifies this, store
      ensures store.Valid()
      ensures var ok := session.Some? && reply == Replied(true);
              && store.types == old(store.types)
              && store.nextNoteId == old(store.nextNoteId) && store.nextTypeId == old(store.nextTypeId)
              && store.notes == (if ok then WithoutNote(old(store.notes), noteId) else old(store.notes))
              && (ok ==> AfterFetch(f, old(notes), old(noteTypes), old(loading)))
              && (!ok ==> MirrorKept())
      ensures FormKept()
    {
      if reply.Replied? {
        var deleted := store.DeleteNote(session, noteId, reply.queryOk);
        if deleted {
          FetchData(f);
        }
      }
    }

    /**
     * handleAddNoteType: appends `{id: tempId, typeName}` before the request;
     * a thrown call filters `tempId` back out, a reported failure leaves the
     * entry in place, and a reported success refetches.
     */
    method HandleAddNoteType(typeName: string, tempId: int, reply: Reply, f: Refetch)
      requires store.Valid()
      modifies this, store
      ensures store.Valid()
      ensures var withTemp := old(noteTypes) + [Column(tempId, typeName)];
              var ok := session.Some? && reply == Replied(true);
              && store.notes == old(store.notes) && store.nextNoteId == old(store.nextNoteId)
              && (reply.Thrown? ==>
                    && unchanged(store)
                    && noteTypes == WithoutColumn(withTemp, tempId)
                    && notes == old(notes) && loading == old(loading))
              && (reply.Replied? && !ok ==>
                    && unchanged(store)
                    && noteTypes == withTemp
                    && notes == old(notes) && loading == old(loading))
              && (ok ==>
                    && store.types == old(store.types) + [NoteType(old(store.nextTypeId), typeName, session.value)]
                    && store.nextTypeId == old(store.nextTypeId) + 1
                    && AfterFetch(f, old(notes), withTemp, old(loading)))
      ensures FormKept()
    {
      var newType := Column(tempId, typeName);
      noteTypes := noteTypes + [newType];
      if reply.Thrown? {
        noteTypes := WithoutColumn(noteTypes, newType.id);
      } else {
        var created := store.CreateNoteType(session, typeName, reply.queryOk);
        if created {
          FetchData(f);
        }
      }
    }

    /**
     * handleRemoveType: removes every entry with that id at once; a thrown
     * call re-appends the first removed entry at the end, a reported failure
     * leaves it removed, and a reported success refetches.
     */
    method HandleRemoveType(typeId: int, reply: Reply, f: Refetch)
      requires store.Valid()
      modifies this, store
      ensures store.Valid()
      ensures var removed := FindColumn(old(noteTypes), typeId);
              var kept := WithoutColumn(old(noteTypes), typeId);
              var ok := session.Some? && reply == Replied(true);
              && store.notes == old(store.notes)
              && store.nextNoteId == old(store.nextNoteId) && store.nextTypeId == old(store.nextTypeId)
              && (reply.Thrown? ==>
                    && unchanged(store)
                    && noteTypes == (if removed.Some? then kept + [removed.value] else kept)
                    && notes == old(notes) && loading == old(loading))
              && (reply.Replied? && !ok ==>
                    && unchanged(store)
                    && noteTypes == kept
                    && notes == old(notes) && loading == old(loading))
              && (ok ==>
                    && store.types == WithoutType(old(store.types), typeId)
                    && AfterFetch(f, old(notes), kept, old(loading)))
      ensures FormKept()
    {
      var removedType := FindColumn(noteTypes, typeId);
      noteTypes := WithoutColumn(noteTypes, typeId);
      if reply.Thrown? {
        if removedType.Some? {
          noteTypes := noteTypes + [removedType.value];
        }
      } else {
        var deleted := store.DeleteType(session, typeId, reply.queryOk);
        if deleted {
          FetchData(f);
        }
      }
    }

    /**
     * handleMoveNote: when the note is in the mirror, its typeId changes at
     * once and updateNote(noteId, {typeId}) is sent; whatever the reply, the
     * mirror is not reverted and nothing is refetched. An absent note changes
     * nothing and sends nothing.
     */
    method HandleMoveNote(noteId: int, newTypeId: int, reply: Reply)
      requires store.Valid()
      modifies this, store
      ensures store.Valid()
      ensures FindById(old(notes), noteId).None? ==> notes == old(notes) && unchanged(store)
      ensures FindById(old(notes), noteId).Some? ==>
                && notes == Moved(old(notes), noteId, newTypeId)
                && store.types == old(store.types)
                && store.nextNoteId == old(store.nextNoteId) && store.nextTypeId == old(store.nextTypeId)
                && store.notes ==
                     if session.Some? && reply == Replied(true) && HasNote(old(store.notes), noteId)
                     then UpdatedNotes(old(store.notes), noteId, TypeOnly(newTypeId))
                     else old(store.notes)
      ensures noteTypes == old(noteTypes) && loading == old(loading)
      ensures FormKept()
    {
      var note := FindById(notes, noteId);
      if note.Some? {
        notes := Moved(notes, noteId, newTypeId);
        if reply.Replied? {
          var _ := store.UpdateNote(session, noteId, TypeOnly(newTypeId), reply.queryOk);
        }
      }
    }

    /**
     * handleUndo: recreates the note from the snapshot's content, typeId and
     * color only; the store gives it a new id, which differs from the id of
     * every row it has ever handed out.
     */
    method HandleUndo(values: NoteWithTypeName, reply: Reply, f: Refetch)
      requires store.Valid()
      modifies this, store
      ensures store.Valid()
      ensures NoteCreated(NoteInput(values.content, values.typeId, values.color), reply, f)
      ensures session.Some? && reply == Replied(true) && values.id < old(store.nextNoteId) ==>
                exists n :: n in store.notes && n.id != values.id &&
                            n.content == values.content && n.typeId == values.typeId && n.color == values.color
      ensures FormKept()
    {
      HandleCreateNote(NoteInput(values.content, values.typeId, values.color), reply, f);
      if session.Some? && reply == Replied(true) {
        assert store.notes[|store.notes| - 1].id == old(store.nextNoteId);
      }
    }

    /** openModal: editing exactly when the note has a non-zero id. */
    method OpenModal(note: NoteWithTypeName)
      modifies this
      ensures isEditing <==> note.id != 0
      ensures currentNote == Some(note) && noteModalOpen
      ensures MirrorKept()
    {
      isEditing := note.id != 0;
      currentNote := Some(note);
      noteModalOpen := true;
    }

    /** The test in handleFinish: `isEditing && currentNote?.content !== ""`. */
    predicate FinishUpdates()
      reads this
    {
      isEditing && (currentNote.None? || currentNote.value.content != "")
    }

    /** handleFinish: update when editing a note with content, otherwise create. */
    method HandleFinish(values: NoteInput, reply: Reply, f: Refetch)
      requires store.Valid()
      modifies this, store
      ensures store.Valid()
      ensures old(FinishUpdates()) ==> CurrentNoteUpdated(values, reply, f)
      ensures !old(FinishUpdates()) ==> NoteCreated(values, reply, f) && FormKept()
    {
      if FinishUpdates() {
        HandleUpdateNote(values, reply, f);
      } else {
        HandleCreateNote(values, reply, f);
      }
    }
  }

  /** The patch handleUpdateNote sends: all three editable fields. */
  function FullPatch(values: NoteInput): NotePatch
  {
    NotePatch(Some(values.content), Some(values.typeId), Some(values.color))
  }

  /** The patch handleMoveNote sends: the new typeId only. */
  function TypeOnly(typeId: int): NotePatch
  {
    NotePatch(None, Some(typeId), None)
  }
}
