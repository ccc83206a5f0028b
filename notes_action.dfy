/**
 * The note/type repository: the server actions over the `notes` and `notes_type`
 * tables. Every action first checks the session and fails closed (null, [] or
 * false) without touching the tables. The query outcome reported by the
 * datastore is a parameter (`queryOk`); false stands for an error object in the
 * reply (transport failure, constraint violation, ...).
 */
module NotesAction {
  import opened Wrappers

  type UserId = int

  /** A row of the `notes` table. */
  datatype Note = Note(id: int, content: string, typeId: int, color: string)

  /** A row of the `notes_type` table: one board column owned by one user. */
  datatype NoteType = NoteType(id: int, typeName: string, owner: UserId)

  /** The fields a caller supplies for a new note; the store assigns the id. */
  datatype NoteInput = NoteInput(content: string, typeId: int, color: string)

  /** A partial update of a note; a None field keeps its stored value. */
  datatype NotePatch = NotePatch(content: Option<string>, typeId: Option<int>, color: Option<string>)

  /** A note row joined with the name of its type. */
  datatype NoteWithTypeName = NoteWithTypeName(id: int, content: string, typeId: int, color: string, typeName: string)
  {
    function Row(): Note { Note(id, content, typeId, color) }
  }

  ghost predicate UniqueNoteIds(notes: seq<Note>)
  {
    forall i, j :: 0 <= i < j < |notes| ==> notes[i].id != notes[j].id
  }

  ghost predicate UniqueTypeIds(types: seq<NoteType>)
  {
    forall i, j :: 0 <= i < j < |types| ==> types[i].id != types[j].id
  }

  // ---------------------------------------------------------------------------
  // Reads: fetchNoteTypes and fetchNotes

  /** The type rows owned by `user` (`.eq('owner', userId)`), in table order. */
  function OwnedTypes(types: seq<NoteType>, user: UserId): (r: seq<NoteType>)
    ensures |r| <= |types|
    ensures forall t :: t in r <==> t in types && t.owner == user
  {
    if types == [] then []
    else (if types[0].owner == user then [types[0]] else []) + OwnedTypes(types[1..], user)
  }

  /** The ids of the types owned by `user`. */
  ghost function OwnedIds(types: seq<NoteType>, user: UserId): set<int>
  {
    set t | t in types && t.owner == user :: t.id
  }

  /** `new Map(rows.map(t => [t.id, t.typeName]))`: a key per row id. */
  function TypeMap(types: seq<NoteType>): (m: map<int, string>)
    ensures m.Keys == set t | t in types :: t.id
  {
    if types == [] then map[]
    else
      var init, last := types[..|types| - 1], types[|types| - 1];
      assert forall t :: t in types <==> t in init || t == last;
      TypeMap(init)[last.id := last.typeName]
  }

  /** When two rows share an id, the later row's name wins: a row no later row shadows keeps its name. */
  lemma {:induction false} TypeMapLastWins(types: seq<NoteType>, i: int)
    requires 0 <= i < |types|
    requires forall j :: i < j < |types| ==> types[j].id != types[i].id
    ensures TypeMap(types)[types[i].id] == types[i].typeName
  {
    if i < |types| - 1 {
      var init := types[..|types| - 1];
      assert init[i] == types[i];
      assert forall j :: i < j < |init| ==> init[j] == types[j];
      TypeMapLastWins(init, i);
    }
  }

  /** The note rows whose typeId is one of `ids` (`.in('typeId', ids)`), in table order. */
  function NotesOfTypes(notes: seq<Note>, ids: set<int>): (r: seq<Note>)
    ensures |r| <= |notes|
    ensures forall n :: n in r <==> n in notes && n.typeId in ids
  {
    if notes == [] then []
    else (if notes[0].typeId in ids then [notes[0]] else []) + NotesOfTypes(notes[1..], ids)
  }

  /** A row is listed at most once: unique row ids stay unique. */
  lemma {:induction false} NotesOfTypesUnique(notes: seq<Note>, ids: set<int>)
    requires UniqueNoteIds(notes)
    ensures UniqueNoteIds(NotesOfTypes(notes, ids))
  {
    if notes != [] {
      UniqueNoteTail(notes);
      NotesOfTypesUnique(notes[1..], ids);
      if notes[0].typeId in ids {
        UniqueNoteCons(notes[0], NotesOfTypes(notes[1..], ids));
      }
    }
  }

  /** The `.in('typeId', ids)` filter keeps the order of the rows it keeps, each once. */
  lemma {:induction false} NotesOfTypesAppend(a: seq<Note>, b: seq<Note>, ids: set<int>)
    ensures NotesOfTypes(a + b, ids) == NotesOfTypes(a, ids) + NotesOfTypes(b, ids)
  {
    if a != [] {
      var head := if a[0].typeId in ids then [a[0]] else [];
      calc {
        NotesOfTypes(a + b, ids);
        { assert (a + b)[0] == a[0] && (a + b)[1..] == a[1..] + b; }
        head + NotesOfTypes(a[1..] + b, ids);
        { NotesOfTypesAppend(a[1..], b, ids); }
        head + (NotesOfTypes(a[1..], ids) + NotesOfTypes(b, ids));
        (head + NotesOfTypes(a[1..], ids)) + NotesOfTypes(b, ids);
        NotesOfTypes(a, ids) + NotesOfTypes(b, ids);
      }
    } else {
      assert a + b == b;
    }
  }

  /** `typeMap.get(typeId) || 'Unknown'`: a missing key and an empty name both read "Unknown". */
  function TypeLabel(typeMap: map<int, string>, typeId: int): (name: string)
    ensures name != ""
    ensures name == "Unknown" <==> typeId !in typeMap || typeMap[typeId] in {"", "Unknown"}
    ensures name != "Unknown" ==> typeId in typeMap && name == typeMap[typeId]
  {
    if typeId in typeMap && typeMap[typeId] != "" then typeMap[typeId] else "Unknown"
  }

  function WithTypeName(n: Note, typeName: string): NoteWithTypeName
  {
    NoteWithTypeName(n.id, n.content, n.typeId, n.color, typeName)
  }

  /**
   * fetchNoteTypes: no session gives []; a query error gives []; otherwise
   * exactly the caller's type rows.
   */
  function FetchNoteTypes(types: seq<NoteType>, session: Option<UserId>, queryOk: bool): (r: seq<NoteType>)
    ensures session.None? || !queryOk ==> r == []
    ensures session.Some? && queryOk ==> forall t :: t in r <==> t in types && t.owner == session.value
  {
    if session.None? || !queryOk then [] else OwnedTypes(types, session.value)
  }

  /**
   * fetchNotes: the caller's types are read first (`typesOk` is that query's
   * outcome) and turned into an id-to-name map; then the notes whose typeId is
   * a key of that map are read (`notesOk`) and each is given its type's name.
   */
  function FetchNotes(notes: seq<Note>, types: seq<NoteType>, session: Option<UserId>, typesOk: bool, notesOk: bool)
    : (r: seq<NoteWithTypeName>)
    ensures session.None? || !typesOk || !notesOk ==> r == []
    // only notes of the caller's own types are listed ...
    ensures forall v :: v in r ==> session.Some? && v.Row() in notes && v.typeId in OwnedIds(types, session.value)
    // ... and every one of them is listed, once per row, in table order
    ensures session.Some? && typesOk && notesOk ==>
              var selected := NotesOfTypes(notes, OwnedIds(types, session.value));
              |r| == |selected| && forall i :: 0 <= i < |r| ==> r[i].Row() == selected[i]
  {
    if session.None? || !typesOk || !notesOk then []
    else
      var typeMap := TypeMap(OwnedTypes(types, session.value));
      assert typeMap.Keys == OwnedIds(types, session.value);
      var selected := NotesOfTypes(notes, typeMap.Keys);
      var r := seq(|selected|, i requires 0 <= i < |selected| =>
                     WithTypeName(selected[i], TypeLabel(typeMap, selected[i].typeId)));
      assert forall v :: v in r ==> v.Row() in selected;
      r
  }

  /** The name fetchNotes attaches: the owner's type name, or "Unknown" for an empty name. */
  lemma FetchNotesNames(notes: seq<Note>, types: seq<NoteType>, user: UserId)
    requires UniqueTypeIds(types)
    ensures forall v :: v in FetchNotes(notes, types, Some(user), true, true) ==>
              exists t :: t in types && t.owner == user && t.id == v.typeId &&
                          v.typeName == (if t.typeName == "" then "Unknown" else t.typeName)
  {
    var owned := OwnedTypes(types, user);
    var typeMap := TypeMap(owned);
    var selected := NotesOfTypes(notes, typeMap.Keys);
    assert typeMap.Keys == OwnedIds(types, user);
    OwnedTypesUnique(types, user);
    var r := FetchNotes(notes, types, Some(user), true, true);
    forall v | v in r
      ensures exists t :: t in types && t.owner == user && t.id == v.typeId &&
                          v.typeName == (if t.typeName == "" then "Unknown" else t.typeName)
    {
      var i :| 0 <= i < |r| && r[i] == v;
      assert v == WithTypeName(selected[i], TypeLabel(typeMap, selected[i].typeId));
      var k :| 0 <= k < |owned| && owned[k].id == v.typeId;
      TypeMapLastWins(owned, k);
      assert owned[k] in types;
    }
  }

  lemma {:induction false} OwnedTypesUnique(types: seq<NoteType>, user: UserId)
    requires UniqueTypeIds(types)
    ensures UniqueTypeIds(OwnedTypes(types, user))
  {
    if types != [] {
      OwnedTypesUnique(types[1..], user);
      var rest := OwnedTypes(types[1..], user);
      forall t | t in rest ensures t.id != types[0].id {
        var k :| 0 <= k < |types[1..]| && types[1..][k] == t;
        assert types[k + 1] == t;
      }
    }
  }

  // ---------------------------------------------------------------------------
  // Table updates: the effect of a single UPDATE or DELETE statement

  /** The row `n` with the fields present in `patch` replaced. */
  function Patched(n: Note, patch: NotePatch): (r: Note)
    ensures r.id == n.id
    ensures patch == NotePatch(None, None, None) ==> r == n
    ensures patch.content.Some? && patch.typeId.Some? && patch.color.Some? ==>
              r == Note(n.id, patch.content.value, patch.typeId.value, patch.color.value)
  {
    Note(n.id,
         if patch.content.Some? then patch.content.value else n.content,
         if patch.typeId.Some? then patch.typeId.value else n.typeId,
         if patch.color.Some? then patch.color.value else n.color)
  }

  /** `update(patch).eq('id', noteId)` on the `notes` table. */
  function UpdatedNotes(notes: seq<Note>, noteId: int, patch: NotePatch): (r: seq<Note>)
    ensures |r| == |notes|
    ensures forall i :: 0 <= i < |notes| ==> r[i].id == notes[i].id
    ensures forall i :: 0 <= i < |notes| && notes[i].id != noteId ==> r[i] == notes[i]
    ensures forall i :: 0 <= i < |notes| && notes[i].id == noteId ==> r[i] == Patched(notes[i], patch)
    ensures !HasNote(notes, noteId) ==> r == notes
    ensures UniqueNoteIds(notes) ==> UniqueNoteIds(r)
  {
    seq(|notes|, i requires 0 <= i < |notes| => if notes[i].id == noteId then Patched(notes[i], patch) else notes[i])
  }

  /** Applying a patch a second time changes nothing more. */
  lemma PatchedIdempotent(n: Note, patch: NotePatch)
    ensures Patched(Patched(n, patch), patch) == Patched(n, patch)
  {
  }

  /** Repeating an update with the same patch leaves the table as the first update left it. */
  lemma UpdatedNotesIdempotent(notes: seq<Note>, noteId: int, patch: NotePatch)
    ensures UpdatedNotes(UpdatedNotes(notes, noteId, patch), noteId, patch) == UpdatedNotes(notes, noteId, patch)
  {
    var once := UpdatedNotes(notes, noteId, patch);
    var twice := UpdatedNotes(once, noteId, patch);
    forall i | 0 <= i < |notes| ensures twice[i] == once[i] {
      if notes[i].id == noteId {
        PatchedIdempotent(notes[i], patch);
      }
    }
  }

  /** `delete().eq('id', noteId)` on the `notes` table. */
  function WithoutNote(notes: seq<Note>, noteId: int): (r: seq<Note>)
    ensures |r| <= |notes|
    ensures forall n :: n in r <==> n in notes && n.id != noteId
    ensures UniqueNoteIds(notes) ==> UniqueNoteIds(r)
  {
    if notes == [] then []
    else
      var rest := WithoutNote(notes[1..], noteId);
      assert UniqueNoteIds(notes) ==> UniqueNoteIds(notes[1..]) && forall n :: n in rest ==> n.id != notes[0].id by {
        if UniqueNoteIds(notes) { UniqueNoteTail(notes); }
      }
      if notes[0].id == noteId then rest
      else
        assert UniqueNoteIds(notes) ==> UniqueNoteIds([notes[0]] + rest) by {
          if UniqueNoteIds(notes) { UniqueNoteCons(notes[0], rest); }
        }
        [notes[0]] + rest
  }

  lemma UniqueNoteTail(notes: seq<Note>)
    requires notes != [] && UniqueNoteIds(notes)
    ensures UniqueNoteIds(notes[1..]) && forall n :: n in notes[1..] ==> n.id != notes[0].id
  {
    forall n | n in notes[1..] ensures n.id != notes[0].id {
      var k :| 0 <= k < |notes[1..]| && notes[1..][k] == n;
      assert notes[k + 1] == n;
    }
  }

  lemma UniqueNoteCons(x: Note, rest: seq<Note>)
    requires UniqueNoteIds(rest) && forall n :: n in rest ==> n.id != x.id
    ensures UniqueNoteIds([x] + rest)
  {
    var s := [x] + rest;
    forall i, j | 0 <= i < j < |s| ensures s[i].id != s[j].id {
      assert s[j] == rest[j - 1];
      if i > 0 { assert s[i] == rest[i - 1]; }
    }
  }

  /** `delete().eq('id', typeId)` on the `notes_type` table. */
  function WithoutType(types: seq<NoteType>, typeId: int): (r: seq<NoteType>)
    ensures |r| <= |types|
    ensures forall t :: t in r <==> t in types && t.id != typeId
    ensures UniqueTypeIds(types) ==> UniqueTypeIds(r)
  {
    if types == [] then []
    else
      var rest := WithoutType(types[1..], typeId);
      assert UniqueTypeIds(types) ==> UniqueTypeIds(types[1..]) && forall t :: t in rest ==> t.id != types[0].id by {
        if UniqueTypeIds(types) { UniqueTypeTail(types); }
      }
      if types[0].id == typeId then rest
      else
        assert UniqueTypeIds(types) ==> UniqueTypeIds([types[0]] + rest) by {
          if UniqueTypeIds(types) { UniqueTypeCons(types[0], rest); }
        }
        [types[0]] + rest
  }

  lemma UniqueTypeTail(types: seq<NoteType>)
    requires types != [] && UniqueTypeIds(types)
    ensures UniqueTypeIds(types[1..]) && forall t :: t in types[1..] ==> t.id != types[0].id
  {
    forall t | t in types[1..] ensures t.id != types[0].id {
      var k :| 0 <= k < |types[1..]| && types[1..][k] == t;
      assert types[k + 1] == t;
    }
  }

  lemma UniqueTypeCons(x: NoteType, rest: seq<NoteType>)
    requires UniqueTypeIds(rest) && forall t :: t in rest ==> t.id != x.id
    ensures UniqueTypeIds([x] + rest)
  {
    var s := [x] + rest;
    forall i, j | 0 <= i < j < |s| ensures s[i].id != s[j].id {
      assert s[j] == rest[j - 1];
      if i > 0 { assert s[i] == rest[i - 1]; }
    }
  }

  /** Whether some row of `notes` has id `noteId`. */
  predicate HasNote(notes: seq<Note>, noteId: int)
  {
    exists i :: 0 <= i < |notes| && notes[i].id == noteId
  }

  /** The index of the row with id `noteId`. */
  function IndexOfNote(notes: seq<Note>, noteId: int): (k: nat)
    requires HasNote(notes, noteId)
    ensures k < |notes| && notes[k].id == noteId
  {
    if notes[0].id == noteId then 0
    else
      assert HasNote(notes[1..], noteId) by {
        var i :| 0 <= i < |notes| && notes[i].id == noteId;
        assert notes[1..][i - 1] == notes[i];
      }
      1 + IndexOfNote(notes[1..], noteId)
  }

  // ---------------------------------------------------------------------------
  // The datastore and the mutating actions

  /**
   * The two remote tables as seen by the actions, with the next value of each
   * table's id sequence.
   */
  class Datastore {
    var notes: seq<Note>
    var types: seq<NoteType>
    var nextNoteId: int
    var nextTypeId: int

    /** Ids are positive, unique per table, and below the table's next id. */
    ghost predicate Valid()
      reads this
    {
      && 1 <= nextNoteId && 1 <= nextTypeId
      && (forall n :: n in notes ==> 1 <= n.id < nextNoteId)
      && (forall t :: t in types ==> 1 <= t.id < nextTypeId)
      && UniqueNoteIds(notes)
      && UniqueTypeIds(types)
    }

    constructor ()
      ensures Valid()
      ensures notes == [] && types == []
    {
      notes, types := [], [];
      nextNoteId, nextTypeId := 1, 1;
    }

    /**
     * createNote: inserts exactly content, typeId and color; the row gets the
     * next id of the table, and the stored row is returned.
     */
    method CreateNote(session: Option<UserId>, input: NoteInput, queryOk: bool) returns (r: Option<Note>)
      requires Valid()
      modifies this
      ensures Valid()
      ensures types == old(types) && nextTypeId == old(nextTypeId)
      ensures session.None? || !queryOk ==>
                r == None && notes == old(notes) && nextNoteId == old(nextNoteId)
      ensures session.Some? && queryOk ==>
                && r == Some(Note(old(nextNoteId), input.content, input.typeId, input.color))
                && notes == old(notes) + [r.value]
                && nextNoteId == old(nextNoteId) + 1
                && forall n :: n in old(notes) ==> n.id != r.value.id
    {
      if session.None? || !queryOk {
        return None;
      }
      var row := Note(nextNoteId, input.content, input.typeId, input.color);
      notes := notes + [row];
      nextNoteId := nextNoteId + 1;
      r := Some(row);
    }

    /**
     * updateNote: selects the row by id alone (no ownership check); the
     * request for a single row fails when no row has that id.
     */
    method UpdateNote(session: Option<UserId>, noteId: int, patch: NotePatch, queryOk: bool) returns (r: Option<Note>)
      requires Valid()
      modifies this
      ensures Valid()
      ensures types == old(types) && nextNoteId == old(nextNoteId) && nextTypeId == old(nextTypeId)
      ensures session.None? || !queryOk || !HasNote(old(notes), noteId) ==>
                r == None && notes == old(notes)
      ensures session.Some? && queryOk && HasNote(old(notes), noteId) ==>
                && notes == UpdatedNotes(old(notes), noteId, patch)
                && r.Some? && r.value.id == noteId && r.value in notes
                && exists n :: n in old(notes) && n.id == noteId && r.value == Patched(n, patch)
    {
      if session.None? || !queryOk || !HasNote(notes, noteId) {
        return None;
      }
      var k := IndexOfNote(notes, noteId);
      var row := Patched(notes[k], patch);
      ghost var before := notes;
      notes := notes[k := row];
      assert notes == UpdatedNotes(before, noteId, patch) by {
        forall i | 0 <= i < |before| ensures notes[i] == UpdatedNotes(before, noteId, patch)[i] {
          if i != k {
            assert before[i].id != noteId by {
              if i < k { assert before[i].id != before[k].id; } else { assert before[k].id != before[i].id; }
            }
          }
        }
      }
      assert notes[k] == row;
      r := Some(row);
    }

    /**
     * deleteNote: deletes every row with that id and reports true whenever the
     * store reports no error, whether or not a row matched.
     */
    method DeleteNote(session: Option<UserId>, noteId: int, queryOk: bool) returns (deleted: bool)
      requires Valid()
      modifies this
      ensures Valid()
      ensures types == old(types) && nextNoteId == old(nextNoteId) && nextTypeId == old(nextTypeId)
      ensures deleted <==> session.Some? && queryOk
      ensures !deleted ==> unchanged(this)
      ensures notes == if deleted then WithoutNote(old(notes), noteId) else old(notes)
    {
      if session.None? || !queryOk {
        return false;
      }
      notes := WithoutNote(notes, noteId);
      deleted := true;
    }

    /**
     * deleteType: deletes the type row by id alone and leaves every note row
     * as it is; notes of that type are no longer listed by anyone.
     */
    method DeleteType(session: Option<UserId>, typeId: int, queryOk: bool) returns (deleted: bool)
      requires Valid()
      modifies this
      ensures Valid()
      ensures notes == old(notes) && nextNoteId == old(nextNoteId) && nextTypeId == old(nextTypeId)
      ensures deleted <==> session.Some? && queryOk
      ensures !deleted ==> unchanged(this)
      ensures types == if deleted then WithoutType(old(types), typeId) else old(types)
      ensures deleted ==> forall user :: typeId !in OwnedIds(types, user)
    {
      if session.None? || !queryOk {
        return false;
      }
      types := WithoutType(types, typeId);
      deleted := true;
    }

    /** createNoteType: inserts `{typeName, owner: userId}`; the row gets the next type id. */
    method CreateNoteType(session: Option<UserId>, typeName: string, queryOk: bool) returns (created: bool)
      requires Valid()
      modifies this
      ensures Valid()
      ensures notes == old(notes) && nextNoteId == old(nextNoteId)
      ensures created <==> session.Some? && queryOk
      ensures !created ==> unchanged(this)
      ensures created ==>
                && types == old(types) + [NoteType(old(nextTypeId), typeName, session.value)]
                && nextTypeId == old(nextTypeId) + 1
    {
      if session.None? || !queryOk {
        return false;
      }
      types := types + [NoteType(nextTypeId, typeName, session.value)];
      nextTypeId := nextTypeId + 1;
      created := true;
    }
  }

  /**
   * A deleted type takes its notes out of every listing, although the note
   * rows themselves stay in the table.
   */
  lemma OrphanedNotesNotListed(notes: seq<Note>, types: seq<NoteType>, typeId: int,
                               session: Option<UserId>, typesOk: bool, notesOk: bool)
    ensures forall v :: v in FetchNotes(notes, WithoutType(types, typeId), session, typesOk, notesOk) ==>
              v.typeId != typeId
  {
  }
}
