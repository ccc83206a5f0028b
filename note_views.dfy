/**
 * Operations on the client's list of notes-with-type-names that the page and
 * the board both perform: `notes.find(n => n.id === id)` and the move
 * `notes.map(n => n.id === id ? { ...n, typeId } : n)`.
 */
module NoteViews {
  import opened Wrappers
  import opened NotesAction

  /** `notes.find(n => n.id === id)`: the first note with that id. */
  function FindById(notes: seq<NoteWithTypeName>, id: int): (r: Option<NoteWithTypeName>)
    ensures r.None? <==> forall i :: 0 <= i < |notes| ==> notes[i].id != id
    ensures r.Some? ==> exists k :: 0 <= k < |notes| && notes[k] == r.value && r.value.id == id &&
                                    forall j :: 0 <= j < k ==> notes[j].id != id
  {
    if notes == [] then None
    else if notes[0].id == id then Some(notes[0])
    else
      var r := FindById(notes[1..], id);
      assert forall i :: 1 <= i < |notes| ==> notes[i] == notes[1..][i - 1];
      assert r.Some? ==> exists k :: 0 <= k < |notes| && notes[k] == r.value &&
                                     forall j :: 0 <= j < k ==> notes[j].id != id by {
        if r.Some? {
          var k :| 0 <= k < |notes[1..]| && notes[1..][k] == r.value && r.value.id == id &&
                   forall j :: 0 <= j < k ==> notes[1..][j].id != id;
          assert notes[k + 1] == r.value;
        }
      }
      r
  }

  /**
   * Every note with id `id` gets type `typeId`; the list keeps its length and
   * order, and nothing else changes.
   */
  function Moved(notes: seq<NoteWithTypeName>, id: int, typeId: int): (r: seq<NoteWithTypeName>)
    ensures |r| == |notes|
    ensures forall i :: 0 <= i < |r| ==>
              r[i].id == notes[i].id && r[i].content == notes[i].content &&
              r[i].color == notes[i].color && r[i].typeName == notes[i].typeName
    ensures forall i :: 0 <= i < |r| && notes[i].id == id ==> r[i].typeId == typeId
    ensures forall i :: 0 <= i < |r| && notes[i].id != id ==> r[i] == notes[i]
  {
    seq(|notes|, i requires 0 <= i < |notes| => if notes[i].id == id then notes[i].(typeId := typeId) else notes[i])
  }

  /** Moving a note that is not in the list changes nothing. */
  lemma MovedAbsentIsIdentity(notes: seq<NoteWithTypeName>, id: int, typeId: int)
    requires FindById(notes, id).None?
    ensures Moved(notes, id, typeId) == notes
  {
  }

  /** After a move, looking the note up finds the note it was, in its new column. */
  lemma {:induction false} MovedFindById(notes: seq<NoteWithTypeName>, id: int, typeId: int)
    ensures FindById(notes, id).None? ==> FindById(Moved(notes, id, typeId), id).None?
    ensures FindById(notes, id).Some? ==>
              FindById(Moved(notes, id, typeId), id) == Some(FindById(notes, id).value.(typeId := typeId))
  {
    if notes != [] {
      var m := Moved(notes, id, typeId);
      assert m[1..] == Moved(notes[1..], id, typeId);
      if notes[0].id != id {
        MovedFindById(notes[1..], id, typeId);
      }
    }
  }

  /** Of two moves of the same note, the second decides its column. */
  lemma MovedTwice(notes: seq<NoteWithTypeName>, id: int, first: int, second: int)
    ensures Moved(Moved(notes, id, first), id, second) == Moved(notes, id, second)
  {
  }
}
