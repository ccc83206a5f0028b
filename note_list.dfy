/**
 * The board: columns of notes, drag-and-drop between columns, drag-off to
 * delete with a one-note undo slot, and the text colour test for a note's
 * background colour. The board keeps its own copy of the notes, seeded once
 * from the page; what it asks of the page (delete, move, undo) is returned
 * as a `BoardCall`.
 */
module Board {
  import opened Wrappers
  import opened JsText
  import opened NotesAction
  import opened NoteViews

  // ---------------------------------------------------------------------------
  // Columns

  /** getColumnNotes: the notes of column `typeId`; a note with id 0 (falsy) is never shown. */
  function ColumnNotes(notes: seq<NoteWithTypeName>, typeId: int): (r: seq<NoteWithTypeName>)
    ensures |r| <= |notes|
    ensures forall v :: v in r <==> v in notes && v.typeId == typeId && v.id != 0
  {
    if notes == [] then []
    else (if notes[0].typeId == typeId && notes[0].id != 0 then [notes[0]] else []) + ColumnNotes(notes[1..], typeId)
  }

  /** A column lists its notes in the order of the board's list. */
  lemma {:induction false} ColumnNotesAppend(a: seq<NoteWithTypeName>, b: seq<NoteWithTypeName>, typeId: int)
    ensures ColumnNotes(a + b, typeId) == ColumnNotes(a, typeId) + ColumnNotes(b, typeId)
  {
    if a == [] {
      assert a + b == b;
    } else {
      var head := if a[0].typeId == typeId && a[0].id != 0 then [a[0]] else [];
      assert (a + b)[0] == a[0] && (a + b)[1..] == a[1..] + b;
      calc {
        ColumnNotes(a + b, typeId);
        head + ColumnNotes(a[1..] + b, typeId);
        { ColumnNotesAppend(a[1..], b, typeId); }
        head + (ColumnNotes(a[1..], typeId) + ColumnNotes(b, typeId));
        (head + ColumnNotes(a[1..], typeId)) + ColumnNotes(b, typeId);
        ColumnNotes(a, typeId) + ColumnNotes(b, typeId);
      }
    }
  }

  /**
   * After a move of note `id` (ids unique, id non-zero) to column `target`,
   * that note is listed in `target` with its new type and in no other column.
   */
  lemma MovedNoteChangesColumn(notes: seq<NoteWithTypeName>, id: int, target: int, other: int)
    requires forall i, j :: 0 <= i < j < |notes| ==> notes[i].id != notes[j].id
    requires FindById(notes, id).Some? && id != 0 && other != target
    ensures var moved := FindById(notes, id).value.(typeId := target);
            && moved in ColumnNotes(Moved(notes, id, target), target)
            && forall v :: v in ColumnNotes(Moved(notes, id, target), other) ==> v.id != id
  {
    var k :| 0 <= k < |notes| && notes[k] == FindById(notes, id).value && notes[k].id == id;
    assert Moved(notes, id, target)[k] == notes[k].(typeId := target);
  }

  // ---------------------------------------------------------------------------
  // Drag and drop

  /** The droppable id the board renders for the column of type `typeId`. */
  function DroppableId(typeId: int): (s: string)
    ensures |s| > 10 && s[..10] == "droppable-"
    ensures s[10] == '-' <==> typeId < 0
  {
    "droppable-" + IntToString(typeId)
  }

  /**
   * `parseInt(droppableId.replace("droppable-", ""))`; None stands for NaN.
   * Every column id the board renders parses back to its type id.
   */
  function ParseColumnId(droppableId: string): (r: Option<int>)
    ensures forall typeId :: droppableId == DroppableId(typeId) ==> r == Some(typeId)
  {
    var r := ParseInt(ReplaceFirst(droppableId, "droppable-"));
    assert forall typeId :: droppableId == DroppableId(typeId) ==> r == Some(typeId) by {
      forall typeId | droppableId == DroppableId(typeId) ensures r == Some(typeId) {
        ReplaceFirstOfPrefixed("droppable-", IntToString(typeId));
        ParseIntOfIntToString(typeId);
      }
    }
    r
  }

  /** Different columns render different droppable ids. */
  lemma ColumnIdRoundTrip(typeId: int)
    ensures ParseColumnId(DroppableId(typeId)) == Some(typeId)
    ensures forall other :: DroppableId(other) == DroppableId(typeId) ==> other == typeId
  {
    forall other | DroppableId(other) == DroppableId(typeId) ensures other == typeId {
      assert ParseColumnId(DroppableId(other)) == Some(other);
    }
  }

  /** What `onDragEnd` reads from the drag library's result. */
  datatype DropResult = DropResult(sourceId: string, destination: Option<string>, draggableId: string)

  /** A request the board makes of the page through its callbacks. */
  datatype BoardCall = NoCall | DeleteCall(noteId: int) | MoveCall(noteId: int, typeId: int) | UndoCall(note: NoteWithTypeName)

  /** `notes.find(n => n.id.toString() === draggableId)`. */
  function FindByDraggableId(notes: seq<NoteWithTypeName>, draggableId: string): (r: Option<NoteWithTypeName>)
    ensures r.None? <==> forall i :: 0 <= i < |notes| ==> IntToString(notes[i].id) != draggableId
    ensures r.Some? ==> r.value in notes && IntToString(r.value.id) == draggableId
  {
    if notes == [] then None
    else if IntToString(notes[0].id) == draggableId then Some(notes[0])
    else
      assert forall i :: 1 <= i < |notes| ==> notes[i] == notes[1..][i - 1];
      FindByDraggableId(notes[1..], draggableId)
  }

  /** The draggable id of a rendered card finds the same note as its numeric id. */
  lemma {:induction false} DraggableIdFindsById(notes: seq<NoteWithTypeName>, id: int)
    ensures FindByDraggableId(notes, IntToString(id)) == FindById(notes, id)
  {
    if notes != [] {
      if IntToString(notes[0].id) == IntToString(id) {
        IntToStringInjective(notes[0].id, id);
      } else {
        DraggableIdFindsById(notes[1..], id);
      }
    }
  }

  /**
   * The column a drop across columns moves the note to: None when the drop
   * stays in its own column or the destination id does not parse.
   */
  function MoveTarget(sourceId: string, destinationId: string): (t: Option<int>)
    ensures t.Some? ==> sourceId != destinationId
    ensures forall typeId :: destinationId == DroppableId(typeId) && sourceId != destinationId ==> t == Some(typeId)
  {
    if sourceId == destinationId then None
    else
      var t := ParseColumnId(destinationId);
      assert forall typeId :: destinationId == DroppableId(typeId) ==> t == Some(typeId) by {
        forall typeId | destinationId == DroppableId(typeId) ensures t == Some(typeId) {
          ColumnIdRoundTrip(typeId);
        }
      }
      t
  }

  /** The board's own state. */
  class NoteList {
    var localNotes: seq<NoteWithTypeName>
    var noteToDelete: Option<int>
    var deletedNote: Option<NoteWithTypeName>
    var confirmOpen: bool

    /** The board copies the page's notes once, when it is created; it never resyncs. */
    constructor (notes: seq<NoteWithTypeName>)
      ensures localNotes == notes && noteToDelete == None && deletedNote == None && !confirmOpen
    {
      localNotes, noteToDelete, deletedNote, confirmOpen := notes, None, None, false;
    }

    /**
     * onDragEnd: an unknown card changes nothing; a drop outside every column
     * asks to delete the card; a drop on another column whose id parses moves
     * the card there (optimistically) and asks the page to move it; any other
     * drop changes nothing.
     */
    method OnDragEnd(drop: DropResult) returns (call: BoardCall)
      modifies this
      ensures deletedNote == old(deletedNote)
      ensures var dragged := FindByDraggableId(old(localNotes), drop.draggableId);
              && (dragged.None? ==>
                    localNotes == old(localNotes) && noteToDelete == old(noteToDelete) &&
                    confirmOpen == old(confirmOpen) && call == NoCall)
              && (dragged.Some? && drop.destination.None? ==>
                    localNotes == old(localNotes) && noteToDelete == Some(dragged.value.id) &&
                    confirmOpen && call == NoCall)
              && (dragged.Some? && drop.destination.Some? ==>
                    && noteToDelete == old(noteToDelete) && confirmOpen == old(confirmOpen)
                    && match MoveTarget(drop.sourceId, drop.destination.value)
                       case None => localNotes == old(localNotes) && call == NoCall
                       case Some(t) =>
                         localNotes == Moved(old(localNotes), dragged.value.id, t) &&
                         call == MoveCall(dragged.value.id, t))
    {
      var draggedNote := FindByDraggableId(localNotes, drop.draggableId);
      if draggedNote.None? {
        return NoCall;
      }
      if drop.destination.None? {
        noteToDelete := Some(draggedNote.value.id);
        confirmOpen := true;
        return NoCall;
      }
      call := NoCall;
      if drop.sourceId != drop.destination.value {
        var newTypeId := ParseColumnId(drop.destination.value);
        if newTypeId.Some? {
          localNotes := Moved(localNotes, draggedNote.value.id, newTypeId.value);
          call := MoveCall(draggedNote.value.id, newTypeId.value);
        }
      }
    }

    /** The delete button on a card: remember the card and open the confirmation. */
    method RequestDelete(noteId: int)
      modifies this
      ensures noteToDelete == Some(noteId) && confirmOpen
      ensures localNotes == old(localNotes) && deletedNote == old(deletedNote)
    {
      noteToDelete := Some(noteId);
      confirmOpen := true;
    }

    /**
     * handleDelete: when the remembered id names a card on the board, that card
     * overwrites the undo slot and the page is asked to delete it; otherwise
     * nothing happens. The card stays in the board's own list.
     */
    method HandleDelete() returns (call: BoardCall)
      modifies this
      ensures localNotes == old(localNotes) && noteToDelete == old(noteToDelete) && confirmOpen == old(confirmOpen)
      ensures var found := if noteToDelete.Some? then FindById(localNotes, noteToDelete.value) else None;
              && (found.Some? ==> deletedNote == found && call == DeleteCall(noteToDelete.value))
              && (found.None? ==> deletedNote == old(deletedNote) && call == NoCall)
    {
      call := NoCall;
      if noteToDelete.Some? {
        var note := FindById(localNotes, noteToDelete.value);
        if note.Some? {
          deletedNote := note;
          call := DeleteCall(noteToDelete.value);
        }
      }
    }

    /** The confirmation's Confirm button: handleDelete, then close. */
    method ConfirmDelete() returns (call: BoardCall)
      modifies this
      ensures !confirmOpen
      ensures localNotes == old(localNotes) && noteToDelete == old(noteToDelete)
      ensures var found := if noteToDelete.Some? then FindById(localNotes, noteToDelete.value) else None;
              && (found.Some? ==> deletedNote == found && call == DeleteCall(noteToDelete.value))
              && (found.None? ==> deletedNote == old(deletedNote) && call == NoCall)
    {
      call := HandleDelete();
      confirmOpen := false;
    }

    /** The confirmation's Cancel button: close and do nothing else. */
    method CancelDelete()
      modifies this
      ensures !confirmOpen
      ensures localNotes == old(localNotes) && noteToDelete == old(noteToDelete) && deletedNote == old(deletedNote)
    {
      confirmOpen := false;
    }

    /**
     * handleUndo: hands the note in the undo slot to the page and empties the
     * slot; with an empty slot nothing happens, so a second undo is a no-op.
     */
    method HandleUndo() returns (call: BoardCall)
      modifies this
      ensures deletedNote == None
      ensures old(deletedNote).Some? ==> call == UndoCall(old(deletedNote).value)
      ensures old(deletedNote).None? ==> call == NoCall
      ensures localNotes == old(localNotes) && noteToDelete == old(noteToDelete) && confirmOpen == old(confirmOpen)
    {
      call := NoCall;
      if deletedNote.Some? {
        call := UndoCall(deletedNote.value);
        deletedNote := None;
      }
    }
  }

  // ---------------------------------------------------------------------------
  // Text colour

  /** `(r * 299 + g * 587 + b * 114) / 1000 < 150`, stated on integers. */
  predicate DarkRgb(r: int, g: int, b: int)
  {
    r * 299 + g * 587 + b * 114 < 150000
  }

  /** `(v >> 16) & 255`, `(v >> 8) & 255` and `v & 255` judged by DarkRgb. */
  predicate DarkBits(v: int)
  {
    DarkRgb((v / 65536) % 256, (v / 256) % 256, v % 256)
  }

  /**
   * isColorDark: "" is light; "#..." is read with parseInt(.., 16) (which
   * skips leading white space, a sign and a "0x", and gives NaN, that is 0
   * under the shifts, when no digit follows) and split into the bytes at
   * bits 16, 8 and 0; any other text takes its first three
   * runs of digits as r, g, b (fewer than three runs compare NaN, which is
   * not dark), and text with no digit at all throws.
   */
  function IsColorDark(color: string): (r: Result<bool, string>)
    ensures color == "" ==> r == Success(false)
    ensures r.Failure? <==> color != "" && color[0] != '#' && forall i :: 0 <= i < |color| ==> !IsDigit(color[i])
  {
    if color == "" then Success(false)
    else if color[0] == '#' then
      var v := HexBits(color[1..]);
      Success(DarkBits(v))
    else
      var runs := DigitRuns(color);
      if runs == [] then Failure("Invalid color format")
      else if |runs| < 3 then Success(false)
      else Success(DarkRgb(DecimalValue(runs[0]), DecimalValue(runs[1]), DecimalValue(runs[2])))
  }

  /** A colour that starts with '#' is judged by the bits parseInt(.., 16) gives the rest. */
  lemma HashColorBits(color: string)
    requires |color| > 0 && color[0] == '#'
    ensures IsColorDark(color) == Success(DarkBits(HexBits(color[1..])))
  {
  }

  /** A run followed by a separator without digits is the first run, and the separator adds none. */
  lemma RunThenSeparator(d: string, sep: string, rest: string)
    requires |d| > 0 && AllDigits(d) && |sep| > 0 && forall i :: 0 <= i < |sep| ==> !IsDigit(sep[i])
    ensures DigitRuns(d + (sep + rest)) == [d] + DigitRuns(rest)
  {
    DigitRunsRun(d, sep + rest);
    DigitRunsSkip(sep, rest);
  }

  /** The digit runs of `rgb(R, G, B)` are R, G and B. */
  lemma RgbRuns(R: string, G: string, B: string)
    requires |R| > 0 && |G| > 0 && |B| > 0 && AllDigits(R) && AllDigits(G) && AllDigits(B)
    ensures DigitRuns("rgb(" + R + ", " + G + ", " + B + ")") == [R, G, B]
  {
    var s1 := G + (", " + (B + ")"));
    var t := R + (", " + s1);
    assert DigitRuns(B + ")") == [B] by {
      assert DigitRuns(")") == [] by { assert !IsDigit(")"[0]); }
      DigitRunsRun(B, ")");
    }
    assert DigitRuns(s1) == [G, B] by { RunThenSeparator(G, ", ", B + ")"); }
    assert DigitRuns(t) == [R, G, B] by { RunThenSeparator(R, ", ", s1); }
    assert DigitRuns("rgb(" + t) == [R, G, B] by { DigitRunsSkip("rgb(", t); }
    RgbText(R, G, B);
  }

  lemma RgbText(R: string, G: string, B: string)
    ensures "rgb(" + R + ", " + G + ", " + B + ")" == "rgb(" + (R + (", " + (G + (", " + (B + ")")))))
  {
  }

  /** `rgb(r, g, b)` is judged by r, g and b. */
  lemma RgbChannels(r: nat, g: nat, b: nat)
    ensures IsColorDark("rgb(" + NatToString(r) + ", " + NatToString(g) + ", " + NatToString(b) + ")") ==
            Success(DarkRgb(r, g, b))
  {
    var R, G, B := NatToString(r), NatToString(g), NatToString(b);
    RgbRuns(R, G, B);
    DecimalValueOfNatToString(r);
    DecimalValueOfNatToString(g);
    DecimalValueOfNatToString(b);
  }

  /** The value of two hexadecimal digits: one byte of "#RRGGBB". */
  function HexByte(hi: char, lo: char): (b: nat)
    requires IsHexDigit(hi) && IsHexDigit(lo)
    ensures b < 256
  {
    HexDigitValue(hi) * 16 + HexDigitValue(lo)
  }

  lemma HexValueSix(s: string)
    requires |s| == 6 && AllHex(s)
    ensures HexValue(s) == HexByte(s[0], s[1]) * 65536 + HexByte(s[2], s[3]) * 256 + HexByte(s[4], s[5])
  {
    assert s[..6] == s;
    HexValueStep(s, 6);
    HexValueStep(s, 5);
    HexValueStep(s, 4);
    HexValueStep(s, 3);
    HexValueStep(s, 2);
    HexValueStep(s, 1);
    assert s[..0] == [];
  }

  /** One digit more of a hexadecimal prefix multiplies its value by 16 and adds the digit. */
  lemma HexValueStep(s: string, k: nat)
    requires 0 < k <= |s| && AllHex(s)
    ensures AllHex(s[..k]) && AllHex(s[..k - 1])
    ensures HexValue(s[..k]) == HexValue(s[..k - 1]) * 16 + HexDigitValue(s[k - 1])
  {
    assert s[..k][..k - 1] == s[..k - 1];
  }

  /** Splitting a number into its low byte and the rest. */
  lemma SplitAtByte(hi: nat, lo: nat)
    requires lo < 256
    ensures (hi * 256 + lo) / 256 == hi && (hi * 256 + lo) % 256 == lo
  {
  }

  /** Splitting a number into its low two bytes and the rest. */
  lemma SplitAtTwoBytes(hi: nat, lo: nat)
    requires lo < 65536
    ensures (hi * 65536 + lo) / 65536 == hi
  {
  }

  /** "#RRGGBB" is judged by the channels RR, GG and BB. */
  lemma SixDigitHexChannels(color: string)
    requires |color| == 7 && color[0] == '#' && AllHex(color[1..])
    ensures IsColorDark(color) ==
            Success(DarkRgb(HexByte(color[1], color[2]), HexByte(color[3], color[4]), HexByte(color[5], color[6])))
  {
    var s := color[1..];
    var v := HexBits(s);
    assert v == HexValue(s);
    assert IsColorDark(color) == Success(DarkBits(v));
    HexSixChannels(s);
    assert s[0] == color[1] && s[1] == color[2] && s[2] == color[3];
    assert s[3] == color[4] && s[4] == color[5] && s[5] == color[6];
  }

  lemma HexSixChannels(s: string)
    requires |s| == 6 && AllHex(s)
    ensures var v := HexValue(s);
            (v / 65536) % 256 == HexByte(s[0], s[1]) && (v / 256) % 256 == HexByte(s[2], s[3]) &&
            v % 256 == HexByte(s[4], s[5])
  {
    var r, g, b := HexByte(s[0], s[1]), HexByte(s[2], s[3]), HexByte(s[4], s[5]);
    HexValueSix(s);
    ThreeBytes(r, g, b);
  }

  /** The shifts and masks of isColorDark give back the three bytes of a 24-bit colour. */
  lemma ThreeBytes(r: nat, g: nat, b: nat)
    requires r < 256 && g < 256 && b < 256
    ensures var v := r * 65536 + g * 256 + b;
            (v / 65536) % 256 == r && (v / 256) % 256 == g && v % 256 == b
  {
    var v := r * 65536 + g * 256 + b;
    assert v == (r * 256 + g) * 256 + b;
    SplitAtByte(r * 256 + g, b);
    SplitAtByte(r, g);
    assert v == r * 65536 + (g * 256 + b);
    SplitAtTwoBytes(r, g * 256 + b);
    SplitAtByte(0, r);
  }

  /** As written, "#XYZ" is read as the number 0xXYZ: red 0, green X, blue YZ. */
  lemma ShorthandHexAsWritten(color: string)
    requires |color| == 4 && color[0] == '#' && AllHex(color[1..])
    ensures IsColorDark(color) == Success(DarkRgb(0, HexDigitValue(color[1]), HexByte(color[2], color[3])))
  {
    var s := color[1..];
    HashColorBits(color);
    assert HexBits(s) == HexValue(s);
    ShorthandBytes(s);
    assert s[0] == color[1] && s[1] == color[2] && s[2] == color[3];
  }

  /** Three hex digits XYZ make the number 0xXYZ: byte 2 is 0, byte 1 is X, byte 0 is YZ. */
  lemma ShorthandBytes(s: string)
    requires |s| == 3 && AllHex(s)
    ensures var v := HexValue(s);
            (v / 65536) % 256 == 0 && (v / 256) % 256 == HexDigitValue(s[0]) && v % 256 == HexByte(s[1], s[2])
  {
    assert s[..3] == s;
    HexValueStep(s, 3);
    HexValueStep(s, 2);
    HexValueStep(s, 1);
    assert s[..0] == [];
    var x, yz := HexDigitValue(s[0]), HexByte(s[1], s[2]);
    var v := x * 256 + yz;
    assert HexValue(s) == v;
    SplitAtByte(x, yz);
    assert v < 65536;
    SplitAtTwoBytes(0, v);
    SplitAtByte(0, x);
  }

  /** Every spelling of shorthand white: "#fff", "#FFF", "#fFf", ... */
  predicate ShorthandWhite(color: string)
  {
    |color| == 4 && color[0] == '#' && forall i :: 1 <= i < 4 ==> color[i] == 'f' || color[i] == 'F'
  }

  /** So white in shorthand, "#fff", gets white text: it is judged dark. */
  lemma WhiteShorthandJudgedDark(color: string)
    requires ShorthandWhite(color)
    ensures IsColorDark(color) == Success(true)
  {
    assert IsHexDigit(color[1..][0]) && IsHexDigit(color[1..][1]) && IsHexDigit(color[1..][2]);
    ShorthandHexAsWritten(color);
    assert HexDigitValue(color[1]) == 15 && HexDigitValue(color[2]) == 15 && HexDigitValue(color[3]) == 15;
  }

  /**
   * parseInt's sign reaches the shifts: "#-" followed by hex digits is the
   * 32-bit two's-complement pattern of the negated value.
   */
  lemma NegativeHex(color: string)
    requires |color| > 2 && color[..2] == "#-" && AllHex(color[2..])
    ensures IsColorDark(color) == Success(DarkBits(HexBits(color[1..])))
    ensures HexBits(color[1..]) == -(HexValue(color[2..]) as int)
  {
    var h := color[1..];
    assert color[0] == '#' && h[0] == '-' && h[1..] == color[2..];
    HashColorBits(color);
    HexBitsNegated(h);
  }

  /** "#-1", "#-01", ...: all 32 bits set, every channel 255, so light. */
  lemma MinusOneIsLight(color: string)
    requires |color| > 2 && color[..2] == "#-" && AllHex(color[2..]) && HexValue(color[2..]) == 1
    ensures IsColorDark(color) == Success(false)
  {
    NegativeHex(color);
    assert HexBits(color[1..]) == -1;
    assert -1 / 65536 == -1 && -1 / 256 == -1 && -1 % 256 == 255;
    assert !DarkBits(-1);
  }

  /** parseInt skips a "0x" after the "#": "#0xRRGGBB" is judged as "#RRGGBB". */
  lemma PrefixedHexIgnored(d: string)
    requires |d| > 0 && AllHex(d)
    ensures IsColorDark("#0x" + d) == IsColorDark("#" + d)
  {
    assert ("#0x" + d)[1..] == "0x" + d;
    assert ("#" + d)[1..] == d;
    HexBitsPrefixed(d);
  }

  /** After "#", text that parseInt reads as NaN (no sign, space or digit first) is black. */
  lemma NoHexDigitIsDark(color: string)
    requires |color| >= 2 && color[0] == '#'
    requires !IsHexDigit(color[1]) && !IsJsWhiteSpace(color[1]) && color[1] != '-' && color[1] != '+'
    ensures IsColorDark(color) == Success(true)
  {
    HexBitsNoDigit(color[1..]);
  }

  /** isColorDark with CSS's three-digit shorthand "#RGB" read as "#RRGGBB". */
  function IsColorDarkCss(color: string): Result<bool, string>
  {
    if |color| == 4 && color[0] == '#' && AllHex(color[1..]) then
      IsColorDark(['#', color[1], color[1], color[2], color[2], color[3], color[3]])
    else IsColorDark(color)
  }

  /**
   * With the shorthand read as CSS reads it, "#RGB" has channels 17*R, 17*G
   * and 17*B, and every other colour is judged as before.
   */
  lemma ShorthandHexAsCss(color: string)
    ensures |color| == 4 && color[0] == '#' && AllHex(color[1..]) ==>
              IsColorDarkCss(color) ==
              Success(DarkRgb(17 * HexDigitValue(color[1]), 17 * HexDigitValue(color[2]), 17 * HexDigitValue(color[3])))
    ensures !(|color| == 4 && color[0] == '#' && AllHex(color[1..])) ==> IsColorDarkCss(color) == IsColorDark(color)
  {
    if |color| == 4 && color[0] == '#' && AllHex(color[1..]) {
      var long := ['#', color[1], color[1], color[2], color[2], color[3], color[3]];
      assert long[1..] == [color[1], color[1], color[2], color[2], color[3], color[3]];
      assert AllHex(long[1..]) by {
        assert IsHexDigit(color[1..][0]) && IsHexDigit(color[1..][1]) && IsHexDigit(color[1..][2]);
      }
      SixDigitHexChannels(long);
    }
  }

  /** ... so "#fff" is white and gets dark text, and "#000" stays dark. */
  lemma ShorthandWhiteAsCss(color: string)
    requires ShorthandWhite(color)
    ensures IsColorDarkCss(color) == Success(false)
  {
    assert IsHexDigit(color[1..][0]) && IsHexDigit(color[1..][1]) && IsHexDigit(color[1..][2]);
    ShorthandHexAsCss(color);
    assert HexDigitValue(color[1]) == 15 && HexDigitValue(color[2]) == 15 && HexDigitValue(color[3]) == 15;
  }

  lemma ShorthandBlackAsCss(color: string)
    requires |color| == 4 && color[0] == '#' && forall i :: 1 <= i < 4 ==> color[i] == '0'
    ensures IsColorDarkCss(color) == Success(true)
  {
    assert IsHexDigit(color[1..][0]) && IsHexDigit(color[1..][1]) && IsHexDigit(color[1..][2]);
    ShorthandHexAsCss(color);
    assert HexDigitValue(color[1]) == 0 && HexDigitValue(color[2]) == 0 && HexDigitValue(color[3]) == 0;
  }
}
