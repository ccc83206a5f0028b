# Drag-and-drop notes board: a Dafny model

The application is a sticky-note board. A signed-in user owns *note types*,
which are the board's columns, and *notes*, each with content, a colour and the
type it belongs to. The model covers three parts of the application:

- **The server actions** (`src/actions/notes.action.ts`). Every action first
  checks the session and fails closed: it returns `null`, `[]` or `false` and
  leaves the tables alone. The actions are createNote, fetchNoteTypes,
  fetchNotes, updateNote, deleteNote, deleteType and createNoteType.
  `NotesAction.Datastore` holds the two tables as sequences of rows, plus each
  table's next id. The mutating actions are methods on it. The two reads are
  functions of the tables.
- **The notes page** (`src/components/page.tsx`). `Page.NotesPage` keeps a
  client-side mirror of the caller's notes and types. It refetches after every
  reported success except a move, which only shows a notification. It edits the type list optimistically and rolls that edit
  back only when the call throws. It moves a note optimistically and never
  reverts the move. It also decides between create and update when the note
  form is submitted.
- **The board** (`src/components/noteList.tsx`). `Board.NoteList` holds the
  board's own copy of the notes, which is seeded once and never resynced.
  It also holds the id waiting for a delete confirmation and a single-note undo
  slot. Dropping a card outside every column asks to delete it. Dropping it on
  another column moves it. The pure parts are also modelled: the column filter,
  the parsing of a column's droppable id, and the text-colour test
  `isColorDark`.

Outside effects are parameters:
- The session is an `Option<UserId>`.
- Each query's outcome is a `queryOk` flag.
- A call from the page either throws (`Reply.Thrown`) or returns
  (`Reply.Replied(queryOk)`).
- A refetch's outcome is a `Refetch` value.
- The temporary id from `Date.now()` is an argument.
- What the board asks of the page is returned as a `BoardCall` instead of
  calling a callback.

The JavaScript primitives the board relies on are in the `JsText` module:
`Number.prototype.toString` for ids, `parseInt` without a radix and with radix 16
(leading white space, a sign and a "0x" prefix included),
`String.prototype.replace` with a string pattern, and the digit runs that
`/\d+/g` finds.

Where the documented behaviour and the code disagree, the model follows the
code:
- `deleteNote` reports `true` for an id that matches no row.
- A failed move is not rolled back in the page or on the board.
- `createNote` checks neither that the type belongs to the caller nor that
  the content is non-empty.

## Model

| member | source | states |
|---|---|---|
| JsText.NatToString | src/components/noteList.tsx:227 | `id.toString()` of a non-negative id is a non-empty string of digits, with no leading zero unless the id is 0 |
| JsText.IntToString | src/components/noteList.tsx:227 | `id.toString()` starts with '-' exactly for a negative id, and the rest is all digits |
| JsText.IntToStringInjective | src/components/noteList.tsx:119 | two ids with the same decimal text are the same id, so matching cards by `id.toString()` matches by id |
| JsText.DecimalValueOfNatToString | src/components/noteList.tsx:166 | `Number` of the decimal text of n is n |
| JsText.ParseInt | src/components/noteList.tsx:132 | after leading white space and an optional sign, a "0x" switches to hexadecimal; `parseInt` is NaN exactly when no digit of that radix follows; text made only of decimal digits reads as its decimal value |
| JsText.ParseIntOfIntToString | src/components/noteList.tsx:132 | `parseInt` reads back every integer that `toString` writes |
| JsText.IndexOfFrom | src/components/noteList.tsx:132 | the index found is an occurrence of the pattern at or after the start, and no earlier index from the start is one; None means there is no occurrence |
| JsText.ReplaceFirst | src/components/noteList.tsx:132 | `replace(pat, "")` leaves text without pat unchanged, and otherwise cuts out exactly the first occurrence |
| JsText.ReplaceFirstOfPrefixed | src/components/noteList.tsx:132 | `replace(pat, "")` on text that starts with pat gives back the rest |
| JsText.DigitRuns | src/components/noteList.tsx:162 | every run `/\d+/g` finds is non-empty and all digits; there are no runs exactly when the text has no digit |
| JsText.DigitRunsSkip | src/components/noteList.tsx:162 | text without digits adds no run |
| JsText.DigitRunsRun | src/components/noteList.tsx:162 | a maximal run of digits at the front is the first run |
| JsText.DigitPrefixLengthOfRun | src/components/noteList.tsx:162 | a run of digits ends where the first non-digit starts |
| JsText.TrimStart | src/components/noteList.tsx:157 | what `parseInt` reads from is a suffix of the text that does not start with white space, and every character skipped before it is white space |
| JsText.HexParse | src/components/noteList.tsx:157 | `parseInt(s, 16)` is NaN exactly when no hex digit follows the white space, the optional sign and the optional "0x"; text made only of hex digits reads as its hexadecimal value |
| JsText.HexBits | src/components/noteList.tsx:157-160 | the value the shifts see: text `parseInt(., 16)` reads as NaN gives 0, and text made only of hex digits is its hexadecimal value |
| JsText.HexBitsNegated | src/components/noteList.tsx:157 | a leading '-' negates the value of the hex digits after it |
| JsText.HexBitsPrefixed | src/components/noteList.tsx:157 | a "0x" before the hex digits is skipped |
| JsText.HexBitsNoDigit | src/components/noteList.tsx:157 | text that starts with no hex digit, white space or sign is NaN, which the shifts read as 0 |
| NotesAction.OwnedTypes | src/actions/notes.action.ts:51-54 | the rows kept by `.eq('owner', userId)` are exactly the table's rows with that owner |
| NotesAction.TypeMap | src/actions/notes.action.ts:87 | the map's keys are exactly the type ids |
| NotesAction.TypeMapLastWins | src/actions/notes.action.ts:87 | when rows share an id the later one wins: a row that no later row shadows gives its id its name |
| NotesAction.NotesOfTypes | src/actions/notes.action.ts:90-93 | the rows kept by `.in('typeId', ids)` are exactly the rows whose typeId is one of the ids |
| NotesAction.NotesOfTypesUnique | src/actions/notes.action.ts:90-93 | with unique row ids in the table, no row is listed twice |
| NotesAction.NotesOfTypesAppend | src/actions/notes.action.ts:90-93 | the filter distributes over concatenation, so each kept row appears once and in table order |
| NotesAction.TypeLabel | src/actions/notes.action.ts:102 | the name is never empty; it is "Unknown" exactly when the id is missing from the map or maps to "" or "Unknown"; otherwise it is the mapped name |
| NotesAction.FetchNoteTypes | src/actions/notes.action.ts:43-62 | no session or a query error gives []; otherwise a row is returned exactly when it belongs to the caller |
| NotesAction.FetchNotes | src/actions/notes.action.ts:67-108 | no session or either query failing gives []; every listed note is a stored row of one of the caller's types; all such rows are listed in the order of `NotesOfTypes`, which `NotesOfTypesAppend` shows lists each row once, in table order (the query sets no order) |
| NotesAction.FetchNotesNames | src/actions/notes.action.ts:100-103 | with unique type ids, every note fetchNotes lists carries the name of the caller's type it belongs to, or "Unknown" when that name is empty |
| NotesAction.OwnedTypesUnique | src/actions/notes.action.ts:87 | restricting the types to one owner keeps type ids unique |
| NotesAction.WithoutNote | src/actions/notes.action.ts:141-144 | the delete keeps exactly the rows with another id, and keeps ids unique |
| NotesAction.WithoutType | src/actions/notes.action.ts:162-165 | the delete keeps exactly the type rows with another id, and keeps ids unique |
| NotesAction.Patched | src/actions/notes.action.ts:118-121 | a patch keeps the row's id; an empty patch changes nothing; a patch of every field replaces content, type and colour |
| NotesAction.PatchedIdempotent | src/actions/notes.action.ts:118-121 | applying the same patch again changes nothing more |
| NotesAction.UpdatedNotes | src/actions/notes.action.ts:118-121 | the table keeps its length, order and ids; the rows with that id are patched and no other row changes; with no such row the table is unchanged; unique ids stay unique |
| NotesAction.UpdatedNotesIdempotent | src/actions/notes.action.ts:118-121 | repeating an update with the same patch leaves the table as the first update left it |
| NotesAction.IndexOfNote | src/actions/notes.action.ts:118-123 | the row that `.eq('id', noteId).single()` selects has that id |
| NotesAction.OrphanedNotesNotListed | src/actions/notes.action.ts:162-165 | once a type row is deleted, no note of that type is listed, although the note rows stay in the table |
| NotesAction.Datastore.constructor | src/actions/notes.action.ts:7-18 | the tables start empty and the store invariant holds (ids positive, unique per table, below the next id) |
| NotesAction.Datastore.CreateNote | src/actions/notes.action.ts:21-40 | without a session or on a query error: null and no change; otherwise exactly the given content, typeId and color are stored under a new id that no existing row has, and that row is returned |
| NotesAction.Datastore.UpdateNote | src/actions/notes.action.ts:111-131 | without a session, on a query error, or when no row has the id: null and no change; otherwise only the supplied fields of the row with that id change, and the updated row is returned; no ownership check |
| NotesAction.Datastore.DeleteNote | src/actions/notes.action.ts:134-152 | reports true exactly when there is a session and no query error, whether or not a row matched; then exactly the rows with that id are gone; false leaves the store unchanged |
| NotesAction.Datastore.DeleteType | src/actions/notes.action.ts:155-173 | reports true exactly when there is a session and no query error; then the type is gone for every user and no note row changes; false leaves the store unchanged |
| NotesAction.Datastore.CreateNoteType | src/actions/notes.action.ts:176-194 | reports true exactly when there is a session and no query error; then one type row owned by the caller is appended under a new id |
| NoteViews.FindById | src/components/page.tsx:143 | `find` returns None exactly when no note has the id; otherwise it returns the first note with that id |
| NoteViews.Moved | src/components/page.tsx:145-149 | a move keeps length and order, sets the typeId of the notes with that id, and changes nothing else |
| NoteViews.MovedAbsentIsIdentity | src/components/page.tsx:143-144 | when `find` returns no note, the move the guard skips would have changed nothing |
| NoteViews.MovedFindById | src/components/page.tsx:143-149 | after a move, `find` returns the note it returned before, now with the new typeId |
| NoteViews.MovedTwice | src/components/page.tsx:145-149 | of two moves of the same note, the second decides its column |
| Page.WithContent | src/components/page.tsx:42 | the refetch keeps exactly the notes with non-empty content |
| Page.WithContentAppend | src/components/page.tsx:42 | the content filter keeps the order of the notes it keeps |
| Page.WithoutColumn | src/components/page.tsx:124 | the filter keeps exactly the entries with another id |
| Page.WithoutColumnAppend | src/components/page.tsx:124 | the filter keeps the order of the entries it keeps |
| Page.FindColumn | src/components/page.tsx:123 | None exactly when no entry has the id; otherwise the first entry with that id |
| Page.AddTypeRollbackRestores | src/components/page.tsx:106-118 | when the temporary id is fresh, the rollback after a thrown call gives back exactly the list from before the optimistic append |
| Page.RemoveTypeRollbackRestoresMembership | src/components/page.tsx:123-137 | with unique ids, the rollback after a thrown call gives back the same entries and the same count |
| Page.RemoveTypeRollbackMovesToEnd | src/components/page.tsx:136 | the restored entry goes to the end, so the restored list can differ in order from the original |
| Page.NotesPage.constructor | src/components/page.tsx:31-37 | the page starts with empty lists, no current note, not editing, and loading |
| Page.NotesPage.FetchData | src/components/page.tsx:39-49 | a thrown refetch changes nothing; otherwise both lists are replaced by the fetch results and loading ends; every note shown has content, is a stored row, and belongs to one of the caller's types |
| Page.NotesPage.HandleCreateNote | src/components/page.tsx:55-70 | the store gains the new row exactly when the create reports success, and only then is the mirror refetched |
| Page.NotesPage.HandleUpdateNote | src/components/page.tsx:72-90 | no effect without a current note; on a returned note the store row is updated, the mirror is refetched and the current note is cleared; otherwise neither the store nor the mirror changes |
| Page.NotesPage.HandleDeleteNote | src/components/page.tsx:92-103 | the rows with that id leave the store exactly when the delete reports success, and only then is the mirror refetched |
| Page.NotesPage.HandleAddNoteType | src/components/page.tsx:105-120 | the entry is appended first; a thrown call filters the temporary id back out; a reported failure leaves the temporary entry in the list; a reported success stores the type and refetches |
| Page.NotesPage.HandleRemoveType | src/components/page.tsx:122-139 | the entries with that id are removed first; a thrown call re-appends the first removed entry at the end; a reported failure leaves them removed; a reported success deletes the type and refetches |
| Page.NotesPage.HandleMoveNote | src/components/page.tsx:141-157 | a note in the mirror changes column at once whatever the reply, and the store row changes only on a reported success; there is no rollback and no refetch; an absent note changes nothing |
| Page.NotesPage.HandleUndo | src/components/page.tsx:159-174 | the note is recreated from its content, typeId and color alone; on success the store holds a note with those fields under a new id |
| Page.NotesPage.OpenModal | src/components/page.tsx:176-180 | the page is editing exactly when the note's id is non-zero; the note becomes current and the form opens |
| Page.NotesPage.HandleFinish | src/components/page.tsx:182-188 | an edit of a current note with non-empty content, or of no current note, is an update; everything else is a create |
| Board.ColumnNotes | src/components/noteList.tsx:64-65 | a column shows exactly the notes of that type whose id is non-zero |
| Board.ColumnNotesAppend | src/components/noteList.tsx:64-65 | a column lists its notes in the order of the board's list |
| Board.MovedNoteChangesColumn | src/components/noteList.tsx:131-143 | with unique ids, after a move the note is listed in the target column with its new type and in no other column |
| Board.DroppableId | src/components/noteList.tsx:210 | the droppable id starts with "droppable-", and the character after it is '-' exactly for a negative type id |
| Board.ParseColumnId | src/components/noteList.tsx:132 | every droppable id rendered for a column parses back to that column's type id |
| Board.ColumnIdRoundTrip | src/components/noteList.tsx:132 | the droppable id rendered for a column parses back to its type id, and different columns render different droppable ids |
| Board.FindByDraggableId | src/components/noteList.tsx:119 | None exactly when no note's decimal id is the draggable id; otherwise a note whose decimal id it is |
| Board.DraggableIdFindsById | src/components/noteList.tsx:119 | looking a card up by its draggable id finds the same note as looking it up by its numeric id |
| Board.MoveTarget | src/components/noteList.tsx:131-133 | a target exists only when the drop changes column, and a drop on another rendered column targets that column's type |
| Board.NoteList.constructor | src/components/noteList.tsx:60-62 | the board copies the notes it is given, with nothing pending and an empty undo slot |
| Board.NoteList.OnDragEnd | src/components/noteList.tsx:115-146 | an unknown card changes nothing; a drop outside every column marks the card for deletion and opens the confirmation; a drop on another column whose id parses moves the card there and asks the page to move it; any other drop changes nothing |
| Board.NoteList.RequestDelete | src/components/noteList.tsx:276-279 | the delete button marks the card for deletion and opens the confirmation |
| Board.NoteList.HandleDelete | src/components/noteList.tsx:67-98 | when the marked id is on the board, that card replaces the undo slot and the page is asked to delete it; otherwise nothing happens; the card stays in the board's own list |
| Board.NoteList.ConfirmDelete | src/components/noteList.tsx:313-317 | confirming runs handleDelete and closes the confirmation |
| Board.NoteList.CancelDelete | src/components/noteList.tsx:312 | cancelling only closes the confirmation |
| Board.NoteList.HandleUndo | src/components/noteList.tsx:100-113 | the note in the undo slot goes to the page and the slot empties; with an empty slot nothing happens, so a second undo is a no-op |
| Board.IsColorDark | src/components/noteList.tsx:150-171 | "" is light; the error is raised exactly for a non-empty colour that does not start with '#' and has no digit |
| Board.RgbChannels | src/components/noteList.tsx:161-170 | `rgb(r, g, b)` is dark exactly when 299r + 587g + 114b is below 150000 |
| Board.RgbRuns | src/components/noteList.tsx:162 | the digit runs of `rgb(R, G, B)` are R, G and B |
| Board.SixDigitHexChannels | src/components/noteList.tsx:156-160 | `#RRGGBB` is judged by the channels RR, GG and BB |
| Board.HexSixChannels | src/components/noteList.tsx:157-160 | the shifts and masks applied to six parsed hex digits give back their three bytes |
| Board.ThreeBytes | src/components/noteList.tsx:158-160 | `>> 16 & 255`, `>> 8 & 255` and `& 255` give back the three bytes of a 24-bit value |
| Board.NegativeHex | src/components/noteList.tsx:157-160 | after "#-" the sign reaches the shifts: the bytes judged are those of the negated value |
| Board.MinusOneIsLight | src/components/noteList.tsx:157-170 | "#-1" has all 32 bits set, so every channel is 255 and the colour is light |
| Board.PrefixedHexIgnored | src/components/noteList.tsx:157 | "#0x" followed by hex digits is judged as "#" followed by those digits |
| Board.NoHexDigitIsDark | src/components/noteList.tsx:157-170 | '#' followed by no hex digit, white space or sign parses as NaN, read as 0, so the colour is black and dark |
| Board.ShorthandBytes | src/components/noteList.tsx:157-160 | three hex digits XYZ make the bytes 0, X and YZ |
| Board.ShorthandHexAsWritten | src/components/noteList.tsx:156-160 | as written, `#XYZ` is read as red 0, green X, blue YZ |
| Board.WhiteShorthandJudgedDark | src/components/noteList.tsx:156-170 | as written, white in shorthand (`#fff` in any letter case) is judged dark |
| Board.ShorthandHexAsCss | src/components/noteList.tsx:156-160 | with shorthand read as CSS reads it, `#RGB` has channels 17R, 17G and 17B, and every other colour is judged as before |
| Board.ShorthandWhiteAsCss | src/components/noteList.tsx:169-170 | with shorthand read as CSS reads it, `#fff` in any letter case is light |
| Board.ShorthandBlackAsCss | src/components/noteList.tsx:169-170 | with shorthand read as CSS reads it, `#000` is dark |

## Left out

- Rendering, toasts, notifications, console output, the note and type forms, and the modal's markup are not modelled. Only the state they change is modelled.
- Authentication (`getServerSession`, the auth options, sign-up and login) is not part of this model. A session is an `Option<UserId>`, with None for "no session" and "no user id" alike.
- Datastore replies are flags: `queryOk`, `Reply` and `Refetch`. The kinds of error, row-level security, network failures between steps, and the contents of error messages are left out.
- Concurrency: each handler runs as one atomic step. `fetchData()` is called without `await`, so the order in which overlapping requests and refetches land is not modelled.
- `Date.now()` is the `tempId` argument of `Page.NotesPage.HandleAddNoteType`. A clash with an existing id is not ruled out, so `Page.AddTypeRollbackRestores` takes freshness as a precondition.
- The page's `noteTypes` entries are `{id, typeName}`. The page never reads the owner that `fetchNoteTypes` returns, so `Page.Columns` drops it.
- The board's `onEdit`, `onAddType`, `onAddNote` and `onRemoveType` props only forward to the page and are not modelled. The board's column list is a prop, so `Board.ColumnNotes` takes a type id instead of holding state.
- The board's callbacks are returned as a `BoardCall` value. Nothing links a `Board.NoteList` to a `Page.NotesPage`, and the board is never resynced with the page's later refetches, as in the code.
- JsText.ParseInt: the loss of precision above 2^53 is not modelled, and "-0" is read as 0. Ids are assumed to stay below 2^53. That also keeps them below 1e21, from which JavaScript's `toString` switches to exponent notation ("1e+21", which `parseInt` reads as 1), a form `JsText.IntToString` never writes.
- Board.IsColorDark: hex values above 2^53 lose precision in JavaScript but not in the model. The `>>` operators work on `ToInt32` of the value, which gives the same bytes for every value below 2^53. A digit run too long for a double is read exactly.
- NotesAction.FetchNotes: the notes query (src/actions/notes.action.ts:90-93) sets no order, so the datastore may return the rows in any order. The model returns them in table order. Only which notes are listed follows from the code.
- Board.NoteList.constructor: the page renders the board on its first render, while its `notes` is still `[]` (src/components/page.tsx:31, 205). The board is never remounted and never copies later `notes` into `localNotes` (src/components/noteList.tsx:62), so in the program the board starts from `[]` for good. The model's constructor accepts any initial list.
- Board.NoteList.HandleUndo: the toast's undo link and its Dismiss button (src/components/noteList.tsx:76, 79-82) call the `handleUndo` of the render in which `handleDelete` ran. That closure still sees the previous undo slot, not the note just deleted. The model reads the slot as it is when undo runs.
- NotesAction.FetchNotesNames: type names are stated only when type ids are unique, which the table's primary key guarantees. `NotesAction.TypeMap` states the general last-row-wins rule.
- Differences from the documented behaviour, where the model follows the code: `deleteNote` reports success for an id that matches no row; a move that fails is not rolled back in the page or on the board; `createNote` (src/actions/notes.action.ts:28-32) checks neither the type's owner nor that the content is non-empty.

## Findings

| source | as written | input that shows it | evidently intended | confidence | as-written member | corrected member |
|---|---|---|---|---|---|---|
| src/components/noteList.tsx:156-160 | a `#` colour is parsed as one hexadecimal number and split into bytes at bits 16, 8 and 0, so the shorthand `#fff` becomes red 0, green 15, blue 255 (brightness 37.875) | `isColorDark("#fff")` is true, so a white note gets white text | three-digit shorthand means `#ffffff`, which is light (brightness 255) and gets dark text | low: depends on whether shorthand colours reach the board; not executed | Board.WhiteShorthandJudgedDark | Board.ShorthandHexAsCss |
