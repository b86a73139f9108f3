# OpenVi: a verified model of the edit engine

This project models the part of OpenVi that lies between the ex commands and the record
database, and proves what it is meant to keep. The database is a sequence of lines that are
numbered from 1; everything the editor keeps beside it (the one-line cache, the line count, the
log, the marks, the pending ranges of global commands, the cut buffers, the map list and the input
queue) is modelled with the branches, edge cases and constants of the C code, as a class whose
methods update it in place or as a method with the loop of the source.

The files follow the source:

- `Store.dfy` has the values: texts, marks, ranges, log records, what each record undoes and
  redoes, and a `Journal`, the abstract log of one file (records behind and ahead of the current
  position).
- `Editor.dfy` has the class `Editor`: `common/line.c`, `common/log.c`, `common/mark.c` and the range
  callback of `ex/ex_global.c` over shared fields. `LogFacts.dfy`, `MarkFacts.dfy` and `Ranges.dfy`
  hold what its methods need.
- `Undo.dfy`, `Stages.dfy`, `History.dfy` and `UndoMarks.dfy` prove what undo and redo mean, for one group, for
  the shape of the log, for its texts and for the marks; `Commands.dfy` lifts undo
  from single edits to commands; `StaleCache.dfy` and `LostGroup.dfy` are runs of the modelled methods in
  which undo brings back something else, beside the exact conditions for it.
- `Delete.dfy`, `Cut.dfy`, `Put.dfy`, `Move.dfy` and `Join.dfy` are the range edits, run on an
  `Editor`; `MoveMarks.dfy` is the marks of a move through undo and redo; `Global.dfy` is the global
  command with its pending ranges.
- `MapTable.dfy`, `MapFile.dfy` and `EventQueue.dfy` are the key maps: the sorted list with its bitmap,
  the printer and the parser that reads it back, and the input queue with one step of mapping.
- `Search.dfy` and `Address.dfy` are the searches and the address parser.

How the main results hang together:

- Each `db_` entry point is proved to do one `Edit` to the whole journal. A command is then a run of
  edits (`Reached`), and undo is proved once, for every run: it puts back the text from before the
  group, and over a run of edits, closes, undos and redos the log is a tape of texts on which undo and redo
  only move a position.
- The text a group of records leads to is described by `Linked`, a relation between two texts that
  does not mention undo or redo; both are proved to follow it.
- Whether the log still parses is decided over whole runs by a machine of four stages that looks only at
  which entry point is called and whether a closing cursor is on line 0 (`Stages.NextStage`).
- Each range edit is proved against a specification on texts alone, and the laws (round trip,
  permutation, conservation) are proved about those specifications.

- What a specification comes to is said once more without it, line by line or character by character: the
  outcomes of a mapping step (`EventQueue.Decided`), the text of a put (`Put.LinesPut`, `Put.CharsPut`), a deletion,
  a cut and a splice as stretches of one string (`Delete.Flat`), a joined line (`Join.OneMoreJoined`), a moved block
  (`Move.BlockBehind`), addresses (`Address.PercentIsFile`, `Address.TwoAddresses`) and one command of a map file
  (`MapFile.PlainRead`).

Every lemma is marked `{:induction false}`, so that each proof is the one that is written.

## Where the code does not do what one would expect

The code is modelled as it is. These are results of the model, not repairs:

- Undoing a `db_set` on an empty file leaves a blank line behind, because the log records an empty
  old line. `Undo.UndoRestoresExactly` gives the exact condition and `Undo.UndoLeavesBlankLine` a case.
- With logging off, `db_insert` keeps a cached line that has moved. `Editor.DbInsert` says exactly when the
  cache is still right. `StaleCache.StaleCacheBreaksUndo` is a run of the entry points in which an undo
  leaves it wrong, the next deletion logs the wrong bytes, and undoing that brings back the wrong line;
  `StaleCache.UndoAgreesExactly` is the exact condition for any undo, to be looked up in the log, the text and the
  cached numbers, `History.StaleNavigates` what is left of the history after such a deletion.
- `log_cursor` takes a cursor on line 0 for "a group is open". Deleting every line in ex leaves the cursor
  there (`ex/ex_delete.c:54-60`), the next command closes its group with it (`ex/ex.c:1347-1352`), and the
  edits of that command get no INIT: one undo takes back both commands. `LogFacts.CloseExactly`,
  `Stages.EditAfterClose` and `Stages.LogParsesExactly` are the exact conditions,
  `LostGroup.DeleteAllThenAppend` is a run.
- No group is closed inside a global command (`ex/ex.c:1351`) or while a vi map has keys waiting
  (`vi/vi.c:120-124`). An undo there finds its group open: it gives back the text, but leaves the log as if
  a group were still open, and an edit that comes before the next close is undone together with the command
  before. A close on a line comes to no more than a lone END, and what follows is undone by itself
  (`LostGroup.ClosedAgain`). `LogFacts.UndoneReplayable` and `Stages.EditAfterUndo` are the exact conditions,
  `LostGroup.UndoInsideGlobal` is a run. `History.HistoryNavigates` says where undo and redo go in all of
  these runs.
- Redo of a group that was undone while open (`:g/a/s/a/b/|u|u`) does not stop at the high-water mark: with no
  END ahead it redoes whatever earlier undos left behind, and when that gives out the log is started again and
  logging stays off. `Stages.RedoAfterUndo` is the exact condition, `LostGroup.RedoPastLog` a run.
- Undo with records below and no INIT among them (on a new file, `:g/a/s/a/b/|u|s/a/c/` and then `u`) undoes all of
  them, runs off the log, and leaves logging off as well. `Stages.UndoAfterAstray` and `Stages.UndoNeverLost` are the
  exact conditions, `LostGroup.UndoPastLog` a run.
- An edit that gives an empty file its first line under a live mark, or that empties the file with a live
  mark beyond its line, makes undo lose the mark or leave it further up; `UndoMarks.UndoRestoresMarks` is an
  equivalence for any group.
- A cut into a named buffer that is also to be numbered goes twice into the named buffer, and the
  numbered ones only rotate: `Cut.NamedNumberedCut`.
- A mapping whose output is empty, begins with a blank or ends in ^V does not survive being saved;
  `MapFile.EntryRoundTrip` is an equivalence. The comments of `common/seq.c` do not say so.
- A key that the terminal description had mapped before the user did is never marked as the user's, for
  `seq_set` keeps the flags of an entry it replaces. It is not saved, and it goes when the screen ends:
  `MapFile.UserMapSavedExactly` is an equivalence, `MapFile.PremappedKeyLost` the case.
- A join that puts in no blanks leaves the cursor one short of the first character of the joined text,
  which is where the comment at `ex/ex_join.c:128-146` puts it: `Join.CursorAtJoint`.
- A count on a character-mode put repeats the first line of the buffer and no other:
  `Put.CountRepeatsFirstLine`.
- The marks on lines moved up are lost, in spite of the comment at `ex/ex_move.c:105-112`; on lines moved
  down it holds: `MoveMarks.UndoMoveMarks`. Undo brings the lost ones back (`MoveMarks.UndoMoveUpMarks`).
- A backward search does not look for a match at the end of a line that has one at the last character;
  `Search.LastIsLast` says when that shows.

## Model

| member | source | states |
|---|---|---|
| LogFacts.FitsSplit | common/log.c:330-416 | whether a log can be replayed within the file can be checked piece by piece: the later part against the file's length, the earlier against what the later leaves |
| LogFacts.PhaseSplit | common/log.c:152-203 | the shape of a log (groups of INIT, changes, END) can be checked piece by piece |
| LogFacts.EditRecords | common/log.c:212-276 | the records any edit writes are changes of one group, RESET_B directly before RESET_F, and undoing them in order never names a line that is not there |
| LogFacts.EditKeepsReplayable | common/log.c:212-276 | an edit keeps the log well formed and replayable, opening a group first if none is open, and drops the redo tail |
| LogFacts.CloseExactly | common/log.c:152-174 | closing keeps the log well formed and replayable if and only if the cursor is on a line; on line 0 the log goes astray: the next record goes on as if a group were open |
| LogFacts.GroupBehind | common/log.c:356-412 | between groups or inside one, the records behind the position end in a group that begins with an INIT that stands between groups and is followed by a record that counts as an undo |
| LogFacts.GroupAhead | common/log.c:543-600 | and the records ahead, if they hold an END at all, begin with a complete group that ends in one |
| LogFacts.ScanBackTurn | common/log.c:347-412 | each turn of the undo loop stays inside the log and inside what is to be undone, names an existing line, carries document and caches on, and ends exactly at the INIT that ends the scan |
| LogFacts.ScanBackEnds | common/log.c:347-359 | a scan that reaches the front of the log has undone all of it |
| LogFacts.UndoStops | common/log.c:347-412 | where undo finds its way the scan undoes exactly the last group |
| LogFacts.ScanForwardTurn | common/log.c:534-600 | each turn of the redo loop stays inside the records there are, names a line that will be there, and ends exactly at the END that ends the scan |
| LogFacts.RedoStops | common/log.c:534-600 | where redo finds its way the scan redoes exactly the stretch up to the next END, whatever leftovers lie behind it |
| LogFacts.UndoAllCount | common/log.c:356-412 | undoing a replayable log changes the number of lines by the log's net, for every log |
| LogFacts.UndoneReplayable | common/log.c:329-416 | after an undo the log is well formed and replayable both ways if and only if no group was open; otherwise it goes astray |
| LogFacts.AstrayReplays | common/log.c:329-604 | on a log gone astray undo still works and stays there, and so does redo of a whole group |
| LogFacts.AstrayBreaks | common/log.c:152-203 | and any record written next makes it stop parsing |
| LogFacts.RedoneReplayable | common/log.c:516-604 | after a redo the log can still be replayed both ways |
| MarkFacts.SetKeepsSorted | common/mark.c:156-188 | setting a mark keeps the list sorted by name, with no name twice |
| MarkFacts.LookupSet | common/mark.c:156-188 | setting a mark changes what that name (the two absolute marks being one) stands for and no other |
| MarkFacts.SetMeans | common/mark.c:156-188 | what is then under the name, to the letter: the new position, live, unless a live mark of the user's would give way to one that is not; the two names of the absolute mark are one |
| MarkFacts.LookupDelete | common/mark.c:230-239 | after a deletion every mark on the line is deleted, every later one is a line up, the others stand |
| MarkFacts.LookupInsert | common/mark.c:240-267 | after an insertion every mark at or after the line is a line down, the others stand |
| Ranges.AdjustRanges | ex/ex_global.c:249-316 | the walk over a command's ranges, which revisits the upper half of a range it has split, ends and gives the list the specification gives |
| Ranges.DeletedFrom | ex/ex_global.c:270-295 | which lines a range stands for after a deletion, line by line |
| Ranges.InsertedInto | ex/ex_global.c:270-306 | and after an insertion: in a range that is split the lines behind are two down |
| Ranges.Followed | ex/ex_global.c:263-312 | only @ commands with a range, global and v commands are followed, and the line is kept |
| EditorModule.Editor.constructor | common/log.c:88-116 | a file starts with an empty log, no marks, and caches that answer nothing |
| EditorModule.Editor.DbGet | common/line.c:79-170 | an existing line is found; the bytes are the cached ones or the line's, and with a coherent cache always the line's; a coherent cache stays coherent |
| EditorModule.Editor.DbExist | common/line.c:402-428 | answers whether the line is in the file, from the cached count when there is one |
| EditorModule.Editor.DbLast | common/line.c:437-489 | answers the number of lines, cached or not, and caches it |
| EditorModule.Editor.LogCursor | common/log.c:152-174 | closes the open group, if there is one, and remembers the cursor, whichever line it is on, as what the next group starts at |
| EditorModule.Editor.LogLine | common/log.c:212-276 | writes one record with the line's bytes as the cache gives them, at the current position, over what was there to redo; nothing with logging off |
| EditorModule.Editor.LogMarkAt | common/log.c:288-320 | writes one mark record, with a group opened before it if none is open |
| EditorModule.Editor.MarkFind | common/mark.c:196-211 | finds the entry, or the one after which the name belongs |
| EditorModule.Editor.MarkGet | common/mark.c:113-147 | gives the mark that is set, not deleted and on an existing line (or at the first position of any file) |
| EditorModule.Editor.MarkSet | common/mark.c:156-188 | inserts or replaces in the sorted list, and clears a deletion |
| EditorModule.Editor.MarkDelete | common/mark.c:230-239 | shifts and deletes marks in one walk, logging each mark that goes, in order |
| EditorModule.Editor.MarkInsert | common/mark.c:240-267 | shifts marks, except when the file now has one line |
| EditorModule.Editor.ExGInsDel | ex/ex_global.c:249-316 | adjusts the ranges of every pending global command and of no other |
| EditorModule.Editor.DbDelete | common/line.c:179-222 | one deletion on text, marks and ranges, logged with the marks first; a coherent cache stays coherent, with logging it always becomes so |
| EditorModule.Editor.DbAppend | common/line.c:231-288 | one line after another, logged; the same for the cache |
| EditorModule.Editor.DbInsert | common/line.c:297-344 | one line before another, logged; with logging off a right cache stays right if and only if the cached line is not beyond the insertion, or equals the line before it, or the line count was unknown and another line than 2 was cached |
| EditorModule.InsertedCache | common/line.c:321-342 | the same about the caches alone, for every cache, text and insertion |
| EditorModule.Editor.DbSet | common/line.c:353-393 | one line replaced, logged as before and after images; the same for the cache |
| EditorModule.Editor.LogBackward | common/log.c:329-416 | undoes exactly the records from the last INIT with a change behind it, of a closed group or an open one, leaves the log as it is with that INIT next, and returns its cursor; with no such INIT it undoes everything, the log is empty and logging is off; it changes nothing when nothing is below or logging is off |
| EditorModule.Editor.LogForward | common/log.c:516-604 | redoes exactly the records behind l_cur up to the first END with a change before it, past the high-water mark if need be, and returns its cursor; with no such END it redoes all there are, the log is empty and logging is off; it changes nothing at the high-water mark or with logging off |
| Undo.LinkedUndo | common/log.c:356-412 | records that lead from one text to another are undone to the first, for every log |
| Undo.LinkedRedo | common/log.c:543-600 | and redone to the second |
| Undo.EditLinked | common/line.c:179-393 | the records of every edit lead from the text it found to the text it left, but for a set on an empty file, which they take for one empty line |
| Undo.UndoGroup | common/log.c:329-416 | undoing a closed group of any edits gives the text before it, the first deletion's recorded bytes put in, and one blank line for each set on an empty file; redo gives the group back |
| Undo.UndoRestoresExactly | common/log.c:329-416 | the text before the group comes back if and only if the first edit logged the bytes that were there and no edit set a line of an empty file |
| Undo.UndoLeavesBlankLine | common/log.c:247-255 | an empty file, one set, one undo: a file of one empty line |
| Undo.UndoOpenGroup | common/log.c:329-416 | undoing a group that is still open gives the same text as undoing it closed, and leaves the cursor out of band |
| StaleCache.StaleCacheBreaksUndo | common/line.c:321-326 | a run of the entry points after which undoing a deletion brings back another line's bytes |
| StaleCache.LineUndoneIs | common/log.c:356-412 | where the bytes of each line come from when records are undone: from the record that puts them there, or from the line of the text that comes to stand there |
| StaleCache.UndoAgreesExactly | common/log.c:356-412 | undoing any records leaves a right cache right if and only if nothing is cached in the end, or the line with the cached number still has the bytes it had when it was read, line count known or not |
| StaleCache.UndoLeavesCache | common/log.c:329-416 | log_backward on a coherent cache leaves it coherent exactly then; it does if the line count is known and no line comes back before the cached one |
| LostGroup.AstrayUndo | common/log.c:152-412 | edits written while the cursor is out of band and no group is open are undone together with the group before them |
| LostGroup.ClosedAgain | common/log.c:166-174 | after a close on a line the edits that follow are undone by themselves |
| LostGroup.DeleteAllThenAppend | ex/ex_delete.c:54-60 | a run: the file deleted, a line appended, one undo, and the deleted line is back |
| LostGroup.UndoInsideGlobal | ex/ex.c:1347-1352 | a run: a change, then an undo in the middle of a group and an edit after it; one undo takes back the first change too |
| LostGroup.RedoPastLog | common/log.c:534-545 | a run: a change undone while its group is open, and redone past the end of the log, which is lost with logging off |
| LostGroup.UndoPastLog | common/log.c:347-359 | a run: a change undone while its group is open, another in its place, and an undo off the front of the log, which is lost with logging off |
| History.StepRelated | common/log.c:152-604 | every edit, close, undo and redo keeps the log and a tape of texts with a position in step |
| History.GuardsExact | common/log.c:347-600 | undo and redo find their way exactly when the tape has a place for them to go |
| History.HistoryNavigates | common/log.c:329-604 | after any run on a new file in which undo and redo have somewhere to go, whatever was closed or undone when, the text is the tape's at its position, and the tape says exactly whether undo and redo find their way |
| Stages.LogParsesExactly | common/log.c:152-604 | over any run, stale deletions included, the log parses as groups and undo and redo find their way, up to the first edit or close after a close on line 0 or an undo of an open group; with that one, and only then, it no longer parses |
| Stages.EditAfterUndo | common/log.c:212-416 | an edit after an undo leaves a log that parses if and only if no group was open at the undo |
| Stages.EditAfterClose | common/log.c:152-276 | an edit after a close leaves one if and only if the closing cursor was not on line 0 |
| Stages.RedoAfterUndo | common/log.c:534-600 | redo after undo finds its way if and only if the group undone was closed |
| Stages.UndoAfterAstray | common/log.c:347-412 | undo of an edit on a log gone astray finds its way if and only if there was a group before |
| Stages.UndoNeverLost | common/log.c:329-416 | after any run, whatever it left of the groups, undo finds its way if and only if there is nothing below or an INIT, and never meets a line that is not there |
| History.StaleNavigates | common/log.c:212-604 | from any log, a deletion that logs other bytes than the line's starts a tape of its own at the text with those bytes in it, which is what undo brings back, and all that is done after it moves on that tape until an undo goes further back |
| History.RedoUndoesUndo | common/log.c:329-604 | redo after undo is the identity on log and text if and only if what was undone is one INIT, changes and one END |
| History.UndosReach | common/log.c:329-416 | the text before any group below is as many undos away as groups begin from there on |
| History.RedosReach | common/log.c:516-604 | the text after any group ahead is as many redos away as there are groups up to it, if none of them was written on after its END |
| UndoMarks.UndoRestoresMarks | common/mark.c:156-272 | a mark that was live when a group began, and not set by the user in it, is back live at its line and column after undo if and only if no edit of the group gave an empty file its first line under the mark, or emptied the file with the mark live beyond its line and no later edit set a line of the empty file; otherwise it is lost or further up |
| UndoMarks.OneEditRestoresMarkExactly | common/log.c:288-412 | the same for one edit and the mark's whole entry |
| UndoMarks.LoggedMarks | common/log.c:401-408 | undoing the mark records of a deletion sets exactly the marks that were on the line |
| Commands.UndoCommand | common/log.c:329-416 | whatever command ran as a run of edits on a coherent cache, closing its group and undoing gives the text before it, and redo the text after it |
| Commands.ReachedSpelled | common/line.c:179-393 | a run of edits writes records that lead from the text before it to the text after it, no line of an empty file being set |
| Commands.UndoSpelled | common/log.c:329-604 | and so a command that also logs and moves marks can be undone and redone, text for text |
| Delete.Del | common/delete.c:34-163 | all four cases give the lines before, the first line's prefix joined to the last line's suffix (nothing in line mode), and the lines after; it fails only for an end beyond a line, and then nothing is changed |
| Delete.DeletedIsStretch | common/delete.c:27-164 | seen as one string with newlines, the file loses exactly the stretch from the first position up to and with the second, or to the end of its line |
| Delete.Case2 | common/delete.c:56-89 | deleting to the end of the file and cutting the first line is the specification |
| Delete.Case3 | common/delete.c:91-107 | cutting the middle out of one line is the specification |
| Delete.Case4 | common/delete.c:109-155 | joining the ends onto the first line and deleting the others is the specification |
| Cut.RotationShifts | common/cut.c:192-233 | after rotating, each numbered buffer is what the one before it was, buffer 1 is gone, and no other buffer is touched |
| Cut.RotatedDistinct | common/cut.c:192-233 | rotating keeps one buffer to a name |
| Cut.FindFilled | common/cut.c:104-180 | filling a buffer replaces or, for an upper-case name, extends that one and no other |
| Cut.CutIsStretch | common/cut.c:63-250 | what is cut in character mode is exactly that stretch of the file |
| Cut.PlainCut | common/cut.c:63-196 | where an unnumbered cut goes: the unnamed storage, the named buffer, or for a capital letter behind what the small one holds and into the storage too; no other buffer changes |
| Cut.DefaultIsCut | common/cut.c:139-186 | after any cut, even one that extends a named buffer, the default buffer holds exactly what was cut |
| Cut.NumberedHistory | common/cut.c:66-186 | an unnamed numbered cut makes buffer 1 what was cut and shifts the other eight |
| Cut.NamedNumberedCut | common/cut.c:104-172 | a named numbered cut leaves a buffer 1 if and only if that is its name, and the text in the named buffer |
| Cut.Buffers.Rotate | common/cut.c:192-233 | the loop renames in place and drops one buffer, as specified |
| Cut.Buffers.CutLine | common/cut.c:241-272 | one piece of one line, the whole of it where no end is given |
| Cut.Buffers.CutPieces | common/cut.c:139-163 | the pieces of the lines of any range, and their total length |
| Cut.Buffers.Cut | common/cut.c:66-186 | all buffers after a cut, in every combination of name, case and numbering; nothing changes when a line number is missing |
| Put.Put | common/put.c:34-252 | in line mode the file grows by cnt times the buffer: line i of the new ones is line i modulo the buffer's length, behind the line the call names (the first of an empty file), and all others are as they were; in character mode the first line put has cnt copies of the buffer's first line, character by character, between what was before the column and what was behind it; the mark it returns, to the column; it fails only when the line is not there, and then nothing is changed |
| Put.PutChars | common/put.c:125-244 | a character-mode put splices the buffer's lines into the line at the column, the first of them as often as the count says |
| Put.CountRepeatsFirstLine | common/put.c:151-157 | a count changes the first line put and no other, which grows by that many copies less one |
| Put.LinesArePut | common/put.c:61-116 | the line mode text of a put, line by line |
| Put.CharsArePut | common/put.c:125-244 | the character mode text of a put, character by character |
| Put.SpliceIsInsertion | common/put.c:125-244 | seen as one string with newlines, the file has the buffer put in at one place |
| Put.ExCopy | ex/ex_move.c:32-77 | copies the lines after the destination and puts the cursor on the last copy |
| Put.CutDeletePut | common/put.c:80-244 | cutting a range, deleting it and putting it back where it began is the identity, for every character or line range |
| Put.RoundTrip | common/put.c:34-252 | the three methods run one after the other leave the file as it was |
| Move.MoveIsPermutation | ex/ex_move.c:119-173 | a move, in either direction, keeps the lines as a multiset |
| Move.DownFollows | ex/ex_move.c:133-153 | the line numbers of a downward move follow the lines |
| Move.UpFollows | ex/ex_move.c:155-173 | and those of an upward move |
| Move.MarkFollowsLine | ex/ex_move.c:119-153 | after a downward move every mark but the previous context mark is on the line it was on, at its column, deleted only if it was |
| Move.ExMove | ex/ex_move.c:85-189 | the block is right behind the destination line and all others are in their order; an upward move is a run of appends and deletions in turn; each mark goes where its line goes, or is lost on a line moved up, at the line behind the block's old place; the previous context mark is lost with a line moved down; the records are those of the marks' old places, the moves and the new places; a destination inside the block is an error that changes nothing |
| Move.UndoMove | ex/ex_move.c:85-189 | one undo after a move puts every line back, one redo moves them again, wherever the cursor is |
| MoveMarks.UndoMoveMarks | ex/ex_move.c:105-189 | undoing a downward move puts every mark on the lines from the block to the destination back on its old line and column, and redoing it puts it on its new one |
| MoveMarks.UndoMoveOtherMarks | ex/ex_move.c:119-153 | and every mark on another line comes back just as it was |
| MoveMarks.UndoMoveUpMarks | ex/ex_move.c:155-189 | undoing an upward move brings every mark that was live back to its line and column, those the move lost as well |
| Join.JoinConservesInk | ex/ex_join.c:75-126 | the joined line without its blanks is the joined lines without theirs, in order |
| Join.ForceConcatenates | ex/ex_join.c:104-126 | with the force flag the joined line is the exact concatenation |
| Join.OneMoreJoined | ex/ex_join.c:104-126 | what one more line adds, to the character: two blanks after a full stop, question or exclamation mark (or NUL), none after a blank or before a closing parenthesis, one otherwise, and the line without its leading blanks, which only the parenthesis keeps |
| Join.FirstJoined | ex/ex_join.c:75-126 | the first line that is not empty is joined as it is |
| Join.AddFits | ex/ex_join.c:79-126 | joining a line adds at most its length and two, the space that is reserved for it |
| Join.Accumulate | ex/ex_join.c:63-152 | the loop builds that line without outgrowing its buffer, sets the column as specified, and stops at the end of the file |
| Join.CursorAtJoint | ex/ex_join.c:128-151 | the cursor is on the first blank put in before the last text joined, on the character before that text when there is none, and on the last character of a text with nothing before it |
| Join.EmptyLinesKeepColumn | ex/ex_join.c:75-77 | an empty line adds nothing to the line and leaves the cursor alone |
| Join.ExJoin | ex/ex_join.c:33-169 | the joined line replaces the range and every other line is untouched; the cursor is on that line, at that column; a range at the end of the file is an error that changes nothing |
| Global.DeleteShifts | ex/ex_global.c:268-284 | deleting a line before all pending ones moves each of them up one, for every list of ranges |
| Global.FrontMoveKeeps | ex/ex_global.c:249-316 | an insertion at line 1 and the deletion of the moved line leave the pending ranges exactly as they were |
| Global.LinesAppend | ex/ex_global.c:216-238 | starting a range adds exactly one pending line |
| Global.HitsAre | ex/ex_global.c:194-238 | the lines a global takes are those of its range that match, or for v those that do not |
| Global.HitsAscend | ex/ex_global.c:194-238 | in order |
| Global.BuildRanges | ex/ex_global.c:194-238 | the ranges hold exactly the lines that matched, in order, apart and not empty |
| Global.ExGSetup | ex/ex_global.c:62-241 | pushes one command whose pending lines are the matching ones and sets the context mark; a global within a global is refused |
| Global.LoadTakesFirst | ex/ex.c:2062-2151 | loading takes the first pending line and leaves the rest, or drops the command when none is left and goes on with those under it |
| Global.ExLoad | ex/ex.c:2062-2151 | the loop over the command stack ends, gives what the specification gives, sets the global flag for a global command only, and leaves the cursor on the loaded line or on the last edit's line of the last global discarded |
| Global.CursorAfterLoad | ex/ex.c:2075-2146 | the cursor by what is on top of the stack: the first pending line; for a finished global the line of its last edit, the last line if that is gone, or line 1 of an empty file; unchanged otherwise |
| Global.ExDelete | ex/ex_delete.c:32-62 | deletes the lines, leaves them in the default buffer, and leaves the cursor on the first line after them, or on the last line, or on line 0 of a file that is now empty |
| Global.DeletingStep | ex/ex.c:2062-2151 | one turn of a draining delete takes the next match of the original file, found at its shifted number |
| Global.GlobalDelete | ex/ex_global.c:62-316 | `:g/pat/d` leaves exactly the lines that did not match at the start, in order, for every file, pattern, range and stack of commands, and ends with the command dropped and the next of those under it loaded, their ranges adjusted for each deletion; all of it is one group of the log |
| Global.GlobalDeleteUndone | ex/ex_global.c:62-316 | one undo after it gives back the file and the log |
| Global.MovingStep | ex/ex_move.c:155-173 | one turn of a draining move puts the next match in front of the earlier ones |
| Global.GlobalMoveToFront | ex/ex_global.c:62-316 | `:g/pat/m0` puts the matching lines first, in reverse, and the others after them in order, and ends in the same way; all of it is one group of the log |
| Global.BaseStays | ex/ex.c:2081-2087 | given from the command line, either leaves the command stack as it was |
| Global.GlobalMoveUndone | ex/ex_global.c:62-316 | one undo after it gives back the file and the log |
| Global.MatchAllReverses | ex/ex_global.c:62-316 | if every line matches, the file is reversed |
| Global.ReversedAt | ex/ex_global.c:62-316 | line i of a reversed file is line i from the end |
| Global.NothingLost | ex/ex_global.c:194-238 | matching and other lines together are the file, as a multiset |
| MapTable.LessTrans | common/seq.h:20-26 | the order of the list, by keys and then by length, is transitive |
| MapTable.LessTotal | common/seq.h:20-26 | and orders any two different strings one way |
| MapTable.EnteredKeepsOrder | common/seq.c:37-124 | entering a sequence keeps first characters in order and the live entries of each type strictly sorted |
| MapTable.DroppedKeepsOrder | common/seq.c:150-159 | and so does deleting any entry |
| MapTable.EnteredBinds | common/seq.c:52-67 | entering changes what these keys of this type are bound to, as the flags say, and nothing else |
| MapTable.TableIsMap | common/seq.c:37-159 | over every run of sets, deletes and screen ends the list is ordered and binds exactly what a plain map would |
| MapTable.EMemCmp | common/seq.c:367-378 | compares as memcmp does, looking no further than the first difference |
| MapTable.SeqTable.SeqFind | common/seq.c:170-248 | an exact search finds an entry if and only if there is one; a terminal search finds the shortest entry that is a prefix of the keys, and otherwise reports a partial match if and only if some entry extends them; the stopping place is where the keys belong |
| MapTable.SeqTable.SeqSet | common/seq.c:37-124 | replaces the output or links a new entry in its place, and sets its bit |
| MapTable.SeqTable.SeqMdel | common/seq.c:150-159 | unlinks one entry and leaves its bit, so that no entry is ever hidden |
| MapTable.SeqTable.SeqDelete | common/seq.c:133-141 | deletes the entry and fails if and only if there is none |
| MapTable.SeqTable.TermEnd | cl/cl_term.c:147-160 | the walk that deletes as it goes removes exactly the screen's entries |
| MapTable.SearchIsPlain | common/seq.c:170-248 | what the early-stopping search finds is what trying every prefix of the keys, shortest first, finds |
| MapTable.SeqTable.Lookup | common/key.c:839-846 | the bitmap and the list together answer as that plain search: no mapped key is hidden |
| MapFile.DelimitedEntry | ex/ex.c:784-801 | what the delimiter loop makes of a printed entry, whatever follows |
| MapFile.ParsedHalves | ex/ex.c:1145-1195 | what the two-word parse makes of that |
| MapFile.PlainRead | ex/ex.c:784-801 | a word, one blank or tab and a text are a command up to a newline or a bar, and what follows is left |
| MapFile.QuotedDelimiter | ex/ex.c:784-801 | a ^V before a newline or a bar makes it part of the command, and goes |
| MapFile.PrintedPlain | common/seq.c:324-358 | the printer writes characters that need no quoting as they are |
| MapFile.PrintedQuoted | common/seq.c:324-358 | and a ^V before ^V, newline and bar, and before blanks of the keys |
| MapFile.EntryRoundTrip | common/seq.c:334-357 | a printed entry is read back as it was, and nothing after it is touched, if and only if its output is not empty, does not begin with a blank and does not end in ^V |
| MapFile.ReadSwallows | ex/ex.c:784-801 | an output that ends in ^V takes its newline and the next command with it |
| MapFile.FileRoundTrip | common/seq.c:324-358 | a whole saved file is read back entry by entry if and only if every output in it survives |
| MapFile.FunctionKeys | ex/ex_map.c:65-81 | a number sign and digits, and nothing else, name a function key to map; abbreviations have none |
| MapFile.RunNamed | common/seq.c:52-104 | over any run of sets by the user and the screen, deletions and screen ends, each entry is the user's or the screen's, and function keys are flagged by their names |
| MapFile.SavedTableRestored | common/seq.c:324-358 | after any such run, saving one type and reading it into any table binds every key whose entry the user entered to the same output, and leaves every other key as it was there |
| MapFile.UserMapSavedExactly | ex/ex_map.c:43-98 | what the user has just mapped is saved and restored if and only if the keys were not bound by the screen before |
| MapFile.PremappedKeyLost | cl/cl_term.c:95-128 | a key that was is in force, but not saved, and gone after the screen ends |
| MapFile.SeqSave | common/seq.c:324-358 | the printing loops write exactly the saved text |
| MapFile.Delimit | ex/ex.c:784-812 | the loop that compacts the command in place leaves the command at the front and the next one where it was, behind it, with the right lengths, and writes nowhere else |
| MapFile.ParseWords | ex/ex.c:1145-1195 | the loops that compact the words in place give the two words, or the usage error, and write within the command only |
| MapFile.ReadCommand | ex/ex.c:784-1195 | both, one after the other, on the text of a file; the text that follows is still there |
| MapFile.ReadFile | ex/ex.c:784-1195 | command after command in the one buffer, a whole file is read as specified |
| EventQueue.Queue.Grow | common/key.c:1044-1056 | growing keeps the slots and at least doubles their number |
| EventQueue.Queue.MakeRoom | common/key.c:566-589 | slack in front is used or the queue is moved up: n free slots before the queue, none of it lost |
| EventQueue.Queue.Push | common/key.c:560-607 | the items are in front of what was queued, within the array |
| EventQueue.Queue.Append | common/key.c:613-643 | the items are behind what was queued, within the array |
| EventQueue.Queue.Remove | common/key.c:646-651 | the first items are gone and an empty queue begins at slot 0 |
| EventQueue.Queue.Flush | common/key.c:1028-1038 | exactly the longest flagged run at the front goes, and it says whether there was one |
| EventQueue.SameStart | common/key.c:895-899 | the comparison, on a terminated output of any length, decides whether the output begins with the mapped keys |
| EventQueue.Queue.MapStep | common/key.c:815-944 | one decision of the mapping loop, on the queue, is the decision made with a plain search of the map, and what that comes to is stated event by event, as below |
| EventQueue.StepMeans | common/key.c:798-950 | every outcome of one decision, to the character: without an output the keys go; before the end of a count nothing happens; an interrupt loses the keys; an output that begins with its own keys hands the first of them over and flags the others; any other output is in front of the keys behind, every character flagged as mapped and not as unmappable |
| EventQueue.NoMapComesOut | common/key.c:839-843 | keys flagged not to be mapped come out as they are, whatever the maps |
| EventQueue.SelfMapDoesNotLoop | common/key.c:925-940 | a map whose output begins with its own keys hands those keys over one by one before the rest of its output is looked at |
| Search.RegExec | common/search.c:238-242 | what is assumed of the matcher: the least start at or after a column |
| Search.FSearch | common/search.c:149-275 | succeeds if and only if some match lies after the cursor or, with wrapscan, from line 1 through the cursor's line, gives the first in that order, and ends; the cursor goes to the start of the match, or to the last character of its line when the match starts behind it and the end-of-line flag is not set |
| Search.NextAfterCursor | common/search.c:166-250 | without flags the match is the nearest after the cursor, none on its line if it is at the end of that, or else the first of the file |
| Search.FromTheStart | common/search.c:166-210 | a search of the whole file gives its first match, an incremental one looks from one column before the cursor on |
| Search.BSearch | common/search.c:284-428 | the same backward: the nearest line with an acceptable start, wrapping to the last line and back to the cursor's |
| Search.NextBeforeCursor | common/search.c:300-412 | without flags the match is before the cursor on the nearest line that has one, the last of that line, or else on the last line that has any |
| Search.AtTheCursor | common/search.c:300-340 | an incremental backward search takes in the cursor |
| Search.StepAlong | common/search.c:394-413 | the walk along a line ends at its last acceptable start, short of the end of the line when there is one at the last character |
| Search.LastIsLast | common/search.c:394-420 | the cursor's column is that of the last acceptable start, except exactly when the end-of-line flag is set and one starts at the last character and one after it |
| Address.SpelledList | ex/ex.c:1636-1657 | the reference parser reads off the written list, blanks and a command behind it included: each address is what `ex_line` takes it for at the current line that the semicolons before have set (a search in `:3;/pattern/` starts at line 3), an omitted one is that line, a percent sign the whole file |
| Address.ListedIsSpelled | ex/ex.c:1636-1777 | and a text is read as a list if and only if it spells one, with a command behind it |
| Address.PercentIsFile | ex/ex.c:1680-1693 | a percent sign is line 1 and the last line, and 0 and 0 in an empty file |
| Address.TwoAddresses | ex/ex.c:1694-1735 | behind a comma the second address is read at the current line, behind a semicolon at the line of the first, which is then current; an address left out on either side is the current line |
| Address.SpelledRange | ex/ex.c:1636-1804 | the result for a written list is its last two values and the command behind it, and an error if and only if they are out of order (never in a vi address); either way the current line is the one the semicolons have set |
| Address.Step | ex/ex.c:1658-1777 | each character of the text does in the flat loop what it does in the reference parser |
| Address.ExRange | ex/ex.c:1627-1804 | two cells and one pass give the last two of the list of any length, for every text, with the same errors, current line and rest; a percent sign and a command give line 1 and the last line |

## Left out

- Allocation failures, database failures and interrupts: every such call succeeds, so the error paths for them are not there.
- The record database (recno), including its empty-file checks in `db_eget`: a sequence of lines.
- Growth of `c_buf`, `l_lp` and the join buffer: buffers are as long as needed; only the reserved length of the join buffer is kept.
- The text-input look-aside of `db_get`, `db_exist` and `db_last` (lines still being typed).
- Screen updates, messages, `rptlines` counters and the recovery file.
- `log_setline` (the U command), whose own comment records a bug.
- Editor.LogBackward: asks that the records it goes over name lines that are there, which every run keeps (`Stages.UndoNeverLost`).
- Editor.LogForward: asks the same, which redo of whole groups keeps (`Stages.RunKeeps`); leftovers behind the high-water mark that name lines that are not there are not modelled. A deletion of such a line fails and leaves by `err:`; an insertion or a set has recno fill in empty lines up to it (`db/recno/rec_put.c:148-170`), and the cached line count is wrong from then on.
- History.HistoryNavigates: goes on after a deletion that logs stale bytes only as far back as `History.StaleNavigates` says, for undoing more than that brings texts back that were never there; stops where a scan would run off the log: `Editor.LogBackward` and `Editor.LogForward` say what happens then.
- Editor.DbDelete and the other entry points ask for the line numbers their callers check; a line past the end is not modelled.
- Undo.UndoGroup: deletions after the first edit of a group are on a coherent cache, which the first edit establishes.
- GlobalDelete, GlobalMoveToFront: the nested command is run directly; the command-line parsing of the pattern and of the command is left out, and the regular expression is any predicate on lines.
- AdjustRanges: no claim that ranges track their lines in general. A deletion exactly at the start of a range moves the start too far, and the upper half of a split is shifted twice; the two global commands never get there with their own ranges, and `UnderDeletes` and `UnderMoves` say what becomes of those under them.
- Put.Put: memory is as long as needed, whatever the source reserves.
- Cut.Cut: the flags that suppress the default buffer and the memory limits are left out.
- MapTable: `name` and `nlen` are one string, and inputs are not empty, as a comment in `seq_set` asks; `seq_dump` and `seq_close` only print and free.
- MapTable.EMemCmp: stands for memcmp too, of which only the sign is used.
- MapFile: the name of the command and its flags are a fixed prefix; the special cases of the delimiter loop for other commands are left out.
- EventQueue.Queue.MapStep: the branch for the noremap option is left out: the source goes on with the event it looked up before the queue moved; whether an interrupt check is due and finds one is a parameter; reading more input is the outcome More, and maps hold no NUL.
- EventQueue: the key class `e_value` is a function of the character and is left out; events that are not characters still have a character and flags, as the union in the source has.
- Search: REG_NOTBOL and errors of the regular expression engine; the matcher is one set of starts for each line, and starts past the line never match.
- Search: the parsing of the pattern and the saved pattern in `search_init`; only its empty-file check is kept.
- Address: `ex_line` is a parameter that gives an address and how much text it takes; a session without a file is left out.
- vi commands, text input, the options, file reading and writing, filters and the curses layer.
