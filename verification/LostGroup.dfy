/** How a group of the log gets lost: the next group has no INIT of its own, and one undo takes
    back both. */
module LostGroup {
  import opened Store
  import opened LogFacts
  import opened Undo
  import opened Commands
  import opened EditorModule
  import opened Cut
  import opened Global
  import D = Delete

  /** From a log gone astray right after a group, one undo of the next group also undoes that one. */
  lemma {:induction false} AstrayUndo(d: Log, from: Mark, body: Log, mid: Mark, base: Text, k: Journal, es: seq<Edit>, at: Mark)
    requires k.done == d + GroupLog(from, body, mid) && k.cursor.lno == OOBLNO
    requires AllChanges(body) && body != [] && Linked(base, body, k.doc.text)
    requires es != [] && OkRun(k.doc, es) && FaithfulRun(k.doc, es) && EmptySets(k.doc, es) == 0
    ensures var g := Edits(k, es).Closed(at);
            Undoable(g) && g.done != [] && g.Undone().done == d && g.Undone().doc.text == base
  {
    hide Linked, Run, LogOf, Edits, UndoAll, GroupStart, Recorded, Undoable;
    var g, log, end := Edits(k, es).Closed(at), LogOf(k.doc, es), [CursorEnd(at)];
    EditsAre(k, es);
    LogOfChanges(k.doc, es);
    RunLinked(k.doc, es);
    FaithfulRecorded(k.doc.text, es[0]);
    NoBlanks(k.doc.text);
    LinkedStart(base, body, k.doc.text);
    var one := body + [CursorEnd(mid)];
    LinkedQuiet(k.doc.text, [CursorEnd(mid)]);
    LinkedTrans(base, body, k.doc.text, [CursorEnd(mid)], k.doc.text);
    LinkedTrans(base, one, k.doc.text, log, g.doc.text);
    LinkedQuiet(g.doc.text, end);
    LinkedTrans(base, one + log, g.doc.text, end, g.doc.text);
    assert g.done == d + ([CursorInit(from)] + (one + log + end));
    UndoLinked(g, d, from, one + log + end, base);
  }

  lemma {:induction false} OneEdit(k: Journal, e: Edit)
    requires e.Ok(k.doc.text) && Faithful(k.doc.text, e) && !SetsEmpty(k.doc.text, e)
    ensures OkRun(k.doc, [e]) && FaithfulRun(k.doc, [e]) && EmptySets(k.doc, [e]) == 0
    ensures Edits(k, [e]) == k.Edited(e) && LogOf(k.doc, [e]) == e.Records(k.doc)
  {
    assert [e][1..] == [];
    assert e.Records(k.doc) + [] == e.Records(k.doc);
  }

  /** The next command closes the group, and one undo. */
  method CloseAndUndo(ed: Editor)
    requires ed.Valid() && !ed.noLog
    requires var g := ed.History().Closed(ed.at); g.done != [] && Undoable(g)
    modifies ed
    ensures ed.Valid() && !ed.noLog
    ensures var u := old(ed.History().Closed(ed.at)).Undone(); ed.Document() == u.doc && ed.done == u.done
  {
    hide Editor.Valid, Undoable, UndoAll, GroupStart, StopBack, Journal.Closed, Fits;
    ed.LogCursor();
    UndoStops(ed.History());
    var err, rp := ed.LogBackward();
  }

  /** Deleting the whole file in ex leaves the cursor on line 0, and the next command closes the group
      there; undoing the append after it brings the deleted line back too. */
  method DeleteAllThenAppend() returns (before: Text, after: Text)
    ensures before == [] && after == ["a"]
  {
    hide Editor.Valid, Editor.Coherent, Linked, LogOf, Edits, Undoable, Journal.Undone, Edit.Records, Edit.Apply,
         DefaultBuffer, D.WithoutLines, CmdsInsDel;
    var ed := new Editor(["a"]);
    var bufs := new Buffers();
    ghost var a := ed.History();
    ghost var es := ExDelete(ed, bufs, 1, 1);
    ghost var b, mid := ed.History(), ed.at;
    WholeFile(["a"]);
    assert mid.lno == OOBLNO;
    OneEdit(a, es[0]);
    ReachedSpelled(a, b, es, false);
    ed.LogCursor();
    before := ed.db;
    ghost var k, e := ed.History(), AppendLine(0, "b");
    ed.DbAppend(0, "b");
    OneEdit(k, e);
    AstrayUndo([], Mark(1, 0), LogOf(a.doc, es), mid, ["a"], k, [e], ed.at);
    CloseAndUndo(ed);
    after := ed.db;
  }

  lemma {:induction false} WholeFile(t: Text)
    requires t != []
    ensures D.WithoutLines(t, 1, |t|) == []
  {
  }

  /** One db_set as a group that is still open. */
  lemma {:induction false} OneSet(j: Journal, p: Line)
    requires j.cursor.lno != OOBLNO && j.doc.text != []
    ensures var g := j.Edited(SetLine(1, p));
            && Undoable(g) && g.done != [] && g.cursor.lno == OOBLNO
            && g.Undone().done == j.done && g.Undone().doc.text == j.doc.text && g.Undone().cursor == g.cursor
  {
    hide Linked, Undoable, Journal.Undone, Edit.Records, SetAt;
    var e := SetLine(1, p);
    EditLinked(j.doc, e);
    EditChanges(j.doc, e);
    RecordsStart(j.doc, e);
    LinkedStart(j.doc.text, e.Records(j.doc), e.Apply(j.doc).text);
    assert j.Edited(e).done == j.done + ([CursorInit(j.cursor)] + e.Records(j.doc));
    UndoLinked(j.Edited(e), j.done, j.cursor, e.Records(j.doc), j.doc.text);
  }

  /** A line set and undone with no log_cursor in between: the text and the log are back, but not the
      cursor. */
  method SetAndUndo(ed: Editor, p: Line)
    requires ed.Valid() && !ed.noLog && ed.lCursor.lno != OOBLNO && ed.db != []
    modifies ed
    ensures ed.Valid() && !ed.noLog && ed.lCursor.lno == OOBLNO
    ensures ed.db == old(ed.db) && ed.done == old(ed.done) && ed.at == old(ed.at)
  {
    hide Editor.Valid, Editor.Coherent, Undoable, Journal.Edited, UndoAll, StopBack, GroupStart, Fits;
    OneSet(ed.History(), p);
    ed.DbSet(1, p);
    UndoStops(ed.History());
    var err, rp := ed.LogBackward();
  }

  /** An undo inside a global command finds its group open. The edit after it is undone together with
      the command before the global. */
  method UndoInsideGlobal() returns (before: Text, after: Text)
    ensures before == ["b"] && after == ["a"]
  {
    hide Editor.Valid, Editor.Coherent, Linked, LogOf, Edits, Undoable, Journal.Undone, Edit.Records;
    var ed := new Editor(["a"]);
    ghost var a, e0 := ed.History(), SetLine(1, "b");
    ed.DbSet(1, "b");
    ghost var body, mid := e0.Records(a.doc), ed.at;
    EditLinked(a.doc, e0);
    EditChanges(a.doc, e0);
    RecordsStart(a.doc, e0);
    ed.LogCursor();
    before := ed.db;
    SetAndUndo(ed, "c");
    ghost var k, e := ed.History(), SetLine(1, "d");
    assert k.done == [] + GroupLog(Mark(1, 0), body, mid);
    ed.DbSet(1, "d");
    OneEdit(k, e);
    AstrayUndo([], Mark(1, 0), body, mid, ["a"], k, [e], ed.at);
    CloseAndUndo(ed);
    after := ed.db;
  }

  /** A close on a line puts the cursor back in band: the lone END it writes is all that is left of the lost
      group, and the edits after it are undone by themselves. */
  lemma {:induction false} ClosedAgain(k: Journal, mid: Mark, es: seq<Edit>, at: Mark)
    requires k.cursor.lno == OOBLNO && mid.lno != OOBLNO
    requires es != [] && OkRun(k.doc, es) && FaithfulRun(k.doc, es) && EmptySets(k.doc, es) == 0
    ensures var u := Edits(k.Closed(mid), es).Closed(at).Undone();
            u.doc.text == k.doc.text && u.done == k.done + [CursorEnd(mid)] && u.cursor == at
  {
    hide Run, LogOf, Edits, UndoAll, GroupStart, Recorded, EmptySets, Blanks, RedoAll, RedoLength, Journal.Redone;
    UndoGroup(k.Closed(mid), es, at);
    FaithfulRecorded(k.doc.text, es[0]);
    NoBlanks(k.doc.text);
    EndsOutOfBand(k.Closed(mid), es);
  }

  lemma {:induction false} EndsOutOfBand(j: Journal, es: seq<Edit>)
    requires es != []
    ensures Edits(j, es).cursor.lno == OOBLNO
  {
    hide Run, LogOf;
    EditsAre(j, es);
  }

  /** The log of one line set in a file of one line. */
  lemma {:induction false} SetRecords(was: Line, p: Line, c: Mark)
    ensures var rest, back := [CursorInit(c), LineResetB(1, was), LineResetF(1, p)], [LineResetB(1, was), LineResetF(1, p)];
            && ForwardTo(rest) == 3 && Ahead(rest) == back && Net(back) == 0 && Fits(back, 1)
            && forall d: Doc :: d.text == [was] ==> RedoAll(d, back).text == [p]
  {
    hide Fits, Net, RedoAll;
    var rest, back := [CursorInit(c), LineResetB(1, was), LineResetF(1, p)], [LineResetB(1, was), LineResetF(1, p)];
    Pair(back[0], back[1], Between, 1);
    assert StopForward(rest, 2, false) == StopForward(rest, 3, true) == 3;
    forall d: Doc | d.text == [was] ensures RedoAll(d, back).text == [p] {
      assert [back[0]] + [back[1]] == back && [] + [back[0]] == [back[0]];
      RedoStep(d, [back[0]], back[1]);
      RedoStep(d, [], back[0]);
      RedoNothing(d);
    }
  }

  /** A line set and undone twice with no log_cursor in between: the second undo redoes the change, finds no
      END, and loses the log. */
  method RedoPastLog() returns (after: Text, logging: bool)
    ensures after == ["b"] && !logging
  {
    hide Editor.Valid, Editor.Coherent, Undoable, UndoAll, RedoAll, Fits, Net, Ahead, StopForward, ForwardTo, StopBack;
    var ed := new Editor(["a"]);
    ghost var c := ed.lCursor;
    SetAndUndoOnce(ed, "a", "b");
    SetRecords("a", "b", c);
    var err, rp := ed.LogForward();
    after, logging := ed.db, !ed.noLog;
  }

  method SetOnce(ed: Editor, was: Line, p: Line)
    requires ed.Valid() && !ed.noLog && ed.lCursor.lno != OOBLNO && ed.db == [was] && ed.log == [] && ed.done == []
    modifies ed
    ensures ed.Valid() && !ed.noLog && ed.History() == old(ed.History()).Edited(SetLine(1, p))
    ensures ed.lCur == ed.lHigh == 4 && ed.done == ed.log
    ensures ed.log == [CursorInit(old(ed.lCursor)), LineResetB(1, was), LineResetF(1, p)]
  {
    hide Editor.Coherent, Sorted, Tail;
    ed.DbSet(1, p);
  }

  method SetAndUndoOnce(ed: Editor, was: Line, p: Line)
    requires ed.Valid() && !ed.noLog && ed.lCursor.lno != OOBLNO && ed.db == [was] && ed.log == [] && ed.done == []
    modifies ed
    ensures ed.Valid() && !ed.noLog && ed.lCursor.lno == OOBLNO && ed.db == [was] && ed.done == []
    ensures ed.lCur == 1 && ed.lHigh == 4 && ed.log == [CursorInit(old(ed.lCursor)), LineResetB(1, was), LineResetF(1, p)]
  {
    hide Editor.Valid, Editor.Coherent, Undoable, Journal.Edited, UndoAll, StopBack, GroupStart, Fits;
    OneSet(ed.History(), p);
    SetOnce(ed, was, p);
    UndoStops(ed.History());
    var err, rp := ed.LogBackward();
  }

  /** A line set and undone with no log_cursor in between, and set again: with no group before, the undo of
      that runs off the log and loses it. */
  method UndoPastLog() returns (after: Text, logging: bool)
    ensures after == ["a"] && !logging
  {
    hide Editor.Valid, Editor.Coherent, Undoable, UndoAll, Fits, StopBack, Walked;
    var ed := new Editor(["a"]);
    SetAndUndoOnce(ed, "a", "b");
    ed.DbSet(1, "c");
    ed.LogCursor();
    SetAgainRecords(ed.done, ed.at);
    var err, rp := ed.LogBackward();
    after, logging := ed.db, !ed.noLog;
  }

  lemma {:induction false} SetAgainRecords(log: Log, at: Mark)
    requires log == [LineResetB(1, "a"), LineResetF(1, "c"), CursorEnd(at)]
    ensures StopBack(log, false) == None && Walked(log) == log && Fits(log, 1)
    ensures forall d: Doc :: d.text == ["c"] ==> UndoAll(d, log).text == ["a"]
  {
    hide UndoAll, Fits, StopBack;
    StopBackNone(log, false);
    var pair := [LineResetB(1, "a"), LineResetF(1, "c")];
    assert log == pair + [CursorEnd(at)] && pair == [pair[0]] + [pair[1]] && [] + [pair[0]] == [pair[0]];
    Pair(pair[0], pair[1], Between, 1);
    Single(CursorEnd(at), Between, 1);
    FitsSplit(pair, [CursorEnd(at)], 1);
    forall d: Doc | d.text == ["c"] ensures UndoAll(d, log).text == ["a"] {
      UndoStep(d, pair, CursorEnd(at));
      UndoStep(d, [pair[0]], pair[1]);
      UndoStep(d, [], pair[0]);
      RedoNothing(pair[0].Undo(d));
    }
  }
}
