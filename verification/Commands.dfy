/** A command's effect as a run of line edits, so that the theorems about runs apply to it. */
module Commands {
  import opened Store
  import opened LogFacts
  import opened Undo

  /** The editor went from a to b by the edits es, each on an existing line and with its
      bytes read right; with logging on they are on the log. */
  ghost predicate Reached(a: Journal, b: Journal, es: seq<Edit>, noLog: bool) {
    && OkRun(a.doc, es) && FaithfulRun(a.doc, es) && b.doc == Run(a.doc, es)
    && if noLog || es == [] then b.done == a.done && b.undone == a.undone && b.cursor == a.cursor
       else b == Edits(a, es)
  }

  lemma {:induction false} RunSnoc(d: Doc, es: seq<Edit>, e: Edit)
    requires OkRun(d, es) && FaithfulRun(d, es)
    requires e.Ok(Run(d, es).text) && Faithful(Run(d, es).text, e)
    ensures Run(d, es + [e]) == e.Apply(Run(d, es))
    ensures OkRun(d, es + [e]) && FaithfulRun(d, es + [e])
    decreases |es|
  {
    hide Edit.Apply, Edit.Ok, Faithful;
    if es == [] {
      assert es + [e] == [e] && [e][1..] == [];
    } else {
      RunSnoc(es[0].Apply(d), es[1..], e);
      assert (es + [e])[1..] == es[1..] + [e];
    }
  }

  lemma {:induction false} EditsSnoc(j: Journal, es: seq<Edit>, e: Edit)
    ensures Edits(j, es + [e]) == Edits(j, es).Edited(e)
    decreases |es|
  {
    hide Journal.Edited;
    if es == [] {
      assert es + [e] == [e] && [e][1..] == [];
    } else {
      EditsSnoc(j.Edited(es[0]), es[1..], e);
      assert (es + [e])[1..] == es[1..] + [e];
    }
  }

  lemma {:induction false} ReachedSelf(a: Journal, noLog: bool)
    ensures Reached(a, a, [], noLog)
  {
  }

  /** One more db_ call. */
  lemma {:induction false} Extends(a: Journal, b: Journal, c: Journal, es: seq<Edit>, e: Edit, noLog: bool)
    requires Reached(a, b, es, noLog) && e.Ok(b.doc.text) && Faithful(b.doc.text, e)
    requires if noLog then c.doc == e.Apply(b.doc) && c.done == b.done && c.undone == b.undone && c.cursor == b.cursor
             else c == b.Edited(e)
    ensures Reached(a, c, es + [e], noLog)
  {
    hide Edit.Apply, Edit.Records, Run, OkRun, FaithfulRun, Edits;
    RunSnoc(a.doc, es, e);
    EditsSnoc(a, es, e);
    if es == [] {
      NoEdits(a);
    }
  }

  lemma {:induction false} NoEdits(a: Journal)
    ensures Edits(a, []) == a && Run(a.doc, []) == a.doc
  {
  }

  /** A logged command that edited anything is undone by one log_backward, marks aside: the
      text is back, but for a blank line at the end for each line set in an empty file. */
  lemma {:induction false} UndoCommand(a: Journal, b: Journal, es: seq<Edit>, at: Mark)
    requires Reached(a, b, es, false) && es != [] && a.cursor.lno != OOBLNO
    ensures var u := b.Closed(at).Undone();
            && u.done == a.done
            && u.doc.text == a.doc.text + Blanks(EmptySets(a.doc, es))
            && u.Redone().doc.text == b.doc.text
  {
    hide Edit.Apply, Edit.Ok, Edits, Run, UndoAll, RedoAll, GroupStart, GroupLength, RedoLength, EmptySets, Blanks, Recorded,
         Journal.Undone, Journal.Redone;
    UndoGroup(a, es, at);
    FaithfulRecorded(a.doc.text, es[0]);
  }

  // ----- the log through a command that also logs and moves marks ---------------------

  /** The editor went from a to b writing body into the current group, and body walks the
      text between the two. */
  ghost predicate Spelled(a: Journal, b: Journal, body: Log, noLog: bool) {
    && AllChanges(body) && Linked(a.doc.text, body, b.doc.text)
    && (noLog ==> b.done == a.done && b.undone == a.undone && b.cursor == a.cursor)
    && (!noLog ==> Written(a, b, body))
  }

  lemma {:induction false} SpelledSelf(a: Journal, noLog: bool)
    ensures Spelled(a, a, [], noLog)
  {
  }

  lemma {:induction false} SpelledEdit(a: Journal, b: Journal, c: Journal, body: Log, e: Edit, noLog: bool)
    requires Spelled(a, b, body, noLog) && e.Ok(b.doc.text) && Faithful(b.doc.text, e) && b.doc.text != []
    requires if noLog then c.doc == e.Apply(b.doc) && c.done == b.done && c.undone == b.undone && c.cursor == b.cursor
             else c == b.Edited(e)
    ensures Spelled(a, c, body + e.Records(b.doc), noLog)
  {
    hide Edit.Apply, Edit.Records, Linked;
    EditLinked(b.doc, e);
    FaithfulRecorded(b.doc.text, e);
    LinkedTrans(a.doc.text, body, b.doc.text, e.Records(b.doc), c.doc.text);
    EditChanges(b.doc, e);
    if !noLog {
      RecordsNotEmpty(b.doc, e);
      WrittenTwice(a, b, c, body, e.Records(b.doc));
    }
  }

  lemma {:induction false} RecordsNotEmpty(d: Doc, e: Edit)
    ensures e.Records(d) != []
  {
  }

  lemma {:induction false} SpelledMark(a: Journal, b: Journal, c: Journal, body: Log, lm: LMark, noLog: bool)
    requires Spelled(a, b, body, noLog) && c.doc.text == b.doc.text
    requires if noLog then c.done == b.done && c.undone == b.undone && c.cursor == b.cursor
             else Written(b, c, [LogMark(lm)])
    ensures Spelled(a, c, body + [LogMark(lm)], noLog)
  {
    hide Linked;
    LinkedQuiet(b.doc.text, [LogMark(lm)]);
    LinkedTrans(a.doc.text, body, b.doc.text, [LogMark(lm)], b.doc.text);
    if !noLog {
      WrittenTwice(a, b, c, body, [LogMark(lm)]);
    }
  }

  lemma {:induction false} SpelledDoc(a: Journal, b: Journal, c: Journal, body: Log, noLog: bool)
    requires Spelled(a, b, body, noLog) && c == b.(doc := c.doc) && c.doc.text == b.doc.text
    ensures Spelled(a, c, body, noLog)
  {
  }

  lemma {:induction false} SpelledTrans(a: Journal, b: Journal, c: Journal, x: Log, y: Log, noLog: bool)
    requires Spelled(a, b, x, noLog) && Spelled(b, c, y, noLog)
    ensures Spelled(a, c, x + y, noLog)
  {
    hide Linked;
    LinkedTrans(a.doc.text, x, b.doc.text, y, c.doc.text);
    if !noLog { WrittenTwice(a, b, c, x, y); }
  }

  /** A run of edits that set no line of an empty file spells its records. */
  lemma {:induction false} ReachedSpelled(a: Journal, b: Journal, es: seq<Edit>, noLog: bool)
    requires Reached(a, b, es, noLog) && EmptySets(a.doc, es) == 0
    ensures Spelled(a, b, LogOf(a.doc, es), noLog)
    ensures es != [] ==> LogOf(a.doc, es) != []
  {
    hide Linked, Run, Edits, Edit.Records, Edit.Apply, Recorded;
    LogOfChanges(a.doc, es);
    if es == [] {
      LinkedQuiet(a.doc.text, []);
      NoEdits(a);
    } else {
      RunLinked(a.doc, es);
      FaithfulRecorded(a.doc.text, es[0]);
      NoBlanks(a.doc.text);
      RecordsStart(a.doc, es[0]);
      if !noLog { EditsAre(a, es); }
    }
  }

  ghost predicate Deletes(es: seq<Edit>) {
    forall i :: 0 <= i < |es| ==> es[i].DeleteLine?
  }

  lemma {:induction false} NoSets(d: Doc, es: seq<Edit>)
    requires forall i :: 0 <= i < |es| ==> !es[i].SetLine?
    ensures EmptySets(d, es) == 0
    decreases |es|
  {
    hide Edit.Apply;
    if es != [] { NoSets(es[0].Apply(d), es[1..]); }
  }

  /** What one log_backward does after a command that wrote body: the text is back. */
  lemma {:induction false} UndoSpelled(a: Journal, b: Journal, body: Log, at: Mark)
    requires Spelled(a, b, body, false) && body != [] && a.cursor.lno != OOBLNO
    ensures Undoable(b.Closed(at))
    ensures var u := b.Closed(at).Undone();
            u.done == a.done && u.doc.text == a.doc.text && u.Redone().doc.text == b.doc.text
  {
    hide Linked, UndoAll, RedoAll, GroupStart, GroupLength, RedoLength, Undoable;
    var g, tail, end := b.Closed(at), body + [CursorEnd(at)], [CursorEnd(at)];
    assert g.done == a.done + ([CursorInit(a.cursor)] + tail);
    LinkedStart(a.doc.text, body, b.doc.text);
    LinkedQuiet(b.doc.text, end);
    LinkedTrans(a.doc.text, body, b.doc.text, end, b.doc.text);
    UndoLinked(g, a.done, a.cursor, tail, a.doc.text);
    var gl := GroupLog(a.cursor, body, at);
    assert gl == [CursorInit(a.cursor)] + tail && gl + [] == gl && gl[..|gl|] == gl;
    GroupFound(a.done, a.cursor, body, at, []);
    GroupLinked(a.doc.text, a.cursor, body, at, b.doc.text);
    LinkedRedo(g.Undone().doc, gl, b.doc.text);
  }
}
