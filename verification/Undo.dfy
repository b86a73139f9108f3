/** What undo and redo give back, for one group of edits. */
module Undo {
  import opened Store
  import opened LogFacts

  // ----- the text relation ---------------------------------------------------------

  /** Walking recs backward takes b to a, and walking it forward takes a to b. */
  ghost predicate Linked(a: Text, recs: Log, b: Text)
    decreases |recs|
  {
    if recs == [] then a == b
    else
      var n := |recs| - 1;
      match recs[n]
      case LineAppend(l, p) => 1 <= l <= |b| && b[l - 1] == p && Linked(a, recs[..n], DeleteAt(b, l))
      case LineInsert(l, p) => 1 <= l <= |b| && b[l - 1] == p && Linked(a, recs[..n], DeleteAt(b, l))
      case LineDelete(l, p) => 1 <= l <= |b| + 1 && Linked(a, recs[..n], InsertAt(b, l, p))
      case LineResetF(l, p) =>
        && n > 0 && recs[n - 1].LineResetB? && recs[n - 1].lno == l
        && 1 <= l <= |b| && b[l - 1] == p
        && Linked(a, recs[..n - 1], b[l - 1 := recs[n - 1].line])
      case LineResetB(_, _) => false
      case _ => Linked(a, recs[..n], b)
  }

  lemma {:induction false} InsertDelete(t: Text, l: nat, p: Line)
    requires 1 <= l <= |t| + 1
    ensures DeleteAt(InsertAt(t, l, p), l) == t && InsertAt(t, l, p)[l - 1] == p
  {
  }

  lemma {:induction false} DeleteInsert(t: Text, l: nat, p: Line)
    requires 1 <= l <= |t|
    ensures InsertAt(DeleteAt(t, l), l, p) == t[l - 1 := p]
  {
  }

  lemma {:induction false} LinkedUndo(a: Text, recs: Log, d: Doc)
    requires Linked(a, recs, d.text)
    ensures UndoAll(d, recs).text == a
    decreases |recs|
  {
    if recs != [] {
      var n := |recs| - 1;
      match recs[n]
      case LineResetF(l, p) =>
        assert recs[..n][..n - 1] == recs[..n - 1];
        LinkedUndo(a, recs[..n - 1], recs[n - 1].Undo(d));
      case LineResetB(_, _) =>
      case _ =>
        LinkedUndo(a, recs[..n], recs[n].Undo(d));
    }
  }

  lemma {:induction false} LinkedRedo(d: Doc, recs: Log, b: Text)
    requires Linked(d.text, recs, b)
    ensures RedoAll(d, recs).text == b
    decreases |recs|
  {
    hide InsertAt, DeleteAt, MarksSet, MarksInsert, MarksDelete, CmdsInsDel;
    if recs != [] {
      var n := |recs| - 1;
      match recs[n]
      case LineAppend(l, p) =>
        LinkedRedo(d, recs[..n], DeleteAt(b, l));
        DeleteInsert(b, l, p);
      case LineInsert(l, p) =>
        LinkedRedo(d, recs[..n], DeleteAt(b, l));
        DeleteInsert(b, l, p);
      case LineDelete(l, p) =>
        LinkedRedo(d, recs[..n], InsertAt(b, l, p));
        InsertDelete(b, l, p);
      case LineResetF(l, p) =>
        assert recs[..n][..n - 1] == recs[..n - 1];
        LinkedRedo(d, recs[..n - 1], b[l - 1 := recs[n - 1].line]);
      case LineResetB(_, _) =>
      case _ =>
        LinkedRedo(d, recs[..n], b);
    }
  }

  lemma {:induction false} LinkedTrans(a: Text, x: Log, b: Text, y: Log, c: Text)
    requires Linked(a, x, b) && Linked(b, y, c)
    ensures Linked(a, x + y, c)
    decreases |y|
  {
    if y == [] {
      assert x + y == x;
    } else {
      var n := |y| - 1;
      assert (x + y)[..|x| + n] == x + y[..n];
      match y[n]
      case LineAppend(l, p) => LinkedTrans(a, x, b, y[..n], DeleteAt(c, l));
      case LineInsert(l, p) => LinkedTrans(a, x, b, y[..n], DeleteAt(c, l));
      case LineDelete(l, p) => LinkedTrans(a, x, b, y[..n], InsertAt(c, l, p));
      case LineResetF(l, p) =>
        assert (x + y)[..|x| + n - 1] == x + y[..n - 1];
        LinkedTrans(a, x, b, y[..n - 1], c[l - 1 := y[n - 1].line]);
      case LineResetB(_, _) =>
      case _ => LinkedTrans(a, x, b, y[..n], c);
    }
  }

  lemma {:induction false} PadEdits(b: Text, pad: Text, l: nat, p: Line)
    ensures 1 <= l <= |b| ==> DeleteAt(b, l) + pad == DeleteAt(b + pad, l)
    ensures 1 <= l <= |b| + 1 ==> InsertAt(b, l, p) + pad == InsertAt(b + pad, l, p)
    ensures 1 <= l <= |b| ==> b[l - 1 := p] + pad == (b + pad)[l - 1 := p]
    ensures 1 <= l <= |b| ==> (b + pad)[l - 1] == b[l - 1]
  {
  }

  /** Lines below everything a log touches ride along. */
  lemma {:induction false} LinkedPad(a: Text, recs: Log, b: Text, pad: Text)
    requires Linked(a, recs, b)
    ensures Linked(a + pad, recs, b + pad)
    decreases |recs|
  {
    hide DeleteAt, InsertAt;
    if recs != [] {
      var n := |recs| - 1;
      match recs[n]
      case LineAppend(l, p) =>
        LinkedPad(a, recs[..n], DeleteAt(b, l), pad);
        PadEdits(b, pad, l, p);
      case LineInsert(l, p) =>
        LinkedPad(a, recs[..n], DeleteAt(b, l), pad);
        PadEdits(b, pad, l, p);
      case LineDelete(l, p) =>
        LinkedPad(a, recs[..n], InsertAt(b, l, p), pad);
        PadEdits(b, pad, l, p);
      case LineResetF(l, p) =>
        LinkedPad(a, recs[..n - 1], b[l - 1 := recs[n - 1].line], pad);
        PadEdits(b, pad, l, recs[n - 1].line);
      case LineResetB(_, _) =>
      case _ =>
        LinkedPad(a, recs[..n], b, pad);
    }
  }

  lemma {:induction false} LinkedQuiet(a: Text, recs: Log)
    requires forall r :: r in recs ==> r.LogMark? || r.CursorInit? || r.CursorEnd?
    ensures Linked(a, recs, a)
    decreases |recs|
  {
    if recs != [] {
      assert recs[|recs| - 1] in recs;
      LinkedQuiet(a, recs[..|recs| - 1]);
    }
  }

  // ----- edits -------------------------------------------------------------------------

  /** The bytes a deletion logs are the line's. */
  ghost predicate Faithful(t: Text, e: Edit) {
    e.DeleteLine? && 1 <= e.lno <= |t| ==> e.seen == t[e.lno - 1]
  }

  /** db_set on line 1 of an empty file: log_line records an empty old line. */
  ghost predicate SetsEmpty(t: Text, e: Edit) {
    e.SetLine? && t == []
  }

  /** The text a log made of e alone says there was before it, blank lines aside. */
  ghost function Recorded(t: Text, e: Edit): Text {
    if e.DeleteLine? && 1 <= e.lno <= |t| then t[e.lno - 1 := e.seen] else t
  }

  function Blanks(n: nat): Text {
    if n == 0 then [] else [""] + Blanks(n - 1)
  }

  lemma {:induction false} BlanksAdd(m: nat, n: nat)
    ensures Blanks(m) + Blanks(n) == Blanks(m + n)
  {
    if m == 0 {
      assert [] + Blanks(n) == Blanks(n);
    } else {
      BlanksAdd(m - 1, n);
      assert ([""] + Blanks(m - 1)) + Blanks(n) == [""] + (Blanks(m - 1) + Blanks(n));
    }
  }

  lemma {:induction false} SetLinked(t: Text, l: nat, q: Line)
    requires 1 <= l <= |t| || (l == 1 && t == [])
    ensures var was := if l <= |t| then t[l - 1] else "";
            Linked(if t == [] then [""] else t, [LineResetB(l, was), LineResetF(l, q)], SetAt(t, l, q))
  {
    var was := if l <= |t| then t[l - 1] else "";
    assert [LineResetB(l, was), LineResetF(l, q)][..0] == [];
    assert SetAt(t, l, q)[l - 1 := was] == if t == [] then [""] else t;
  }

  lemma {:induction false} AddLinked(t: Text, r: Record, l: nat, q: Line)
    requires 1 <= l <= |t| + 1 && (r == LineAppend(l, q) || r == LineInsert(l, q))
    ensures Linked(t, [r], InsertAt(t, l, q))
  {
    hide DeleteAt;
    assert [r][..0] == [];
    InsertDelete(t, l, q);
  }

  lemma {:induction false} DeleteLinked(t: Text, ms: Log, l: nat, seen: Line)
    requires 1 <= l <= |t| && Linked(t[l - 1 := seen], ms, t[l - 1 := seen])
    ensures Linked(t[l - 1 := seen], ms + [LineDelete(l, seen)], DeleteAt(t, l))
  {
    hide InsertAt;
    var recs := ms + [LineDelete(l, seen)];
    assert recs[..|ms|] == ms;
    DeleteInsert(t, l, seen);
  }

  lemma {:induction false} EditLinked(d: Doc, e: Edit)
    requires e.Ok(d.text)
    ensures Linked(if SetsEmpty(d.text, e) then [""] else Recorded(d.text, e), e.Records(d), e.Apply(d).text)
  {
    hide Linked, InsertAt, DeleteAt, SetAt, MarksInsert, MarksDelete, CmdsInsDel, MarkRecords;
    match e
    case SetLine(l, q) => SetLinked(d.text, l, q);
    case AppendLine(l, q) => AddLinked(d.text, LineAppend(l + 1, q), l + 1, q);
    case InsertLine(l, q) => AddLinked(d.text, LineInsert(l, q), l, q);
    case DeleteLine(l, seen) =>
      MarkRecordsShape(d.marks, l);
      LinkedQuiet(Recorded(d.text, e), MarkRecords(d.marks, l));
      DeleteLinked(d.text, MarkRecords(d.marks, l), l, seen);
  }

  function Run(d: Doc, es: seq<Edit>): Doc
    decreases |es|
  {
    if es == [] then d else Run(es[0].Apply(d), es[1..])
  }

  function LogOf(d: Doc, es: seq<Edit>): Log
    decreases |es|
  {
    if es == [] then [] else es[0].Records(d) + LogOf(es[0].Apply(d), es[1..])
  }

  ghost predicate OkRun(d: Doc, es: seq<Edit>)
    decreases |es|
  {
    es == [] || (es[0].Ok(d.text) && OkRun(es[0].Apply(d), es[1..]))
  }

  ghost predicate FaithfulRun(d: Doc, es: seq<Edit>)
    decreases |es|
  {
    es == [] || (Faithful(d.text, es[0]) && FaithfulRun(es[0].Apply(d), es[1..]))
  }

  /** How often a run sets line 1 of an empty file. */
  ghost function EmptySets(d: Doc, es: seq<Edit>): nat
    decreases |es|
  {
    if es == [] then 0
    else (if SetsEmpty(d.text, es[0]) then 1 else 0) + EmptySets(es[0].Apply(d), es[1..])
  }

  lemma {:induction false} EditLinkedPadded(d: Doc, e: Edit, n: nat)
    requires e.Ok(d.text)
    ensures var m := if SetsEmpty(d.text, e) then 1 else 0;
            Linked(Recorded(d.text, e) + Blanks(m + n), e.Records(d), e.Apply(d).text + Blanks(n))
  {
    hide Linked;
    EditLinked(d, e);
    LinkedPad(if SetsEmpty(d.text, e) then [""] else Recorded(d.text, e), e.Records(d), e.Apply(d).text, Blanks(n));
    if SetsEmpty(d.text, e) {
      assert [] + Blanks(1 + n) == [""] + Blanks(n);
    }
  }

  /** A run logs exactly its own inverse, but for one blank line at the end of the file for
      each time it set line 1 of an empty file, and for what the first deletion saw. */
  lemma {:induction false} RunLinked(d: Doc, es: seq<Edit>)
    requires es != [] && OkRun(d, es) && FaithfulRun(es[0].Apply(d), es[1..])
    ensures Linked(Recorded(d.text, es[0]) + Blanks(EmptySets(d, es)), LogOf(d, es), Run(d, es).text)
    decreases |es|
  {
    hide Linked, Blanks, Recorded, SetsEmpty, Faithful;
    var e, rest, next := es[0], es[1..], es[0].Apply(d);
    EditLinkedPadded(d, e, EmptySets(next, rest));
    if rest == [] {
      NoBlanks(next.text);
      assert LogOf(d, es) == e.Records(d);
    } else {
      RunLinked(next, rest);
      FaithfulRecorded(next.text, rest[0]);
      LinkedTrans(Recorded(d.text, e) + Blanks(EmptySets(d, es)), e.Records(d), next.text + Blanks(EmptySets(next, rest)),
                  LogOf(next, rest), Run(d, es).text);
    }
  }

  lemma {:induction false} NoBlanks(t: Text)
    ensures t + Blanks(0) == t
  {
  }

  lemma {:induction false} FaithfulRecorded(t: Text, e: Edit)
    requires Faithful(t, e)
    ensures Recorded(t, e) == t
  {
  }

  // ----- one group of edits -----------------------------------------------------------

  function Edits(j: Journal, es: seq<Edit>): Journal
    decreases |es|
  {
    if es == [] then j else Edits(j.Edited(es[0]), es[1..])
  }

  lemma {:induction false} EditsAre(j: Journal, es: seq<Edit>)
    requires es != []
    ensures Edits(j, es) == Journal(Run(j.doc, es), j.Opened() + LogOf(j.doc, es), [], Mark(OOBLNO, j.cursor.cno))
    decreases |es|
  {
    hide Edit.Records, Edit.Apply;
    var k := j.Edited(es[0]);
    if es[1..] == [] {
      assert LogOf(j.doc, es) == es[0].Records(j.doc);
    } else {
      EditsAre(k, es[1..]);
      assert (j.Opened() + es[0].Records(j.doc)) + LogOf(k.doc, es[1..]) == j.Opened() + LogOf(j.doc, es);
    }
  }

  ghost predicate AllChanges(recs: Log) {
    forall i :: 0 <= i < |recs| ==> recs[i].IsChange()
  }

  lemma {:induction false} EditChanges(d: Doc, e: Edit)
    ensures AllChanges(e.Records(d))
  {
    var ms := MarkRecords(d.marks, e.lno);
    MarkRecordsShape(d.marks, e.lno);
    assert forall i :: 0 <= i < |ms| ==> ms[i] in ms;
  }

  lemma {:induction false} LogOfChanges(d: Doc, es: seq<Edit>)
    ensures AllChanges(LogOf(d, es))
    decreases |es|
  {
    if es != [] {
      hide Edit.Records, Edit.Apply;
      EditChanges(d, es[0]);
      LogOfChanges(es[0].Apply(d), es[1..]);
    }
  }

  lemma {:induction false} LogOfStarts(d: Doc, es: seq<Edit>)
    requires es != []
    ensures LogOf(d, es) != []
  {
    hide Edit.Records;
    RecordsStart(d, es[0]);
  }

  /** A group of records: INIT, changes, END. */
  function GroupLog(from: Mark, body: Log, to: Mark): Log {
    [CursorInit(from)] + body + [CursorEnd(to)]
  }

  lemma {:induction false} GroupFound(d: Log, from: Mark, body: Log, to: Mark, u: Log)
    requires AllChanges(body)
    ensures GroupStart(d + GroupLog(from, body, to)) == |d|
    ensures body != [] ==> RedoLength(GroupLog(from, body, to) + u) == |body| + 2
  {
    hide GroupStart, GroupLength, RedoLength;
    var g := GroupLog(from, body, to);
    if body != [] { StartsWithChange(g + u); }
    LastInitIs(d + g, |d|);
    FirstEndIs(g + u, |body| + 1);
  }

  lemma {:induction false} GroupLinked(a: Text, from: Mark, body: Log, to: Mark, b: Text)
    requires Linked(a, body, b)
    ensures Linked(a, GroupLog(from, body, to), b)
  {
    hide Linked;
    LinkedQuiet(a, [CursorInit(from)]);
    LinkedTrans(a, [CursorInit(from)], a, body, b);
    LinkedQuiet(b, [CursorEnd(to)]);
    LinkedTrans(a, [CursorInit(from)] + body, b, [CursorEnd(to)], b);
  }

  /** Records that link two texts can be replayed between them ... */
  lemma {:induction false} LinkedFits(a: Text, recs: Log, b: Text)
    requires Linked(a, recs, b)
    ensures Fits(recs, |b|) && |a| == |b| - Net(recs)
    decreases |recs|
  {
    hide InsertAt, DeleteAt;
    if recs != [] {
      var n := |recs| - 1;
      match recs[n]
      case LineAppend(l, p) => LinkedFits(a, recs[..n], DeleteAt(b, l)); Lengths(b, l, p);
      case LineInsert(l, p) => LinkedFits(a, recs[..n], DeleteAt(b, l)); Lengths(b, l, p);
      case LineDelete(l, p) => LinkedFits(a, recs[..n], InsertAt(b, l, p)); Lengths(b, l, p);
      case LineResetF(l, p) =>
        LinkedFits(a, recs[..n - 1], b[l - 1 := recs[n - 1].line]);
        assert recs[..n][..n - 1] == recs[..n - 1];
      case LineResetB(_, _) =>
      case _ => LinkedFits(a, recs[..n], b);
    }
  }

  lemma {:induction false} Lengths(t: Text, l: nat, p: Line)
    ensures 1 <= l <= |t| ==> |DeleteAt(t, l)| == |t| - 1
    ensures 1 <= l <= |t| + 1 ==> |InsertAt(t, l, p)| == |t| + 1
  {
  }

  /** ... and do not begin in the middle of a db_set. */
  lemma {:induction false} LinkedStart(a: Text, recs: Log, b: Text)
    requires Linked(a, recs, b) && recs != []
    ensures !recs[0].LineResetF?
    decreases |recs|
  {
    var n := |recs| - 1;
    if n > 0 {
      match recs[n]
      case LineAppend(l, p) => LinkedStart(a, recs[..n], DeleteAt(b, l));
      case LineInsert(l, p) => LinkedStart(a, recs[..n], DeleteAt(b, l));
      case LineDelete(l, p) => LinkedStart(a, recs[..n], InsertAt(b, l, p));
      case LineResetF(l, p) => if n > 1 { LinkedStart(a, recs[..n - 1], b[l - 1 := recs[n - 1].line]); }
      case LineResetB(_, _) =>
      case _ => LinkedStart(a, recs[..n], b);
    }
  }

  /** A log whose last INIT is followed by a change, and that links two texts from there on, is undone
      to the first of them. */
  lemma {:induction false} UndoLinked(j: Journal, d: Log, from: Mark, tail: Log, a: Text)
    requires j.done == d + ([CursorInit(from)] + tail) && tail != [] && SetsDidopBack(tail[0])
    requires forall i :: 0 <= i < |tail| ==> !tail[i].CursorInit?
    requires Linked(a, tail, j.doc.text)
    ensures Undoable(j) && j.Undone().done == d && j.Undone().doc.text == a
    ensures j.Undone().undone == ([CursorInit(from)] + tail) + j.undone && j.Undone().cursor == j.cursor
  {
    hide Linked, UndoAll, GroupStart, Fits;
    var g := [CursorInit(from)] + tail;
    LastInitIs(j.done, |d|);
    assert j.done[|d|..] == g && j.done[..|d|] == d;
    LinkedQuiet(a, [CursorInit(from)]);
    LinkedTrans(a, [CursorInit(from)], a, tail, j.doc.text);
    LinkedUndo(a, g, j.doc);
    LinkedFits(a, g, j.doc.text);
  }

  /** Undoing a group steps l_cur back onto its INIT and gives back the text before it, but
      for a blank line at the end for each db_set that met an empty file, and for what the
      first deletion saw of its line; redoing it then gives back the group's result. */
  lemma {:induction false} UndoGroup(j: Journal, es: seq<Edit>, at: Mark)
    requires j.cursor.lno != OOBLNO
    requires es != [] && OkRun(j.doc, es) && FaithfulRun(es[0].Apply(j.doc), es[1..])
    ensures var g := Edits(j, es).Closed(at);
            var u := g.Undone();
            && u.done == j.done && [CursorInit(j.cursor)] <= u.undone
            && u.doc.text == Recorded(j.doc.text, es[0]) + Blanks(EmptySets(j.doc, es))
            && u.Redone().(doc := g.doc) == g
            && u.Redone().doc.text == g.doc.text
  {
    hide Linked, Blanks, Recorded, EmptySets, LogOf, Run, Edits, UndoAll, RedoAll, GroupStart, GroupLength, RedoLength;
    var body, d := LogOf(j.doc, es), j.done;
    EditsAre(j, es);
    LogOfChanges(j.doc, es);
    LogOfStarts(j.doc, es);
    var g := Edits(j, es).Closed(at);
    var gl := GroupLog(j.cursor, body, at);
    assert g.done == d + gl;
    GroupFound(d, j.cursor, body, at, []);
    assert g.done[|d|..] == gl && g.done[..|d|] == d && gl + [] == gl;
    RunLinked(j.doc, es);
    var before := Recorded(j.doc.text, es[0]) + Blanks(EmptySets(j.doc, es));
    GroupLinked(before, j.cursor, body, at, g.doc.text);
    LinkedUndo(before, gl, g.doc);
    LinkedRedo(g.Undone().doc, gl, g.doc.text);
    assert gl[..|gl|] == gl && gl[|gl|..] == [];
  }

  /** So undo restores the text exactly when the first deletion saw its line and no db_set
      met an empty file. */
  lemma {:induction false} UndoRestoresExactly(j: Journal, es: seq<Edit>, at: Mark)
    requires j.cursor.lno != OOBLNO
    requires es != [] && OkRun(j.doc, es) && FaithfulRun(es[0].Apply(j.doc), es[1..])
    ensures Edits(j, es).Closed(at).Undone().doc.text == j.doc.text
       <==> Faithful(j.doc.text, es[0]) && EmptySets(j.doc, es) == 0
  {
    hide Linked, EmptySets, LogOf, Run, Edits, UndoAll, RedoAll, Blanks;
    UndoGroup(j, es, at);
    BlanksCount(EmptySets(j.doc, es));
    NoBlanks(Recorded(j.doc.text, es[0]));
    var n := es[0].lno;
    if !Faithful(j.doc.text, es[0]) {
      assert (Recorded(j.doc.text, es[0]) + Blanks(EmptySets(j.doc, es)))[n - 1] == es[0].seen;
    }
  }

  lemma {:induction false} BlanksCount(n: nat)
    ensures |Blanks(n)| == n
  {
    if n > 0 {
      BlanksCount(n - 1);
    }
  }

  /** The smallest failing case: setting line 1 of an empty file and undoing it leaves a
      file of one empty line. */
  lemma {:induction false} UndoLeavesBlankLine(p: Line)
    ensures var j := Journal(Doc([], [], []), [], [], Mark(1, 0));
            Edits(j, [SetLine(1, p)]).Closed(Mark(1, 0)).Undone().doc.text == [""]
  {
    var j, es := Journal(Doc([], [], []), [], [], Mark(1, 0)), [SetLine(1, p)];
    assert es[1..] == [];
    UndoGroup(j, es, Mark(1, 0));
    assert EmptySets(j.doc, es) == 1 && Blanks(1) == [""];
  }

  /** Undoing a group that is still open gives the same text, and leaves the cursor out of band. */
  lemma {:induction false} UndoOpenGroup(j: Journal, es: seq<Edit>)
    requires j.cursor.lno != OOBLNO
    requires es != [] && OkRun(j.doc, es) && FaithfulRun(es[0].Apply(j.doc), es[1..])
    ensures var u := Edits(j, es).Undone();
            && u.done == j.done && u.cursor.lno == OOBLNO
            && u.doc.text == Recorded(j.doc.text, es[0]) + Blanks(EmptySets(j.doc, es))
  {
    hide Linked, Blanks, Recorded, EmptySets, LogOf, Run, Edits, UndoAll, GroupStart;
    var body, d, init := LogOf(j.doc, es), j.done, [CursorInit(j.cursor)];
    EditsAre(j, es);
    LogOfChanges(j.doc, es);
    var g := Edits(j, es);
    assert g.done == d + (init + body);
    LastInitIs(d + (init + body), |d|);
    assert g.done[|d|..] == init + body && g.done[..|d|] == d;
    RunLinked(j.doc, es);
    var before := Recorded(j.doc.text, es[0]) + Blanks(EmptySets(j.doc, es));
    LinkedQuiet(before, init);
    LinkedTrans(before, init, before, body, g.doc.text);
    LinkedUndo(before, init + body, g.doc);
  }

  lemma {:induction false} RecordsStart(d: Doc, e: Edit)
    ensures var recs := e.Records(d);
            recs != [] && recs[0].IsChange() && SetsDidopBack(recs[0]) && SetsDidopForward(recs[|recs| - 1])
  {
    var ms := MarkRecords(d.marks, e.lno);
    MarkRecordsShape(d.marks, e.lno);
    if ms != [] { assert ms[0] in ms; }
  }
}
