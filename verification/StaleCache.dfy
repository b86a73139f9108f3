/** db_insert's flush, with logging off, can leave bytes in the cache that are no longer the
    line's; the first logged deletion afterwards can put them on the log. */
module StaleCache {
  import opened Store
  import opened LogFacts
  import opened EditorModule
  import opened Undo

  /** Undo leaves a right cache right if the line count is known and the cached line is not beyond any line
      the group puts back (line 1 never is). */
  ghost predicate NotBeyond(c: Cache, recs: Log) {
    forall i :: 0 <= i < |recs| && recs[i].LineDelete? ==> c.lno <= recs[i].lno || c.lno <= 1
  }

  lemma {:induction false} UndoOneAgrees(c: Cache, d: Doc, r: Record)
    requires CacheAgrees(c, d.text) && c.nlines == |d.text| && r.InRange(|d.text|)
    requires r.LineDelete? ==> c.lno <= r.lno || c.lno <= 1
    ensures var c', t := r.UndoCache(c, d.text), r.Undo(d).text;
            && CacheAgrees(c', t) && c'.nlines == |t| && (c'.lno <= c.lno || c'.lno <= 1)
  {
    hide MarksSet, CmdsInsDel, MarksDelete, MarksInsert, InsertAt, DeleteAt, CacheInsert;
    match r
    case LineAppend(l, _) => DeletedBehind(d.text, l);
    case LineInsert(l, _) => DeletedBehind(d.text, l);
    case LineDelete(l, q) =>
      Lengths(d.text, l, q);
      Inserted(c, InsertAt(d.text, l, q), l);
    case _ =>
  }

  lemma {:induction false} DeletedBehind(t: Text, l: nat)
    requires 1 <= l <= |t|
    ensures |DeleteAt(t, l)| == |t| - 1 && forall i :: 0 <= i < l - 1 ==> DeleteAt(t, l)[i] == t[i]
  {
  }

  lemma {:induction false} UndoAgrees(c: Cache, d: Doc, recs: Log)
    requires CacheAgrees(c, d.text) && c.nlines == |d.text| && Fits(recs, |d.text|) && NotBeyond(c, recs)
    ensures CacheAgrees(CacheUndone(c, d, recs), UndoAll(d, recs).text)
    decreases |recs|
  {
    hide Record.Undo, Record.UndoCache, CacheAgrees;
    if recs != [] {
      var r, init := recs[|recs| - 1], recs[..|recs| - 1];
      UndoOneAgrees(c, d, r);
      UndoCount(d, r);
      UndoAgrees(r.UndoCache(c, d.text), r.Undo(d), init);
    }
  }

  // ----- exactly when ----------------------------------------------------------------------------

  /** The bytes that line p has once recs are undone from a text t: those a record puts there, or those of a
      line of t that comes to stand there. */
  function LineUndone(t: Text, recs: Log, p: nat): Line
    decreases |recs|
  {
    if recs == [] then if 1 <= p <= |t| then t[p - 1] else ""
    else
      match recs[0]
      case LineAppend(l, _) => LineUndone(t, recs[1..], if p >= l then p + 1 else p)
      case LineInsert(l, _) => LineUndone(t, recs[1..], if p >= l then p + 1 else p)
      case LineDelete(l, q) => if p == l then q else LineUndone(t, recs[1..], if p > l then p - 1 else p)
      case LineResetB(l, q) => if p == l then q else LineUndone(t, recs[1..], p)
      case _ => LineUndone(t, recs[1..], p)
  }

  lemma {:induction false} LineUndoneOne(d: Doc, r: Record, p: nat)
    requires r.InRange(|d.text|) && 1 <= p <= |r.Undo(d).text|
    ensures var t, u := d.text, r.Undo(d).text;
            match r
            case LineAppend(l, _) => (if p >= l then p + 1 else p) <= |t| && u[p - 1] == t[if p >= l then p else p - 1]
            case LineInsert(l, _) => (if p >= l then p + 1 else p) <= |t| && u[p - 1] == t[if p >= l then p else p - 1]
            case LineDelete(l, q) => if p == l then u[p - 1] == q
                                     else 1 <= (if p > l then p - 1 else p) <= |t|
                                          && u[p - 1] == t[if p > l then p - 2 else p - 1]
            case LineResetB(l, q) => p <= |t| && u[p - 1] == if p == l then q else t[p - 1]
            case _ => u == t
  {
    hide MarksSet, CmdsInsDel, MarksDelete, MarksInsert;
  }

  lemma {:induction false} LineUndoneIs(d: Doc, recs: Log, p: nat)
    requires Fits(recs, |d.text|) && 1 <= p <= |UndoAll(d, recs).text|
    ensures UndoAll(d, recs).text[p - 1] == LineUndone(d.text, recs, p)
    decreases |recs|
  {
    hide Record.Undo, Record.InRange, UndoAll, Fits, Net;
    if recs == [] {
      UndoNone(d);
    } else {
      var r, rest := recs[0], recs[1..];
      var mid := UndoAll(d, rest);
      assert recs == [r] + rest && [r] == [] + [r];
      FitsSplit([r], rest, |d.text|);
      Single(r, Between, |d.text| - Net(rest));
      UndoSplit(d, [r], rest);
      UndoAllCount(d, rest);
      UndoStep(mid, [], r);
      UndoNone(r.Undo(mid));
      LineUndoneOne(mid, r, p);
      match r
      case LineAppend(l, _) => LineUndoneIs(d, rest, if p >= l then p + 1 else p);
      case LineInsert(l, _) => LineUndoneIs(d, rest, if p >= l then p + 1 else p);
      case LineDelete(l, _) => if p != l { LineUndoneIs(d, rest, if p > l then p - 1 else p); }
      case LineResetB(l, _) => if p != l { LineUndoneIs(d, rest, p); }
      case _ => LineUndoneIs(d, rest, p);
    }
  }

  lemma {:induction false} UndoNone(d: Doc)
    ensures UndoAll(d, []) == d
  {
  }

  /** The numbers in the caches, and how many records were still to be undone when the cached line was read. */
  datatype Read = Read(lno: nat, nlines: nat, left: nat)

  function LineGone(s: Read, l: nat): Read {
    Read(if l <= s.lno then OOBLNO else s.lno, if s.nlines != 0 then s.nlines - 1 else 0, s.left)
  }

  function ReadOne(s: Read, n: int, r: Record, left: nat): Read {
    match r
    case LineAppend(l, _) => LineGone(s, l)
    case LineInsert(l, _) => LineGone(s, l)
    case LineDelete(l, _) =>
      var lno, nlines := if l >= s.lno then OOBLNO else s.lno, if s.nlines != 0 then s.nlines + 1 else 0;
      if nlines != 0 || lno == 2 then Read(lno, nlines, s.left)
      else if n >= 1 then Read(2, 0, left) else Read(1, 1, left)
    case LineResetB(l, _) => if l == s.lno then s.(lno := OOBLNO) else s
    case _ => s
  }

  function ReadLast(s: Read, n: int, recs: Log): Read
    decreases |recs|
  {
    if recs == [] then s
    else
      var i := |recs| - 1;
      ReadLast(ReadOne(s, n, recs[i], i), n - recs[i].Delta(), recs[..i])
  }

  /** Nothing is cached in the end, or the line with that number still has the bytes that it had when it was
      cached. The log, the text and the numbers in the caches decide it before the undo. */
  predicate StaysRight(c: Cache, t: Text, recs: Log) {
    var s := ReadLast(Read(c.lno, c.nlines, |recs|), |t|, recs);
    s.lno == OOBLNO || (s.left <= |recs| && LineUndone(t, recs, s.lno) == LineUndone(t, recs[s.left..], s.lno))
  }

  /** Part of the way: records i and up are undone, and the cached bytes are those the line had when it was read. */
  ghost predicate Reading(d: Doc, all: Log, i: nat, here: Doc, c: Cache, s: Read) {
    && i <= s.left <= |all| && c.lno == s.lno && c.nlines == s.nlines && Fits(all[..i], |here.text|)
    && here == UndoAll(d, all[i..])
    && (s.lno != OOBLNO ==>
         var then_ := UndoAll(d, all[s.left..]).text;
         s.lno <= |here.text| && s.lno <= |then_| && c.line == then_[s.lno - 1])
  }

  lemma {:induction false} ReadingStep(d: Doc, all: Log, i: nat, here: Doc, c: Cache, s: Read)
    requires i > 0 && Reading(d, all, i, here, c, s)
    ensures var r := all[i - 1];
            Reading(d, all, i - 1, r.Undo(here), r.UndoCache(c, here.text), ReadOne(s, |here.text|, r, i - 1))
  {
    hide Record.Undo, Record.UndoCache, Record.InRange, UndoAll, ReadOne;
    var r := all[i - 1];
    assert all[..i][..i - 1] == all[..i - 1] && all[i - 1..] == [r] + all[i..] && [r] == [] + [r];
    UndoSplit(d, [r], all[i..]);
    UndoStep(here, [], r);
    UndoNone(r.Undo(here));
    UndoCount(here, r);
    ReadingOne(here, r, c, s, i - 1);
  }

  /** One record: the cached line is dropped, kept where it is, or read again. */
  lemma {:induction false} ReadingOne(here: Doc, r: Record, c: Cache, s: Read, left: nat)
    requires r.InRange(|here.text|) && c.lno == s.lno && c.nlines == s.nlines && s.lno <= |here.text|
    ensures var c', s', t := r.UndoCache(c, here.text), ReadOne(s, |here.text|, r, left), r.Undo(here).text;
            && c'.lno == s'.lno && c'.nlines == s'.nlines && s'.lno <= |t| && (s'.left == s.left || s'.left == left)
            && (s'.lno != OOBLNO ==>
                 || (s'.lno == s.lno && s'.left == s.left && c'.line == c.line)
                 || (s'.left == left && c'.line == t[s'.lno - 1]))
  {
    hide MarksSet, CmdsInsDel, MarksDelete, MarksInsert, InsertAt, DeleteAt, CacheInsert;
    match r
    case LineAppend(l, _) => Lengths(here.text, l, "");
    case LineInsert(l, _) => Lengths(here.text, l, "");
    case LineDelete(l, q) =>
      Lengths(here.text, l, q);
      Inserted(c, InsertAt(here.text, l, q), l);
    case _ =>
  }

  lemma {:induction false} Inserted(c: Cache, t: Text, l: nat)
    requires t != []
    ensures var lno, nlines := if l >= c.lno then OOBLNO else c.lno, if c.nlines != 0 then c.nlines + 1 else 0;
            CacheInsert(c, t, l) == if nlines != 0 || lno == 2 then Cache(lno, c.line, nlines)
                                    else if |t| >= 2 then Cache(2, t[1], 0) else Cache(1, t[0], 1)
  {
  }

  lemma {:induction false} ReadingAll(d: Doc, all: Log, i: nat, here: Doc, c: Cache, s: Read)
    requires Reading(d, all, i, here, c, s)
    ensures Reading(d, all, 0, UndoAll(d, all), CacheUndone(c, here, all[..i]), ReadLast(s, |here.text|, all[..i]))
    decreases i
  {
    hide Reading, Record.Undo, Record.UndoCache, ReadOne;
    ReadingIs(d, all, i, here, c, s);
    if i == 0 {
      assert all[0..] == all;
    } else {
      var r := all[i - 1];
      ReadingStep(d, all, i, here, c, s);
      UndoCount(here, r);
      assert all[..i][..i - 1] == all[..i - 1] && all[..i][i - 1] == r;
      ReadingAll(d, all, i - 1, r.Undo(here), r.UndoCache(c, here.text), ReadOne(s, |here.text|, r, i - 1));
    }
  }

  lemma {:induction false} ReadingIs(d: Doc, all: Log, i: nat, here: Doc, c: Cache, s: Read)
    requires Reading(d, all, i, here, c, s)
    ensures i <= |all| && here == UndoAll(d, all[i..]) && (i > 0 ==> all[i - 1].InRange(|here.text|))
  {
    hide UndoAll, Record.InRange;
  }

  /** Undoing any records leaves a right cache right if and only if that holds. */
  lemma {:induction false} UndoAgreesExactly(c: Cache, d: Doc, recs: Log)
    requires CacheAgrees(c, d.text) && Fits(recs, |d.text|)
    ensures CacheAgrees(CacheUndone(c, d, recs), UndoAll(d, recs).text) <==> StaysRight(c, d.text, recs)
  {
    hide UndoAll, Fits, CacheUndone, ReadLast;
    var n := |recs|;
    assert recs[n..] == [] && recs[..n] == recs;
    UndoNone(d);
    ReadingAll(d, recs, n, d, c, Read(c.lno, c.nlines, n));
    var s := ReadLast(Read(c.lno, c.nlines, n), |d.text|, recs);
    if s.lno != OOBLNO {
      LineUndoneIs(d, recs, s.lno);
      assert recs == recs[..s.left] + recs[s.left..];
      FitsSplit(recs[..s.left], recs[s.left..], |d.text|);
      LineUndoneIs(d, recs[s.left..], s.lno);
    }
  }

  /** log_backward from a right cache: when it is right afterwards, exactly, and a guard that is easy to look up. */
  method UndoLeavesCache(ed: Editor)
    requires ed.Valid() && ed.Coherent() && !ed.noLog && ed.done != [] && Undoable(ed.History())
    modifies ed
    ensures ed.Valid() && !ed.noLog
    ensures ed.Coherent() <==> old(StaysRight(ed.Caches(), ed.db, ed.done[GroupStart(ed.done)..]))
    ensures old(ed.cNlines == |ed.db| && NotBeyond(ed.Caches(), ed.done[GroupStart(ed.done)..])) ==> ed.Coherent()
    ensures ed.Document() == old(ed.History()).Undone().doc && ed.done == old(ed.History()).Undone().done
    ensures old(ed.lCur <= ed.lHigh) ==> ed.History() == old(ed.History()).Undone()
  {
    hide Editor.Valid, Editor.Coherent, NotBeyond, CacheUndone, UndoAll, CacheAgrees, GroupStart, Fits, StopBack,
         StaysRight;
    CoherentIs(ed);
    ghost var c, d, recs := ed.Caches(), ed.Document(), ed.done[GroupStart(ed.done)..];
    UndoAgreesExactly(c, d, recs);
    if ed.cNlines == |ed.db| && NotBeyond(c, recs) { UndoAgrees(c, d, recs); }
    UndoStops(ed.History());
    var err, rp := ed.LogBackward();
    CoherentIs(ed);
  }

  /** The first of three lines deleted. */
  method DeleteFirst() returns (ed: Editor)
    ensures ed.Valid() && !ed.noLog && ed.at == Mark(1, 0)
    ensures ed.History() == Fresh().Edited(DeleteLine(1, "x")).Closed(Mark(1, 0))
    ensures ed.Coherent() && fresh(ed)
  {
    hide Editor.Valid, Journal.Edited, Journal.Closed, Edit.Records, Edit.Apply;
    ed := new Editor(["x", "a", "b"]);
    ed.DbDelete(1);
    ed.LogCursor();
  }

  /** The file's last line is looked up, and its bytes with it. */
  method CacheSecond(ed: Editor)
    requires ed.Valid() && ed.db == ["a", "b"]
    modifies ed`cLno, ed`cLine, ed`cNlines
    ensures ed.Valid() && ed.cLno == 2 && ed.cNlines == 2
    ensures old(ed.Coherent()) ==> ed.cLine == "b"
  {
    hide Editor.LogInv, Sorted;
    var n := ed.DbLast();
    var found, line := ed.DbGet(2, false);
  }

  function Fresh(): Journal {
    Journal(Doc(["x", "a", "b"], [], []), [], [], Mark(1, 0))
  }

  /** Undoing that deletion moves the cached line. */
  method MakeStale() returns (ed: Editor)
    ensures ed.Valid() && !ed.noLog && ed.at == Mark(1, 0) && ed.lCursor == Mark(1, 0)
    ensures ed.db == ["x", "a", "b"] && ed.Seen(2) == "b"
    ensures ed.marks == [] && ed.done == []
    ensures fresh(ed)
  {
    hide Editor.Valid, Undoable, CacheUndone, Journal.Undone, Edit.Records, Edit.Apply, UndoAll, GroupStart, StopBack,
         Fits, Walked;
    ed := DeleteFirst();
    Deleted();
    CacheSecond(ed);
    UndoStops(ed.History());
    var err, rp := ed.LogBackward();
  }

  lemma {:induction false} Deleted()
    ensures var g, mid := Fresh().Edited(DeleteLine(1, "x")).Closed(Mark(1, 0)), Cache(2, "b", 2);
            && Undoable(g) && g.done != [] && g.doc.text == ["a", "b"]
            && g.Undone().doc == Doc(["x", "a", "b"], [], []) && g.Undone().done == [] && g.Undone().cursor == Mark(1, 0)
            && CacheUndone(mid, g.doc, g.done[GroupStart(g.done)..]) == mid.(nlines := 3)
  {
    var g := Fresh().Edited(DeleteLine(1, "x")).Closed(Mark(1, 0));
    var init, del, end := CursorInit(Mark(1, 0)), LineDelete(1, "x"), CursorEnd(Mark(1, 0));
    assert g.done == [init, del, end] && g.doc == Doc(["a", "b"], [], []);
    LastInitIs(g.done, 0);
    assert g.done[0..] == g.done && g.done[..0] == [];
    ThreeBack(init, del, end, g.doc);
    CacheThreeBack(init, del, end, g.doc, Cache(2, "b", 2));
  }

  lemma {:induction false} ThreeBack(x: Record, y: Record, z: Record, d: Doc)
    ensures UndoAll(d, [x, y, z]) == x.Undo(y.Undo(z.Undo(d)))
    ensures Fits([x, y, z], |d.text|) <==>
              var n := |d.text|; z.InRange(n) && y.InRange(n - z.Delta()) && x.InRange(n - z.Delta() - y.Delta())
  {
    hide Record.Undo, Record.InRange, Record.Delta, UndoAll, Fits, Net;
    assert [x, y] + [z] == [x, y, z] && [x] + [y] == [x, y] && [] + [x] == [x] && [x] + [y, z] == [x, y, z];
    UndoStep(d, [x, y], z);
    UndoStep(z.Undo(d), [x], y);
    UndoStep(y.Undo(z.Undo(d)), [], x);
    RedoNothing(x.Undo(y.Undo(z.Undo(d))));
    FitsSplit([x], [y, z], |d.text|);
    Pair(y, z, Between, |d.text|);
    Single(x, Between, |d.text| - z.Delta() - y.Delta());
  }

  lemma {:induction false} CacheThreeBack(x: Record, y: Record, z: Record, d: Doc, c: Cache)
    ensures CacheUndone(c, d, [x, y, z]) ==
            var d1, c1 := z.Undo(d), z.UndoCache(c, d.text);
            var d2, c2 := y.Undo(d1), y.UndoCache(c1, d1.text);
            x.UndoCache(c2, d2.text)
  {
    hide Record.Undo, Record.UndoCache, CacheUndone;
    assert [x, y] + [z] == [x, y, z] && [x] + [y] == [x, y] && [] + [x] == [x];
    var d1, c1 := z.Undo(d), z.UndoCache(c, d.text);
    var d2, c2 := y.Undo(d1), y.UndoCache(c1, d1.text);
    CacheUndoneStep(c, d, [x, y], z);
    CacheUndoneStep(c1, d1, [x], y);
    CacheUndoneStep(c2, d2, [], x);
    CacheNothing(x.UndoCache(c2, d2.text), x.Undo(d2));
  }

  /** Deleting line 2 then, and undoing that, brings back the wrong line. */
  method StaleCacheBreaksUndo() returns (before: Text, after: Text)
    ensures before == ["x", "a", "b"] && after == ["x", "b", "b"]
  {
    hide UndoAll, GroupStart, Editor.Valid, Journal.Edited, Journal.Closed, Journal.Undone, Undoable;
    var ed := MakeStale();
    before := ed.db;
    ghost var j, e := ed.History(), DeleteLine(2, "b");
    ed.DbDelete(2);
    ed.LogCursor();
    GroupOfOne(j, e, Mark(1, 0));
    UndoStops(ed.History());
    var err, rp := ed.LogBackward();
    after := ed.db;
    assert Recorded(before, e) == ["x", "b", "b"];
  }

  lemma {:induction false} GroupOfOne(j: Journal, e: Edit, at: Mark)
    requires j.cursor.lno != OOBLNO && e.Ok(j.doc.text) && !SetsEmpty(j.doc.text, e)
    ensures Undoable(j.Edited(e).Closed(at))
    ensures j.Edited(e).Closed(at).Undone().doc.text == Recorded(j.doc.text, e)
    ensures j.Edited(e).Closed(at).done != [] && j.Edited(e).Closed(at).cursor == at
  {
    hide UndoAll, RedoAll, GroupStart, GroupLength, RedoLength, Linked, Undoable, Edit.Records;
    var recs, end := e.Records(j.doc), [CursorEnd(at)];
    var g := j.Edited(e).Closed(at);
    EditLinked(j.doc, e);
    EditChanges(j.doc, e);
    RecordsStart(j.doc, e);
    LinkedStart(Recorded(j.doc.text, e), recs, g.doc.text);
    LinkedQuiet(g.doc.text, end);
    LinkedTrans(Recorded(j.doc.text, e), recs, g.doc.text, end, g.doc.text);
    assert g.done == j.done + ([CursorInit(j.cursor)] + (recs + end));
    UndoLinked(g, j.done, j.cursor, recs + end, Recorded(j.doc.text, e));
  }
}
