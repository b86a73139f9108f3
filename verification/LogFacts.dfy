/** Laws of the log's grammar and of walking it. */
module LogFacts {
  import opened Store

  lemma {:induction false} FitsSplit(a: Log, b: Log, n: int)
    ensures Net(a + b) == Net(a) + Net(b)
    ensures Fits(a + b, n) <==> Fits(b, n) && Fits(a, n - Net(b))
    decreases |b|
  {
    if b == [] {
      assert a + b == a;
    } else {
      var k := |b| - 1;
      assert (a + b)[..|a + b| - 1] == a + b[..k];
      FitsSplit(a, b[..k], n - b[k].Delta());
    }
  }

  lemma {:induction false} FitsMore(recs: Log, n: int, m: int)
    requires Fits(recs, n) && n <= m
    ensures Fits(recs, m)
    decreases |recs|
  {
    if recs != [] {
      var k := |recs| - 1;
      FitsMore(recs[..k], n - recs[k].Delta(), m - recs[k].Delta());
    }
  }

  lemma {:induction false} PhaseSplit(p: Phase, a: Log, b: Log)
    ensures PhaseFrom(p, a + b) == PhaseFrom(PhaseFrom(p, a), b)
    decreases |b|
  {
    if b == [] {
      assert a + b == a;
    } else {
      var k := |b| - 1;
      assert (a + b)[..|a + b| - 1] == a + b[..k];
      PhaseSplit(p, a, b[..k]);
    }
  }

  lemma {:induction false} BadStays(recs: Log)
    ensures PhaseFrom(Bad, recs) == Bad
    decreases |recs|
  {
    if recs != [] {
      BadStays(recs[..|recs| - 1]);
    }
  }

  /** A prefix of a good log is good. */
  lemma {:induction false} GoodPrefix(a: Log, b: Log)
    requires PhaseOf(a + b) != Bad
    ensures PhaseOf(a) != Bad
  {
    PhaseSplit(Between, a, b);
    BadStays(b);
  }

  lemma {:induction false} UndoSplit(d: Doc, a: Log, b: Log)
    ensures UndoAll(d, a + b) == UndoAll(UndoAll(d, b), a)
    decreases |b|
  {
    if b == [] {
      assert a + b == a;
    } else {
      var k := |b| - 1;
      assert (a + b)[..|a + b| - 1] == a + b[..k];
      UndoSplit(b[k].Undo(d), a, b[..k]);
    }
  }

  lemma {:induction false} RedoSplit(d: Doc, a: Log, b: Log)
    ensures RedoAll(d, a + b) == RedoAll(RedoAll(d, a), b)
    decreases |b|
  {
    if b == [] {
      assert a + b == a;
    } else {
      var k := |b| - 1;
      assert (a + b)[..|a + b| - 1] == a + b[..k];
      RedoSplit(d, a, b[..k]);
    }
  }

  lemma {:induction false} MarkRecordsShape(ms: seq<LMark>, lno: nat)
    ensures forall r :: r in MarkRecords(ms, lno) ==> r.LogMark?
    decreases |ms|
  {
    if ms != [] {
      MarkRecordsShape(ms[..|ms| - 1], lno);
    }
  }

  lemma {:induction false} NoMarkRecords(ms: seq<LMark>, lno: nat, j: Journal)
    ensures MarkRecords(ms[..0], lno) == [] && Written(j, j, [])
  {
  }

  lemma {:induction false} MarkRecordsNext(ms: seq<LMark>, i: nat, lno: nat)
    requires i < |ms|
    ensures MarkRecords(ms[..i + 1], lno) == MarkRecords(ms[..i], lno) +
            if ms[i].lno == lno then [LogMark(ms[i].(deleted := true))] else []
  {
    assert ms[..i + 1][..i] == ms[..i];
  }

  lemma {:induction false} OnlyMarks(recs: Log, n: int, p: Phase)
    requires forall r :: r in recs ==> r.LogMark?
    ensures Net(recs) == 0 && Fits(recs, n)
    ensures p.Started? || p.Changed? ==> PhaseFrom(p, recs) == if recs == [] then p else Changed
    decreases |recs|
  {
    if recs != [] {
      assert recs[|recs| - 1] in recs;
      OnlyMarks(recs[..|recs| - 1], n, p);
    }
  }

  lemma {:induction false} LastInitIs(recs: Log, k: nat)
    requires k < |recs| && recs[k].CursorInit?
    requires forall i :: k < i < |recs| ==> !recs[i].CursorInit?
    ensures GroupStart(recs) == k
    decreases |recs|
  {
    if k < |recs| - 1 {
      LastInitIs(recs[..|recs| - 1], k);
    }
  }

  lemma {:induction false} FirstEndIs(recs: Log, k: nat)
    requires k < |recs| && recs[k].CursorEnd?
    requires forall i :: 0 <= i < k ==> !recs[i].CursorEnd?
    ensures GroupLength(recs) == k + 1
    decreases |recs|
  {
    if k > 0 {
      FirstEndIs(recs[1..], k - 1);
    }
  }

  // ----- the log invariant -----------------------------------------------------

  /** log_backward counts the group as undone once one of these went by ... */
  predicate SetsDidopBack(r: Record) {
    r.IsChange() && !r.LineResetF?
  }

  /** ... and log_forward as redone. */
  predicate SetsDidopForward(r: Record) {
    r.IsChange() && !r.LineResetB?
  }

  /** log_backward finds its way: the last INIT below l_cur has a change after it, and the records
      from it on name lines that are there. */
  ghost predicate Undoable(j: Journal) {
    var k := GroupStart(j.done);
    j.done == [] ||
    (k + 1 < |j.done| && j.done[k].CursorInit? && SetsDidopBack(j.done[k + 1]) && Fits(j.done[k..], |j.doc.text|))
  }

  /** log_forward finds its way: the record at l_cur, which it skips, is no change, and an END comes after
      the next changes, which name lines that will be there. */
  ghost predicate Redoable(j: Journal) {
    var k := RedoLength(j.undone);
    j.undone == [] ||
    (2 < k && !j.undone[0].IsChange() && j.undone[k - 1].CursorEnd? && SetsDidopForward(j.undone[k - 2])
     && Fits(j.undone[..k], |j.doc.text| + Net(j.undone[..k])))
  }

  /** The log still parses, but the cursor is out of band with no group open: the next record goes
      on the log as if one were. */
  ghost predicate Astray(j: Journal) {
    && j.cursor.lno == OOBLNO && PhaseOf(j.done) == Between
    && (PhaseOf(j.done + j.undone) == Between || PhaseOf(j.done + j.undone) == Changed)
    && Fits(j.done + j.undone, |j.doc.text| + Net(j.undone))
  }

  /** The records below l_cur, and all of them, parse. */
  ghost predicate Parses(j: Journal) {
    PhaseOf(j.done) != Bad && PhaseOf(j.done + j.undone) != Bad
  }

  /** The log parses as groups, the last one open while the cursor is out of band, and
      every record on it names a line that is there when replay reaches it. */
  ghost predicate Replayable(j: Journal) {
    && (if j.cursor.lno == OOBLNO then j.undone == [] && PhaseOf(j.done) == Changed
        else PhaseOf(j.done) == Between && PhaseOf(j.done + j.undone) == Between)
    && Fits(j.done + j.undone, |j.doc.text| + Net(j.undone))
  }

  /** The log went from a to b by writing recs into the current group. */
  ghost predicate Written(a: Journal, b: Journal, recs: Log) {
    if recs == [] then b.done == a.done && b.undone == a.undone && b.cursor == a.cursor
    else b.done == a.Opened() + recs && b.undone == [] && b.cursor == Mark(OOBLNO, a.cursor.cno)
  }

  lemma {:induction false} WrittenTwice(a: Journal, b: Journal, c: Journal, r: Log, s: Log)
    requires Written(a, b, r) && Written(b, c, s)
    ensures Written(a, c, r + s)
  {
    if r == [] {
      assert r + s == s;
    } else if s == [] {
      assert r + s == r;
    } else {
      assert (a.Opened() + r) + s == a.Opened() + (r + s);
    }
  }

  lemma {:induction false} Single(r: Record, p: Phase, n: int)
    ensures PhaseFrom(p, [r]) == Next(p, r)
    ensures Net([r]) == r.Delta()
    ensures Fits([r], n) <==> r.InRange(n)
  {
    assert [r][..0] == [];
  }

  lemma {:induction false} Pair(r: Record, s: Record, p: Phase, n: int)
    ensures PhaseFrom(p, [r, s]) == Next(Next(p, r), s)
    ensures Net([r, s]) == r.Delta() + s.Delta()
    ensures Fits([r, s], n) <==> s.InRange(n) && r.InRange(n - s.Delta())
  {
    assert [r, s][..1] == [r];
    Single(r, p, n - s.Delta());
  }

  lemma {:induction false} MarksThen(ms: seq<LMark>, lno: nat, r: Record, p: Phase, n: int)
    ensures var recs := MarkRecords(ms, lno) + [r];
            && (p.Started? || p.Changed? ==> PhaseFrom(p, recs) == Next(if |recs| == 1 then p else Changed, r))
            && Net(recs) == r.Delta()
            && (Fits(recs, n) <==> r.InRange(n))
  {
    hide PhaseFrom, Fits, Net, MarkRecords;
    var m := MarkRecords(ms, lno);
    MarkRecordsShape(ms, lno);
    OnlyMarks(m, n - r.Delta(), p);
    Single(r, PhaseFrom(p, m), n);
    PhaseSplit(p, m, [r]);
    FitsSplit(m, [r], n);
  }

  /** In a group, the records of an edit stay inside the group; walking back over them from
      the result lands on the lines before it (a line set in an empty file counts as one
      that was there). */
  lemma {:induction false} EditRecords(d: Doc, e: Edit, p: Phase)
    requires e.Ok(d.text)
    requires p.Started? || p.Changed?
    ensures PhaseFrom(p, e.Records(d)) == Changed
    ensures var n := |e.Apply(d).text|;
            && Fits(e.Records(d), n)
            && n - Net(e.Records(d)) == if e.SetLine? && d.text == [] then 1 else |d.text|
  {
    hide PhaseFrom, Fits, Net, MarkRecords, Edit.Apply;
    var n := |e.Apply(d).text|;
    ApplyCounts(d, e);
    match e
    case SetLine(l, q) =>
      Pair(LineResetB(l, if 1 <= l <= |d.text| then d.text[l - 1] else ""), LineResetF(l, q), p, n);
    case AppendLine(l, q) => Single(LineAppend(l + 1, q), p, n);
    case InsertLine(l, q) => Single(LineInsert(l, q), p, n);
    case DeleteLine(l, seen) => MarksThen(d.marks, l, LineDelete(l, seen), p, n);
  }

  lemma {:induction false} ApplyCounts(d: Doc, e: Edit)
    requires e.Ok(d.text)
    ensures |e.Apply(d).text| ==
            match e
            case SetLine(_, _) => if d.text == [] then 1 else |d.text|
            case AppendLine(_, _) => |d.text| + 1
            case InsertLine(_, _) => |d.text| + 1
            case DeleteLine(_, _) => |d.text| - 1
  {
    hide MarksDelete, MarksInsert, CmdsInsDel;
  }

  lemma {:induction false} Extended(base: Log, recs: Log, lines: nat, n: nat)
    requires Fits(base, lines) && Fits(recs, n) && lines <= n - Net(recs)
    requires PhaseFrom(PhaseOf(base), recs) == Changed
    ensures PhaseOf(base + recs) == Changed && Fits(base + recs, n)
  {
    hide PhaseFrom, Fits, Net;
    PhaseSplit(Between, base, recs);
    FitsMore(base, lines, n - Net(recs));
    FitsSplit(base, recs, n);
  }

  /** A logged edit keeps the log replayable: it drops the redo tail and extends the
      current group, opening one if none is open. */
  lemma {:induction false} EditKeepsReplayable(j: Journal, e: Edit)
    requires Replayable(j) && e.Ok(j.doc.text)
    ensures Replayable(j.Edited(e))
  {
    hide PhaseFrom, Fits, Replayable, Edit.Records;
    OpenedIs(j);
    EditRecords(j.doc, e, PhaseOf(j.Opened()));
    Extended(j.Opened(), e.Records(j.doc), |j.doc.text|, |e.Apply(j.doc).text|);
    InOpenGroup(j.Edited(e));
  }

  lemma {:induction false} InOpenGroup(j: Journal)
    requires j.cursor.lno == OOBLNO && j.undone == []
    requires PhaseOf(j.done) == Changed && Fits(j.done, |j.doc.text|)
    ensures Replayable(j)
  {
    hide PhaseFrom, Fits;
    assert j.done + j.undone == j.done;
  }

  lemma {:induction false} OpenedIs(j: Journal)
    requires Replayable(j)
    ensures PhaseOf(j.Opened()).Started? || PhaseOf(j.Opened()).Changed?
    ensures Fits(j.Opened(), |j.doc.text|)
    ensures Net([]) == 0
  {
    hide PhaseFrom, Fits;
    var c := CursorInit(j.cursor);
    FitsSplit(j.done, j.undone, |j.doc.text| + Net(j.undone));
    Single(c, Between, |j.doc.text|);
    PhaseSplit(Between, j.done, [c]);
    FitsSplit(j.done, [c], |j.doc.text|);
  }

  /** Closed or open, a close leaves whole groups that can be replayed. */
  lemma {:induction false} CloseShape(j: Journal, at: Mark)
    requires Replayable(j)
    ensures var k := j.Closed(at);
            && k.cursor == at && PhaseOf(k.done) == Between && PhaseOf(k.done + k.undone) == Between
            && Fits(k.done + k.undone, |k.doc.text| + Net(k.undone))
  {
    hide PhaseFrom, Fits;
    if j.cursor.lno == OOBLNO {
      var k, c := j.Closed(at), CursorEnd(at);
      Single(c, Changed, |j.doc.text|);
      assert j.done + j.undone == j.done;
      assert k.done + k.undone == j.done + [c];
      PhaseSplit(Between, j.done, [c]);
      FitsSplit(j.done, [c], |j.doc.text|);
    }
  }

  // ----- what the calls wrote is what the edit logs ---------------------------------

  /** Here a is the journal on entry, b on return, and the calls of log_mark and log_line
      in between saw it as m, n, ... with the log in the same state. */
  lemma {:induction false} AppendLogged(a: Journal, m: Journal, n: Journal, b: Journal, lno: nat, p: Line)
    requires m == a.(doc := m.doc) && b == n.(doc := b.doc) && b.doc == DocInsert(a.doc, lno + 1, p)
    requires Written(m, n, [LineAppend(lno + 1, p)])
    ensures b == a.Edited(AppendLine(lno, p))
  {
    hide DocInsert;
  }

  lemma {:induction false} InsertLogged(a: Journal, m: Journal, n: Journal, b: Journal, lno: nat, p: Line)
    requires m == a.(doc := m.doc) && b == n.(doc := b.doc) && b.doc == DocInsert(a.doc, lno, p)
    requires Written(m, n, [LineInsert(lno, p)])
    ensures b == a.Edited(InsertLine(lno, p))
  {
    hide DocInsert;
  }

  lemma {:induction false} DeleteLogged(a: Journal, m: Journal, n: Journal, o: Journal, b: Journal, lno: nat, seen: Line)
    requires n == m.(doc := n.doc) && b == o.(doc := b.doc) && b.doc == DocDelete(a.doc, lno)
    requires Written(a, m, MarkRecords(a.doc.marks, lno)) && Written(n, o, [LineDelete(lno, seen)])
    ensures b == a.Edited(DeleteLine(lno, seen))
  {
    hide DocDelete, MarkRecords;
    WrittenTwice(a, m, o, MarkRecords(a.doc.marks, lno), [LineDelete(lno, seen)]);
    assert MarkRecords(a.doc.marks, lno) + [LineDelete(lno, seen)] != [];
  }

  lemma {:induction false} SetLogged(a: Journal, m: Journal, n: Journal, b: Journal, lno: nat, was: Line, p: Line)
    requires was == if 1 <= lno <= |a.doc.text| then a.doc.text[lno - 1] else ""
    requires n == m.(doc := n.doc) && b.doc == DocSet(a.doc, lno, p)
    requires Written(a, m, [LineResetB(lno, was)]) && Written(n, b, [LineResetF(lno, p)])
    ensures b == a.Edited(SetLine(lno, p))
  {
    hide DocSet;
    WrittenTwice(a, m, b, [LineResetB(lno, was)], [LineResetF(lno, p)]);
  }

  // ----- walking a group ---------------------------------------------------------------

  lemma {:induction false} GroupStartIsLast(d: Log)
    ensures forall i :: GroupStart(d) < i < |d| ==> !d[i].CursorInit?
    ensures d != [] && !d[GroupStart(d)].CursorInit? ==> GroupStart(d) == 0
    decreases |d|
  {
    if d != [] && !d[|d| - 1].CursorInit? {
      GroupStartIsLast(d[..|d| - 1]);
    }
  }

  lemma {:induction false} GroupLengthIsFirst(u: Log)
    ensures forall i :: 0 <= i < GroupLength(u) - 1 ==> !u[i].CursorEnd?
    ensures u != [] && !u[GroupLength(u) - 1].CursorEnd? ==> GroupLength(u) == |u|
    decreases |u|
  {
    if u != [] && !u[0].CursorEnd? {
      GroupLengthIsFirst(u[1..]);
    }
  }

  /** Reading the automaton at position i of a good log. */
  lemma {:induction false} PhaseStep(d: Log, i: nat)
    requires i < |d| && PhaseOf(d) != Bad
    ensures PhaseOf(d[..i + 1]) == Next(PhaseOf(d[..i]), d[i]) != Bad
  {
    GoodPrefix(d[..i + 1], d[i + 1..]) by { assert d[..i + 1] + d[i + 1..] == d; }
    assert d[..i + 1][..i] == d[..i];
  }

  /** No log prefix starts a phase inside a group. */
  lemma {:induction false} FirstIsInit(d: Log, u: Log)
    requires PhaseOf(d) == Between && PhaseOf(d + u) != Bad && u != []
    ensures u[0].CursorInit?
  {
    PhaseStep(d + u, |d|);
    assert (d + u)[..|d|] == d;
  }

  /** A log that parses has an INIT at the start of its last group. */
  lemma {:induction false} StartIsInit(d: Log)
    requires d != [] && PhaseOf(d) != Bad
    ensures d[GroupStart(d)].CursorInit?
  {
    hide PhaseFrom, GroupStart;
    GroupStartIsLast(d);
    EmptyIsBetween();
    assert [] + d == d;
    FirstIsInit([], d);
  }

  /** log_backward from a group boundary or from inside a group: the scan meets INIT at the group's
      start, right after a change. */
  lemma {:induction false} GroupBehind(d: Log)
    requires d != [] && (PhaseOf(d) == Between || PhaseOf(d) == Changed)
    ensures var k := GroupStart(d);
            && k + 1 < |d| && d[k].CursorInit? && PhaseOf(d[..k]) == Between && SetsDidopBack(d[k + 1])
  {
    hide PhaseFrom, GroupStart;
    var k := GroupStart(d);
    StartIsInit(d);
    PhaseStep(d, k);
    assert d[..|d|] == d;
    PhaseStep(d, k + 1);
  }

  lemma {:induction false} EmptyIsBetween()
    ensures PhaseOf([]) == Between
  {
  }

  /** From a started group on, only END gets the automaton out of it. */
  lemma {:induction false} StaysInGroup(p: Phase, u: Log)
    requires PhaseFrom(p, u) != Bad && p != Between && p != Bad
    requires forall i :: 0 <= i < |u| ==> !u[i].CursorEnd?
    ensures PhaseFrom(p, u) != Between
    decreases |u|
  {
    if u != [] {
      if PhaseFrom(p, u[..|u| - 1]) != Bad {
        StaysInGroup(p, u[..|u| - 1]);
      }
    }
  }

  lemma {:induction false} NoEndStaysInGroup(d: Log, u: Log)
    requires u != [] && PhaseOf(d) == Between && PhaseOf(d + u) != Bad
    requires forall i :: 0 <= i < |u| ==> !u[i].CursorEnd?
    ensures PhaseOf(d + u) != Between
  {
    hide PhaseFrom;
    PhaseStepAt(d, u, 0);
    assert d + u == (d + u[..1]) + u[1..];
    PhaseSplit(Between, d + u[..1], u[1..]);
    assert d + u[..0] == d;
    StaysInGroup(PhaseOf(d + u[..1]), u[1..]);
  }

  lemma {:induction false} PhaseStepAt(d: Log, u: Log, i: nat)
    requires i < |u| && PhaseOf(d + u) != Bad
    ensures PhaseOf(d + u[..i + 1]) == Next(PhaseOf(d + u[..i]), u[i]) != Bad
  {
    hide PhaseFrom;
    PhaseStep(d + u, |d| + i);
    assert (d + u)[..|d| + i] == d + u[..i];
    assert (d + u)[..|d| + i + 1] == d + u[..i + 1];
  }

  ghost predicate HasEnd(u: Log) {
    GroupLength(u) > 0 && u[GroupLength(u) - 1].CursorEnd?
  }

  /** log_forward from a group boundary: the scan skips INIT and meets END at the group's
      end, right after a change. */
  lemma {:induction false} GroupAhead(d: Log, u: Log)
    requires u != [] && PhaseOf(d) == Between && PhaseOf(d + u) != Bad
    requires PhaseOf(d + u) == Between || HasEnd(u)
    ensures var k := GroupLength(u);
            && 2 < k == RedoLength(u) && u[0].CursorInit? && u[k - 1].CursorEnd? && SetsDidopForward(u[k - 2])
            && PhaseOf(d + u[..k]) == Between
  {
    hide PhaseFrom;
    var k := GroupLength(u);
    GroupLengthIsFirst(u);
    FirstIsInit(d, u);
    if !u[k - 1].CursorEnd? {
      NoEndStaysInGroup(d, u);
    }
    PhaseStepAt(d, u, k - 1);
    PhaseStepAt(d, u, k - 2);
    PhaseStepAt(d, u, 0);
    PhaseStepAt(d, u, 1);
    assert d + u[..0] == d;
    StartsWithChange(u);
  }

  lemma {:induction false} StartsWithChange(u: Log)
    requires |u| > 1 && u[0].CursorInit? && u[1].IsChange()
    ensures RedoLength(u) == GroupLength(u)
  {
    assert u[1..][0] == u[1];
  }

  /** One record further back, the log still fits. */
  lemma {:induction false} FitsBack(d: Log, r: Record, u: Log, n: int)
    requires Fits(d + ([r] + u), n + Net(u))
    ensures r.InRange(n)
    ensures (n - r.Delta()) + Net([r] + u) == n + Net(u)
  {
    hide Fits, Net;
    assert d + ([r] + u) == (d + [r]) + u;
    Single(r, Between, n);
    FitsSplit(d + [r], u, n + Net(u));
    FitsSplit(d, [r], n);
    FitsSplit([r], u, n);
  }

  /** One record further on, the log still fits. */
  lemma {:induction false} FitsForward(d: Log, r: Record, u: Log, n: int)
    requires Fits(d + ([r] + u), n + Net([r] + u))
    ensures r.InRange(n + r.Delta())
    ensures d + ([r] + u) == (d + [r]) + u
    ensures (n + r.Delta()) + Net(u) == n + Net([r] + u)
  {
    hide Fits, Net;
    Single(r, Between, n);
    FitsSplit([r], u, n);
    FitsBack(d, r, u, n + r.Delta());
  }

  lemma {:induction false} UndoCount(d: Doc, r: Record)
    requires r.InRange(|d.text|)
    ensures |r.Undo(d).text| == |d.text| - r.Delta()
  {
  }

  lemma {:induction false} RedoCount(d: Doc, r: Record)
    requires r.InRange(|d.text| + r.Delta())
    ensures |r.Redo(d).text| == |d.text| + r.Delta()
  {
  }

  lemma {:induction false} UndoStep(d: Doc, recs: Log, r: Record)
    ensures UndoAll(d, recs + [r]) == UndoAll(r.Undo(d), recs)
  {
    assert (recs + [r])[..|recs|] == recs;
  }

  lemma {:induction false} RedoStep(d: Doc, recs: Log, r: Record)
    ensures RedoAll(d, recs + [r]) == r.Redo(RedoAll(d, recs))
  {
    assert (recs + [r])[..|recs|] == recs;
  }

  lemma {:induction false} RedoNothing(d: Doc)
    ensures RedoAll(d, []) == d && UndoAll(d, []) == d
  {
  }

  lemma {:induction false} CacheUndoneStep(c: Cache, d: Doc, recs: Log, r: Record)
    ensures CacheUndone(c, d, recs + [r]) == CacheUndone(r.UndoCache(c, d.text), r.Undo(d), recs)
  {
    hide Record.Undo, Record.UndoCache;
    assert (recs + [r])[..|recs|] == recs;
  }

  lemma {:induction false} CacheRedoneStep(c: Cache, d: Doc, recs: Log, r: Record)
    ensures CacheRedone(c, d, recs + [r]) == r.RedoCache(CacheRedone(c, d, recs), RedoAll(d, recs).text)
  {
    hide Record.Redo, Record.RedoCache;
    assert (recs + [r])[..|recs|] == recs;
  }

  lemma {:induction false} CacheNothing(c: Cache, d: Doc)
    ensures CacheUndone(c, d, []) == c && CacheRedone(c, d, []) == c
  {
  }

  // ----- the log as it is stored ----------------------------------------------------------------

  /** The records from l_cur up to the high water mark; none once l_cur is past it. */
  function Tail(log: Log, cur: nat, high: nat): Log {
    if 1 <= cur <= high <= |log| + 1 then log[cur - 1..high - 1] else []
  }

  lemma {:induction false} NoTail(log: Log, cur: nat)
    ensures Tail(log, cur, cur) == []
  {
  }

  lemma {:induction false} TailBack(log: Log, k: nat, n: nat, high: nat)
    requires k <= n < high <= |log| + 1
    ensures Tail(log, k + 1, high) == log[..n][k..] + Tail(log, n + 1, high)
  {
  }

  // ----- the scan of log_backward ---------------------------------------------------------------

  /** Where it ends: at the last INIT that has a counted change after it, or nowhere. */
  function StopBack(done: Log, didop: bool): (k: Option<nat>)
    ensures k.Some? ==> k.value < |done| && done[k.value].CursorInit?
    decreases |done|
  {
    if done == [] then None
    else
      var n := |done| - 1;
      if done[n].CursorInit? && didop then Some(n) else StopBack(done[..n], didop || SetsDidopBack(done[n]))
  }

  /** And the index it leaves l_cur at, 0 for a scan that runs off the log. */
  function BackTo(done: Log): (k: nat)
    ensures k <= |done|
  {
    match StopBack(done, false)
    case Some(k) => k
    case None => 0
  }

  /** What it undoes. */
  function Walked(done: Log): Log {
    done[BackTo(done)..|done|]
  }

  /** With n records below l_cur: undoing the rest of what the scan is to undo gives what undoing all of it
      is to give, for the document and for the caches. */
  ghost predicate ScanningBack(d: Doc, c0: Cache, all: Log, n: nat, here: Doc, c: Cache, didop: bool) {
    var k := BackTo(all);
    && k <= n <= |all| && StopBack(all[..n], didop) == StopBack(all[..|all|], false)
    && Fits(all[k..n], |here.text|)
    && UndoAll(here, all[k..n]) == UndoAll(d, Walked(all))
    && CacheUndone(c, here, all[k..n]) == CacheUndone(c0, d, Walked(all))
  }

  lemma {:induction false} ScanBackStarts(d: Doc, c: Cache, all: Log)
    requires Fits(Walked(all), |d.text|)
    ensures ScanningBack(d, c, all, |all|, d, c, false)
  {
    hide StopBack, Fits, UndoAll, CacheUndone;
  }

  /** Each turn stays within the log and within what is to be undone, names a line that is there, and ends
      the scan exactly at its INIT. */
  lemma {:induction false} ScanBackTurn(d: Doc, c0: Cache, all: Log, n: nat, here: Doc, c: Cache, didop: bool)
    requires ScanningBack(d, c0, all, n, here, c, didop) && n > 0
    ensures var r := all[n - 1];
            && r.InRange(|here.text|)
            && if r.CursorInit? && didop
               then StopBack(all, false) == Some(n - 1) && here == UndoAll(d, Walked(all)) && c == CacheUndone(c0, d, Walked(all))
               else ScanningBack(d, c0, all, n - 1, r.Undo(here), r.UndoCache(c, here.text), didop || SetsDidopBack(r))
  {
    hide Fits, UndoAll, CacheUndone;
    var r, k := all[n - 1], BackTo(all);
    assert all[..n][..n - 1] == all[..n - 1] && all[..|all|] == all;
    if r.CursorInit? && didop {
      assert all[k..n] == [] + [r];
      UndoStep(here, [], r);
      CacheUndoneStep(c, here, [], r);
      RedoNothing(here);
      CacheNothing(c, here);
      Single(r, Between, |here.text|);
    } else {
      ScanBackOn(here, c, all, k, n);
    }
  }

  lemma {:induction false} ScanBackOn(here: Doc, c: Cache, all: Log, k: nat, n: nat)
    requires k < n <= |all| && Fits(all[k..n], |here.text|)
    ensures var r := all[n - 1];
            && r.InRange(|here.text|) && Fits(all[k..n - 1], |r.Undo(here).text|)
            && UndoAll(here, all[k..n]) == UndoAll(r.Undo(here), all[k..n - 1])
            && CacheUndone(c, here, all[k..n]) == CacheUndone(r.UndoCache(c, here.text), r.Undo(here), all[k..n - 1])
  {
    hide Fits, UndoAll, CacheUndone, Record.Undo, Record.UndoCache;
    var r := all[n - 1];
    assert all[k..n] == all[k..n - 1] + [r];
    Single(r, Between, |here.text|);
    FitsSplit(all[k..n - 1], [r], |here.text|);
    UndoCount(here, r);
    UndoStep(here, all[k..n - 1], r);
    CacheUndoneStep(c, here, all[k..n - 1], r);
  }

  /** A scan that reaches the front of the log has undone all of it. */
  lemma {:induction false} ScanBackEnds(d: Doc, c0: Cache, all: Log, here: Doc, c: Cache, didop: bool)
    requires ScanningBack(d, c0, all, 0, here, c, didop)
    ensures StopBack(all, false) == None && here == UndoAll(d, Walked(all)) && c == CacheUndone(c0, d, Walked(all))
  {
    assert all[..|all|] == all;
  }

  lemma {:induction false} StopBackIs(done: Log, k: nat, didop: bool)
    requires k < |done| && done[k].CursorInit? && forall i :: k < i < |done| ==> !done[i].CursorInit?
    requires didop || (k + 1 < |done| && SetsDidopBack(done[k + 1]))
    ensures StopBack(done, didop) == Some(k)
    decreases |done|
  {
    if k < |done| - 1 {
      StopBackIs(done[..|done| - 1], k, didop || SetsDidopBack(done[|done| - 1]));
    }
  }

  /** Where undo finds its way, the scan undoes the last group. */
  lemma {:induction false} UndoStops(j: Journal)
    requires Undoable(j) && j.done != []
    ensures StopBack(j.done, false) == Some(GroupStart(j.done)) && BackTo(j.done) == GroupStart(j.done)
    ensures Fits(Walked(j.done), |j.doc.text|) && Walked(j.done) == j.done[GroupStart(j.done)..]
    ensures var u := j.Undone();
            && u.doc == UndoAll(j.doc, Walked(j.done)) && u.done == j.done[..BackTo(j.done)]
            && u.undone == Walked(j.done) + j.undone && u.cursor == j.cursor
  {
    hide StopBack, Fits, GroupStart;
    GroupStartIsLast(j.done);
    StopBackIs(j.done, GroupStart(j.done), false);
    assert j.done[GroupStart(j.done)..] == j.done[GroupStart(j.done)..|j.done|];
  }

  lemma {:induction false} StopBackNone(done: Log, didop: bool)
    requires forall i :: 0 <= i < |done| ==> !done[i].CursorInit?
    ensures StopBack(done, didop) == None
    decreases |done|
  {
    if done != [] {
      StopBackNone(done[..|done| - 1], didop || SetsDidopBack(done[|done| - 1]));
    }
  }

  // ----- the scan of log_forward ----------------------------------------------------------------

  /** Where it ends, from record i on of the records at and behind l_cur: at the first END after a counted
      change, or past the last record there is. */
  function StopForward(rest: Log, i: nat, didop: bool): (k: nat)
    ensures k <= |rest| && (i <= |rest| ==> i <= k)
    ensures k < |rest| ==> rest[k].CursorEnd?
    decreases |rest| - i
  {
    if i >= |rest| then |rest|
    else if rest[i].CursorEnd? && didop then i
    else StopForward(rest, i + 1, didop || SetsDidopForward(rest[i]))
  }

  function ForwardTo(rest: Log): nat {
    StopForward(rest, 1, false)
  }

  /** What it redoes; the record at l_cur is skipped. */
  function Ahead(rest: Log): Log {
    if rest == [] then [] else rest[1..ForwardTo(rest)]
  }

  /** With record i to be read next: those before it are redone, in the document and in the caches. */
  ghost predicate ScanningForward(d: Doc, c0: Cache, rest: Log, i: nat, here: Doc, c: Cache, didop: bool) {
    var k := ForwardTo(rest);
    && 1 <= i <= k && StopForward(rest, i, didop) == k
    && here == RedoAll(d, rest[1..i]) && c == CacheRedone(c0, d, rest[1..i])
    && Fits(rest[1..k], |here.text| + Net(rest[i..k]))
  }

  lemma {:induction false} ScanForwardStarts(d: Doc, c: Cache, rest: Log)
    requires rest != [] && Fits(Ahead(rest), |d.text| + Net(Ahead(rest)))
    ensures ScanningForward(d, c, rest, 1, d, c, false)
  {
    hide StopForward, Fits, RedoAll, CacheRedone, Net;
    assert rest[1..1] == [];
    RedoNothing(d);
    CacheNothing(c, d);
  }

  /** Each turn stays within the records there are, names a line that will be there, and ends the scan
      exactly at its END. */
  lemma {:induction false} ScanForwardTurn(d: Doc, c0: Cache, rest: Log, i: nat, here: Doc, c: Cache, didop: bool)
    requires ScanningForward(d, c0, rest, i, here, c, didop) && i < |rest|
    ensures var r := rest[i];
            if r.CursorEnd? && didop then i == ForwardTo(rest) && here == RedoAll(d, Ahead(rest)) && c == CacheRedone(c0, d, Ahead(rest))
            else && r.InRange(|here.text| + r.Delta())
                 && ScanningForward(d, c0, rest, i + 1, r.Redo(here), r.RedoCache(c, here.text), didop || SetsDidopForward(r))
  {
    hide Fits, Net, RedoAll, CacheRedone, Record.Redo, Record.RedoCache;
    var r, k := rest[i], ForwardTo(rest);
    if !(r.CursorEnd? && didop) {
      assert rest[1..k] == rest[1..i] + rest[i..k] && rest[i..k] == [r] + rest[i + 1..k];
      assert rest[1..i + 1] == rest[1..i] + [r];
      FitsForward(rest[1..i], r, rest[i + 1..k], |here.text|);
      RedoCount(here, r);
      RedoStep(d, rest[1..i], r);
      CacheRedoneStep(c0, d, rest[1..i], r);
    }
  }

  /** A scan that runs out of records has redone all of them. */
  lemma {:induction false} ScanForwardEnds(d: Doc, c0: Cache, rest: Log, i: nat, here: Doc, c: Cache, didop: bool)
    requires ScanningForward(d, c0, rest, i, here, c, didop) && i >= |rest|
    ensures ForwardTo(rest) == |rest| && here == RedoAll(d, Ahead(rest)) && c == CacheRedone(c0, d, Ahead(rest))
  {
  }

  /** What a redo goes over: c records that are no changes, and then none that is an END but the last. */
  lemma {:induction false} RedoParts(u: Log) returns (c: nat)
    requires var k := RedoLength(u); k >= 2 && u[k - 1].CursorEnd? && SetsDidopForward(u[k - 2])
    ensures var k := RedoLength(u);
            && c < k - 1 && (forall i :: 0 <= i < c ==> !u[i].IsChange())
            && (forall i :: c <= i < k - 1 ==> !u[i].CursorEnd?)
  {
    if u[0].IsChange() {
      c := 0;
      GroupLengthIsFirst(u);
    } else {
      var c' := RedoParts(u[1..]);
      c := c' + 1;
      assert forall i :: 1 <= i < |u| ==> u[i] == u[1..][i - 1];
    }
  }

  lemma {:induction false} StopForwardIs(rest: Log, i: nat, didop: bool, c: nat, k: nat)
    requires i <= k < |rest| && rest[k].CursorEnd? && (didop || (i < k && SetsDidopForward(rest[k - 1])))
    requires i < c ==> !didop
    requires forall j :: i <= j < c && j < k ==> !rest[j].IsChange()
    requires forall j :: i <= j < k && c <= j ==> !rest[j].CursorEnd?
    ensures StopForward(rest, i, didop) == k
    decreases k - i
  {
    if i < k {
      StopForwardIs(rest, i + 1, didop || SetsDidopForward(rest[i]), c, k);
    }
  }

  /** Where redo finds its way, the scan redoes what it goes over, whatever records are left behind it. */
  lemma {:induction false} RedoStops(j: Journal, rest: Log, c: Cache)
    requires Redoable(j) && j.undone != [] && j.undone <= rest
    ensures var k, ahead := RedoLength(j.undone), Ahead(rest);
            && k <= |rest| && ForwardTo(rest) == k - 1 && rest[..k] == j.undone[..k]
            && Fits(ahead, |j.doc.text| + Net(ahead))
            && RedoAll(j.doc, ahead) == RedoAll(j.doc, j.undone[..k])
            && CacheRedone(c, j.doc, ahead) == CacheRedone(c, j.doc, j.undone[..k])
  {
    hide StopForward, Fits, Net, RedoAll, CacheRedone, RedoLength;
    var u, k := j.undone, RedoLength(j.undone);
    var at := RedoParts(u);
    assert forall i :: 0 <= i < k ==> rest[i] == u[i];
    StopForwardIs(rest, 1, false, at, k - 1);
    QuietEnds(j.doc, c, u[..k]);
    assert u[..k][1..k - 1] == rest[1..k - 1];
  }

  /** An INIT or END at either end of a stretch does nothing to a document. */
  lemma {:induction false} QuietEnds(d: Doc, c: Cache, g: Log)
    requires |g| >= 2 && !g[0].IsChange() && !g[|g| - 1].IsChange()
    ensures var mid := g[1..|g| - 1];
            && RedoAll(d, mid) == RedoAll(d, g) && CacheRedone(c, d, mid) == CacheRedone(c, d, g) && Net(mid) == Net(g)
            && forall n :: Fits(g, n) ==> Fits(mid, n)
  {
    hide Fits, Net, RedoAll, CacheRedone;
    var first, mid, last := g[0], g[1..|g| - 1], g[|g| - 1];
    assert g == ([first] + mid) + [last] && [first] == [] + [first];
    RedoStep(d, [first] + mid, last);
    RedoSplit(d, [first], mid);
    RedoStep(d, [], first);
    RedoNothing(d);
    CacheRedoneStep(c, d, [first] + mid, last);
    CacheRedoneSplit(c, d, [first], mid);
    CacheRedoneStep(c, d, [], first);
    CacheNothing(c, d);
    Single(first, Between, 0);
    Single(last, Between, 0);
    FitsSplit([first] + mid, [last], 0);
    FitsSplit([first], mid, 0);
    forall n | Fits(g, n) ensures Fits(mid, n) {
      FitsSplit([first] + mid, [last], n);
      FitsSplit([first], mid, n);
    }
  }

  lemma {:induction false} CacheRedoneSplit(c: Cache, d: Doc, a: Log, b: Log)
    ensures CacheRedone(c, d, a + b) == CacheRedone(CacheRedone(c, d, a), RedoAll(d, a), b)
    decreases |b|
  {
    hide Record.RedoCache;
    if b == [] {
      assert a + b == a;
    } else {
      var k := |b| - 1;
      assert (a + b)[..|a + b| - 1] == a + b[..k];
      CacheRedoneSplit(c, d, a, b[..k]);
      RedoSplit(d, a, b[..k]);
    }
  }

  // ----- replay keeps the invariant -------------------------------------------------------

  lemma {:induction false} UndoAllCount(d: Doc, recs: Log)
    requires Fits(recs, |d.text|)
    ensures |UndoAll(d, recs).text| == |d.text| - Net(recs)
    decreases |recs|
  {
    hide Record.Undo;
    if recs != [] {
      UndoCount(d, recs[|recs| - 1]);
      UndoAllCount(recs[|recs| - 1].Undo(d), recs[..|recs| - 1]);
    }
  }

  lemma {:induction false} RedoAllCount(d: Doc, recs: Log)
    requires Fits(recs, |d.text| + Net(recs))
    ensures |RedoAll(d, recs).text| == |d.text| + Net(recs)
    decreases |recs|
  {
    hide Record.Redo;
    if recs != [] {
      RedoAllCount(d, recs[..|recs| - 1]);
      RedoCount(RedoAll(d, recs[..|recs| - 1]), recs[|recs| - 1]);
    }
  }

  /** Undoing from a log that parses: the result still fits, and the records are all there. */
  lemma {:induction false} UndoneShape(j: Journal)
    requires (PhaseOf(j.done) == Between || PhaseOf(j.done) == Changed) && j.done != []
    requires Fits(j.done + j.undone, |j.doc.text| + Net(j.undone))
    ensures Undoable(j)
    ensures var u := j.Undone();
            && PhaseOf(u.done) == Between && u.done + u.undone == j.done + j.undone
            && Fits(u.done + u.undone, |u.doc.text| + Net(u.undone))
  {
    hide PhaseFrom, Fits, Net, UndoAll, GroupStart;
    GroupBehind(j.done);
    var k, n := GroupStart(j.done), |j.doc.text|;
    var a, g := j.done[..k], j.done[k..];
    assert a + g == j.done && a + (g + j.undone) == j.done + j.undone;
    FitsSplit(j.done, j.undone, n + Net(j.undone));
    FitsSplit(a, g, n);
    FitsSplit(g, j.undone, n);
    UndoAllCount(j.doc, g);
  }

  lemma {:induction false} RedoneShape(j: Journal)
    requires PhaseOf(j.done) == Between && PhaseOf(j.done + j.undone) != Bad && j.undone != []
    requires PhaseOf(j.done + j.undone) == Between || HasEnd(j.undone)
    requires Fits(j.done + j.undone, |j.doc.text| + Net(j.undone))
    ensures Redoable(j) && HasEnd(j.undone)
    ensures var u := j.Redone();
            && PhaseOf(u.done) == Between && u.done + u.undone == j.done + j.undone
            && Fits(u.done + u.undone, |u.doc.text| + Net(u.undone))
  {
    hide PhaseFrom, Fits, Net, RedoAll, GroupLength, RedoLength;
    GroupAhead(j.done, j.undone);
    var k, n := GroupLength(j.undone), |j.doc.text|;
    var g, u := j.undone[..k], j.undone[k..];
    assert g + u == j.undone && (j.done + g) + u == j.done + j.undone;
    FitsSplit(g, u, n);
    FitsSplit(j.done + g, u, n + Net(j.undone));
    FitsSplit(j.done, g, n + Net(g));
    RedoAllCount(j.doc, g);
  }

  /** On a replayable log both replays find their way. */
  lemma {:induction false} ReplayableBothWays(j: Journal)
    requires Replayable(j)
    ensures Undoable(j) && Redoable(j) && (j.undone == [] || HasEnd(j.undone))
  {
    hide PhaseFrom, Fits, Net;
    if j.done != [] { UndoneShape(j); }
    if j.undone != [] { RedoneShape(j); }
  }

  /** Undo keeps the log replayable exactly when no group was open; otherwise it goes astray. */
  lemma {:induction false} UndoneReplayable(j: Journal)
    requires Replayable(j) && j.done != []
    ensures Replayable(j.Undone()) <==> j.cursor.lno != OOBLNO
    ensures j.cursor.lno == OOBLNO ==> Astray(j.Undone())
  {
    hide PhaseFrom, Fits, Net, UndoAll, GroupStart;
    UndoneShape(j);
    assert j.done + [] == j.done;
  }

  lemma {:induction false} RedoneReplayable(j: Journal)
    requires Replayable(j) && j.undone != []
    ensures Replayable(j.Redone())
  {
    hide PhaseFrom, Fits, Net, RedoAll, GroupLength;
    RedoneShape(j);
  }

  // ----- a log gone astray ------------------------------------------------------------------

  /** A close keeps the log replayable exactly when the cursor is on a line; with the cursor on
      line 0 it goes astray. */
  lemma {:induction false} CloseExactly(j: Journal, at: Mark)
    requires Replayable(j)
    ensures Replayable(j.Closed(at)) <==> at.lno != OOBLNO
    ensures at.lno == OOBLNO ==> Astray(j.Closed(at))
  {
    hide PhaseFrom, Fits, Net;
    CloseShape(j, at);
  }

  /** Undo and redo do no harm to a log gone astray ... */
  lemma {:induction false} AstrayReplays(j: Journal)
    requires Astray(j)
    ensures Undoable(j) && (j.done != [] ==> Astray(j.Undone()))
    ensures j.undone != [] && HasEnd(j.undone) ==> Redoable(j) && Astray(j.Redone())
  {
    hide PhaseFrom, Fits, Net, UndoAll, RedoAll, GroupStart, GroupLength, HasEnd;
    if j.done != [] { UndoneShape(j); }
    if j.undone != [] && HasEnd(j.undone) { RedoneShape(j); }
  }

  /** ... but the next record of any other kind does: there is no INIT before it. */
  lemma {:induction false} AstrayBreaks(j: Journal, recs: Log)
    requires PhaseOf(j.done) == Between && recs != [] && !recs[0].CursorInit?
    ensures PhaseOf(j.done + recs) == Bad
  {
    hide PhaseFrom;
    PhaseSplit(Between, j.done, recs);
    assert recs == [recs[0]] + recs[1..];
    PhaseSplit(Between, [recs[0]], recs[1..]);
    Single(recs[0], Between, 0);
    BadStays(recs[1..]);
  }
}
