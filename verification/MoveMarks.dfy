/** The marks of a move, whichever way the log is gone through. */
module MoveMarks {
  import opened Store
  import opened LogFacts
  import opened MarkFacts
  import opened Undo
  import opened Commands
  import opened UndoMarks
  import opened Move

  // ----- one record, and any stretch of them ------------------------------------------------

  /** Mark x is on the list and the log may set it. */
  ghost predicate Settable(d: Doc, x: char) {
    MarksOk(d.marks) && Lookup(d.marks, x).Some? && !Lookup(d.marks, x).value.userset
  }

  lemma {:induction false} RecordLeavesSettable(d: Doc, r: Record, x: char)
    requires Settable(d, x)
    ensures Settable(r.Undo(d), x) && Settable(r.Redo(d), x)
  {
    hide Lookup, MarksSet, MarksInsert, MarksDelete, MarksOk;
    match r
    case CursorInit(_) =>
    case CursorEnd(_) =>
    case LineAppend(l, _) => LookupDelete(d.marks, l, x); LookupInsert(d.marks, l, x);
    case LineInsert(l, _) => LookupDelete(d.marks, l, x); LookupInsert(d.marks, l, x);
    case LineDelete(l, _) => LookupDelete(d.marks, l, x); LookupInsert(d.marks, l, x);
    case LineResetF(_, _) =>
    case LineResetB(_, _) =>
    case LogMark(lm) => LookupSet(d.marks, lm.name, Mark(lm.lno, lm.cno), false, x);
  }

  lemma {:induction false} UndoLeavesSettable(d: Doc, recs: Log, x: char)
    requires Settable(d, x)
    ensures Settable(UndoAll(d, recs), x)
    decreases |recs|
  {
    hide Settable, Record.Undo;
    if recs != [] {
      var n := |recs| - 1;
      RecordLeavesSettable(d, recs[n], x);
      UndoLeavesSettable(recs[n].Undo(d), recs[..n], x);
    }
  }

  lemma {:induction false} RedoLeavesSettable(d: Doc, recs: Log, x: char)
    requires Settable(d, x)
    ensures Settable(RedoAll(d, recs), x)
    decreases |recs|
  {
    hide Settable, Record.Redo;
    if recs != [] {
      var n := |recs| - 1;
      RedoLeavesSettable(d, recs[..n], x);
      RecordLeavesSettable(RedoAll(d, recs[..n]), recs[n], x);
    }
  }

  // ----- the logged positions ----------------------------------------------------------------

  /** What undoing or redoing the records of the marks makes of mark x. */
  function Put(ms: seq<LMark>, lo: nat, hi: int, d: Doc, x: char): Option<LMark> {
    match Lookup(ms, x)
    case None => Lookup(d.marks, x)
    case Some(m) =>
      if lo <= hi && Follows(m, lo, hi) then Some(SetEntry(Lookup(d.marks, x), x, Mark(m.lno, m.cno), false))
      else Lookup(d.marks, x)
  }

  lemma {:induction false} LastLogged(ms: seq<LMark>, lo: nat, hi: int, clear: bool)
    requires ms != []
    ensures var n := |ms| - 1;
            MarkLog(ms, lo, hi, clear) ==
            if lo <= hi && Follows(ms[n], lo, hi)
            then MarkLog(ms[..n], lo, hi, clear) + [LogMark(if clear then ms[n].(userset := false) else ms[n])]
            else MarkLog(ms[..n], lo, hi, clear)
  {
  }

  lemma {:induction false} MarksUndone(ms: seq<LMark>, lo: nat, hi: int, clear: bool, d: Doc, x: char)
    requires MarksOk(ms) && MarksOk(d.marks)
    ensures var v := UndoAll(d, MarkLog(ms, lo, hi, clear));
            MarksOk(v.marks) && Lookup(v.marks, x) == Put(ms, lo, hi, d, x)
    decreases |ms|
  {
    hide MarksSet, Lookup, MarkLog;
    if ms == [] {
      LookupNothing(x);
      NothingLogged(ms, lo, hi, clear);
      assert ms[..0] == ms;
    } else {
      var n := |ms| - 1;
      var m := ms[n];
      assert MarksOk(ms[..n]);
      LookupLast(ms, x);
      LastLogged(ms, lo, hi, clear);
      if lo <= hi && Follows(m, lo, hi) {
        var r := LogMark(if clear then m.(userset := false) else m);
        LookupSet(d.marks, m.name, Mark(m.lno, m.cno), false, x);
        UndoStep(d, MarkLog(ms[..n], lo, hi, clear), r);
        MarksUndone(ms[..n], lo, hi, clear, r.Undo(d), x);
      } else {
        MarksUndone(ms[..n], lo, hi, clear, d, x);
      }
    }
  }

  lemma {:induction false} AllButLast(ms: seq<LMark>)
    requires MarksOk(ms) && ms != []
    ensures MarksOk(ms[..|ms| - 1])
  {
  }

  lemma {:induction false} MarksRedone(ms: seq<LMark>, lo: nat, hi: int, clear: bool, d: Doc, x: char)
    requires MarksOk(ms) && MarksOk(d.marks)
    ensures var v := RedoAll(d, MarkLog(ms, lo, hi, clear));
            MarksOk(v.marks) && Lookup(v.marks, x) == Put(ms, lo, hi, d, x)
    decreases |ms|
  {
    hide MarksSet, Lookup, MarkLog, SetEntry, RedoAll, Follows, Sorted;
    if ms == [] {
      LookupNothing(x);
      NothingLogged(ms, lo, hi, clear);
      RedoNothing(d);
      assert ms[..0] == ms;
    } else {
      var n := |ms| - 1;
      var m := ms[n];
      AllButLast(ms);
      LookupLast(ms, x);
      LastLogged(ms, lo, hi, clear);
      MarksRedone(ms[..n], lo, hi, clear, d, x);
      if lo <= hi && Follows(m, lo, hi) {
        var r, v := LogMark(if clear then m.(userset := false) else m), RedoAll(d, MarkLog(ms[..n], lo, hi, clear));
        LookupSet(v.marks, m.name, Mark(m.lno, m.cno), false, x);
        RedoStep(d, MarkLog(ms[..n], lo, hi, clear), r);
      }
    }
  }

  // ----- the moves in between, redone ---------------------------------------------------------

  lemma {:induction false} MovingOne(d: Doc, r: Record, to: nat, gone: nat, x: char, m: LMark)
    requires MarksOk(d.marks) && x != ABSMARK1 && Lookup(d.marks, x) == Some(m) && Moving([r], to, gone)
    requires 1 <= gone <= m.lno <= to && (r.LineDelete? ==> gone < m.lno)
    ensures var v := r.Redo(d);
            MarksOk(v.marks) && Lookup(v.marks, x) == Some(if r.LineDelete? then m.(lno := m.lno - 1) else m)
  {
    hide Lookup, MarksSet, MarksInsert, MarksDelete, MarksOk;
    assert [r][0] == r;
    match r
    case LineAppend(l, _) => LookupInsert(d.marks, l, x);
    case LineDelete(l, _) => LookupDelete(d.marks, l, x);
    case LogMark(lm) => LookupSet(d.marks, lm.name, Mark(lm.lno, lm.cno), false, x);
    case LineInsert(_, _) =>
    case LineResetF(_, _) =>
    case LineResetB(_, _) =>
    case CursorInit(_) =>
    case CursorEnd(_) =>
  }

  /** A mark between the block and its destination goes up by the lines that went. */
  lemma {:induction false} MovingRedone(d: Doc, mid: Log, to: nat, gone: nat, x: char, m: LMark)
    requires MarksOk(d.marks) && x != ABSMARK1 && Lookup(d.marks, x) == Some(m) && Moving(mid, to, gone)
    requires 1 <= gone && gone + Gone(mid) <= m.lno <= to
    ensures var v := RedoAll(d, mid); MarksOk(v.marks) && Lookup(v.marks, x) == Some(m.(lno := m.lno - Gone(mid)))
    decreases |mid|
  {
    hide Lookup, MarksOk, Record.Redo;
    if mid != [] {
      var n := |mid| - 1;
      assert Moving(mid[..n], to, gone) && Moving([mid[n]], to, gone);
      MovingRedone(d, mid[..n], to, gone, x, m);
      MovingOne(RedoAll(d, mid[..n]), mid[n], to, gone, x, m.(lno := m.lno - Gone(mid[..n])));
    }
  }

  // ----- the theorem --------------------------------------------------------------------------

  /** Where the group a command wrote is, for undo and then for redo. */
  lemma {:induction false} GroupReplayed(a: Journal, b: Journal, body: Log, at: Mark)
    requires Spelled(a, b, body, false) && body != [] && a.cursor.lno != OOBLNO
    ensures var u := b.Closed(at).Undone();
            u.doc == UndoAll(b.doc, body) && u.Redone().doc == RedoAll(u.doc, body)
  {
    hide UndoAll, RedoAll, GroupStart, GroupLength, RedoLength, Linked;
    var g, gl := b.Closed(at), GroupLog(a.cursor, body, at);
    assert g.done == a.done + gl;
    GroupFound(a.done, a.cursor, body, at, []);
    assert g.done[|a.done|..] == gl && gl + [] == gl && gl[..|gl|] == gl;
    UndoGroupLog(b.doc, a.cursor, body, at);
    RedoGroupLog(UndoAll(b.doc, body), a.cursor, body, at);
  }

  lemma {:induction false} RedoGroupLog(d: Doc, from: Mark, body: Log, to: Mark)
    ensures RedoAll(d, GroupLog(from, body, to)) == RedoAll(d, body)
  {
    hide RedoAll;
    RedoStep(d, [CursorInit(from)] + body, CursorEnd(to));
    RedoSplit(d, [CursorInit(from)], body);
    assert [CursorInit(from)] == [] + [CursorInit(from)];
    RedoStep(d, [], CursorInit(from));
    RedoNothing(d);
  }

  /** Mark x in the lists before and after. */
  lemma {:induction false} MarkOfMove(ms: seq<LMark>, ns: seq<LMark>, body: Log, mid: Log, f1: nat, f2: nat, dest: nat, x: char)
    requires MovedDown(ms, ns, body, mid, f1, f2, dest) && MarksOk(ms) && Lookup(ms, x).Some?
    ensures MarksOk(ns) && Lookup(ns, x).Some? && Lookup(ms, x).value.name == x
    ensures WentDown(Lookup(ms, x).value, Lookup(ns, x).value, f1, dest, f2 - f1 + 1)
  {
    hide Lookup, MarkLog, Moving, Gone, MarksOk;
    var i := LookupFinds(ms, x);
    forall k | 0 <= k < |ms| ensures ns[k].name == ms[k].name { assert WentDown(ms[k], ns[k], f1, dest, f2 - f1 + 1); }
    LookupMapped(ms, ns, x);
  }

  /** Undoing a downward move puts every mark of the block and of the lines it went past back on its old
      line and column, and redoing it puts them on their new ones. */
  lemma {:induction false} UndoMoveMarks(a: Journal, b: Journal, body: Log, mid: Log, at: Mark,
                                         f1: nat, f2: nat, dest: nat, x: char)
    requires Spelled(a, b, body, false) && body != [] && a.cursor.lno != OOBLNO
    requires MarksOk(a.doc.marks) && MovedDown(a.doc.marks, b.doc.marks, body, mid, f1, f2, dest)
    requires Lookup(a.doc.marks, x).Some? && Follows(Lookup(a.doc.marks, x).value, f1, dest)
    ensures var u, m := b.Closed(at).Undone(), Lookup(a.doc.marks, x).value;
            && Lookup(u.doc.marks, x) == Some(LMark(x, m.lno, m.cno, false, false))
            && Down(f1, dest, f2 - f1 + 1, m.lno) >= 0
            && Lookup(u.Redone().doc.marks, x) == Some(LMark(x, Down(f1, dest, f2 - f1 + 1, m.lno), m.cno, false, false))
  {
    hide Lookup, MarksOk, UndoAll, RedoAll, MarkLog, Spelled, Journal.Closed, Journal.Undone, Journal.Redone, Moving, Gone;
    var ms, ns, k := a.doc.marks, b.doc.marks, f2 - f1 + 1;
    var m := Lookup(ms, x).value;
    var first, last := MarkLog(ms, f1, dest, true), MarkLog(ns, dest - k, dest, false);
    GroupReplayed(a, b, body, at);
    MarkOfMove(ms, ns, body, mid, f1, f2, dest, x);
    assert body == first + (mid + last);
    var v := UndoAll(b.doc, mid + last);
    UndoSplit(b.doc, first, mid + last);
    UndoLeavesSettable(b.doc, mid + last, x);
    MarksUndone(ms, f1, dest, true, v, x);
    var u := UndoAll(v, first);
    RedoneMarks(u, ms, ns, first, mid, last, f1, f2, dest, x);
    RedoSplit(u, first, mid + last);
    RedoSplit(RedoAll(u, first), mid, last);
  }

  lemma {:induction false} RedoneMarks(u: Doc, ms: seq<LMark>, ns: seq<LMark>, first: Log, mid: Log, last: Log,
                                       f1: nat, f2: nat, dest: nat, x: char)
    requires MovedDown(ms, ns, first + mid + last, mid, f1, f2, dest) && MarksOk(ms) && MarksOk(ns)
    requires first == MarkLog(ms, f1, dest, true) && last == MarkLog(ns, dest - (f2 - f1 + 1), dest, false)
    requires Lookup(ms, x).Some? && Follows(Lookup(ms, x).value, f1, dest) && Lookup(ms, x).value.name == x
    requires Settable(u, x)
    requires Lookup(ns, x).Some? && WentDown(Lookup(ms, x).value, Lookup(ns, x).value, f1, dest, f2 - f1 + 1)
    ensures var m := Lookup(ms, x).value;
            && Down(f1, dest, f2 - f1 + 1, m.lno) >= 0
            && Lookup(RedoAll(RedoAll(RedoAll(u, first), mid), last).marks, x) ==
               Some(LMark(x, Down(f1, dest, f2 - f1 + 1, m.lno), m.cno, false, false))
  {
    hide Lookup, MarksOk, RedoAll, MarkLog, Moving, Gone;
    var m, n := Lookup(ms, x).value, Lookup(ns, x).value;
    MarksRedone(ms, f1, dest, true, u, x);
    var v := RedoAll(u, first);
    RedoLeavesSettable(v, mid, x);
    var w := RedoAll(v, mid);
    MarksRedone(ns, dest - (f2 - f1 + 1), dest, false, w, x);
    if m.lno > f2 {
      MovingRedone(v, mid, dest, f1, x, LMark(x, m.lno, m.cno, false, false));
    }
  }

  // ----- marks out of the way ---------------------------------------------------------------

  lemma {:induction false} OutsideOne(d: Doc, r: Record, to: nat, gone: nat, x: char, m: LMark, half: bool)
    requires MarksOk(d.marks) && x != ABSMARK1 && Moving([r], to, gone) && Midway(half, [r]).Some?
    requires 1 <= gone <= to && (m.lno < gone || m.lno > to) && d.text != [] && r.InRange(|d.text|)
    requires Lookup(d.marks, x) == Some(if m.lno > to && Midway(half, [r]).value then m.(lno := m.lno + 1) else m)
    ensures var v := r.Undo(d);
            MarksOk(v.marks) && Lookup(v.marks, x) == Some(if m.lno > to && half then m.(lno := m.lno + 1) else m)
  {
    hide Lookup, MarksSet, MarksInsert, MarksDelete, MarksOk;
    assert [r][0] == r && [r][..0] == [];
    match r
    case LineAppend(l, _) => LookupDelete(d.marks, l, x);
    case LineDelete(l, _) => LookupInsert(d.marks, l, x);
    case LogMark(lm) => LookupSet(d.marks, lm.name, Mark(lm.lno, lm.cno), false, x);
    case LineInsert(_, _) =>
    case LineResetF(_, _) =>
    case LineResetB(_, _) =>
    case CursorInit(_) =>
    case CursorEnd(_) =>
  }

  /** Undone, each line that goes from behind a mark comes back before it first. */
  lemma {:induction false} OutsideUndone(d: Doc, mid: Log, to: nat, gone: nat, x: char, m: LMark)
    requires MarksOk(d.marks) && x != ABSMARK1 && Moving(mid, to, gone) && Midway(false, mid).Some?
    requires 1 <= gone <= to && (m.lno < gone || m.lno > to)
    requires Fits(mid, |d.text|) && |d.text| >= if Midway(false, mid).value then 2 else 1
    requires Lookup(d.marks, x) == Some(if m.lno > to && Midway(false, mid).value then m.(lno := m.lno + 1) else m)
    ensures var v := UndoAll(d, mid); MarksOk(v.marks) && Lookup(v.marks, x) == Some(m)
    decreases |mid|
  {
    hide Lookup, MarksOk, Record.Undo;
    if mid != [] {
      var n := |mid| - 1;
      var r := mid[n];
      assert Moving(mid[..n], to, gone) && Moving([r], to, gone);
      assert mid == mid[..n] + [r];
      MidwaySplit(false, mid[..n], [r]);
      UndoCount(d, r);
      OutsideOne(d, r, to, gone, x, m, Midway(false, mid[..n]).value);
      OutsideUndone(r.Undo(d), mid[..n], to, gone, x, m);
    }
  }

  /** And every mark on the other lines comes back from undo just as it was. */
  lemma {:induction false} UndoMoveOtherMarks(a: Journal, b: Journal, body: Log, mid: Log, at: Mark,
                                              f1: nat, f2: nat, dest: nat, x: char)
    requires Spelled(a, b, body, false) && body != [] && a.cursor.lno != OOBLNO && b.doc.text != []
    requires MarksOk(a.doc.marks) && MovedDown(a.doc.marks, b.doc.marks, body, mid, f1, f2, dest)
    requires x != ABSMARK1 && Lookup(a.doc.marks, x).Some? && !(f1 <= Lookup(a.doc.marks, x).value.lno <= dest)
    ensures Lookup(b.Closed(at).Undone().doc.marks, x) == Lookup(a.doc.marks, x)
  {
    hide Lookup, MarksOk, UndoAll, RedoAll, MarkLog, Journal.Closed, Journal.Undone, Journal.Redone, Moving, Gone, Midway, Linked,
         Fits, Net;
    var ms, ns, k := a.doc.marks, b.doc.marks, f2 - f1 + 1;
    var first, last := MarkLog(ms, f1, dest, true), MarkLog(ns, dest - k, dest, false);
    GroupReplayed(a, b, body, at);
    MarkOfMove(ms, ns, body, mid, f1, f2, dest, x);
    assert body == first + (mid + last);
    UndoSplit(b.doc, first, mid + last);
    UndoSplit(b.doc, mid, last);
    MarksUndone(ns, dest - k, dest, false, b.doc, x);
    OnlyMarkRecords(ns, dest - k, dest, false, b.doc);
    var v := UndoAll(b.doc, last);
    LinkedFits(a.doc.text, body, b.doc.text);
    FitsSplit(first, mid + last, |b.doc.text|);
    FitsSplit(mid, last, |b.doc.text|);
    OutsideUndone(v, mid, dest, f1, x, Lookup(ms, x).value);
    MarksUndone(ms, f1, dest, true, UndoAll(v, mid), x);
  }

  lemma {:induction false} OnlyMarkRecords(ms: seq<LMark>, lo: nat, hi: int, clear: bool, d: Doc)
    ensures Net(MarkLog(ms, lo, hi, clear)) == 0 && UndoAll(d, MarkLog(ms, lo, hi, clear)).text == d.text
    decreases |ms|
  {
    if ms != [] {
      hide MarksSet, MarkLog, Net, UndoAll;
      var n := |ms| - 1;
      LastLogged(ms, lo, hi, clear);
      OnlyMarkRecords(ms[..n], lo, hi, clear, d);
      if lo <= hi && Follows(ms[n], lo, hi) {
        var r := LogMark(if clear then ms[n].(userset := false) else ms[n]);
        UndoStep(d, MarkLog(ms[..n], lo, hi, clear), r);
        OnlyMarkRecords(ms[..n], lo, hi, clear, r.Undo(d));
        FitsSplit(MarkLog(ms[..n], lo, hi, clear), [r], 0);
        Single(r, Between, 0);
      }
    } else {
      NothingLogged(ms, lo, hi, clear);
      assert ms[..0] == ms;
    }
  }

  // ----- upward moves -----------------------------------------------------------------------

  /** An upward move is a run of edits and no more. */
  function AsActs(es: seq<Edit>): seq<Act> {
    seq(|es|, i requires 0 <= i < |es| => Act.Edit(es[i]))
  }

  lemma {:induction false} NoActs(j: Journal, x: char)
    ensures KeepsActs(j, AsActs([]), x)
  {
  }

  lemma {:induction false} AsActsOne(es: seq<Edit>)
    requires es != []
    ensures AsActs(es) != [] && AsActs(es)[0] == Act.Edit(es[0]) && AsActs(es)[1..] == AsActs(es[1..])
  {
  }

  lemma {:induction false} ActsAreEdits(j: Journal, es: seq<Edit>, x: char)
    requires OkRun(j.doc, es)
    ensures Acts(j, AsActs(es)) == Edits(j, es) && OkActs(j, AsActs(es), x) && (es != [] ==> HasEdit(AsActs(es)))
    decreases |es|
  {
    hide Journal.Edited, Edit.Ok;
    if es != [] {
      AsActsOne(es);
      EditedDoc(j, es[0]);
      ActsAreEdits(j.Edited(es[0]), es[1..], x);
    }
  }

  lemma {:induction false} EditedDoc(j: Journal, e: Edit)
    ensures j.Edited(e).doc == e.Apply(j.doc)
  {
  }

  /** As each line is in its new place before it goes from its old one, the file is never empty. */
  lemma {:induction false} TurnsKeep(j: Journal, es: seq<Edit>, x: char)
    requires OkRun(j.doc, es) && Turns(es) && j.doc.text != []
    ensures KeepsActs(j, AsActs(es), x)
    decreases |es|
  {
    hide Journal.Edited, Lookup, Edit.Ok, Edit.Apply, KeepsPlace, Pads, AsActs;
    if es != [] {
      var e, f, rest := es[0], es[1], es[1..][1..];
      var k := j.Edited(e);
      AsActsOne(es);
      AsActsOne(es[1..]);
      EditedDoc(j, e);
      EditedDoc(k, f);
      TurnGrows(j.doc, e, f, x);
      assert forall i :: 0 <= i < |rest| ==> rest[i] == es[i + 2];
      TurnsKeep(k.Edited(f), rest, x);
    } else {
      NoActs(j, x);
    }
  }

  lemma {:induction false} TurnGrows(d: Doc, e: Edit, f: Edit, x: char)
    requires e.AppendLine? && f.DeleteLine? && e.Ok(d.text) && f.Ok(e.Apply(d).text) && d.text != []
    ensures f.Apply(e.Apply(d)).text != []
    ensures forall p: nat :: KeepsPlace(d, e, x, p)
    ensures forall p: nat :: KeepsPlace(e.Apply(d), f, x, p)
  {
    hide Lookup, MarksInsert, MarksDelete, CmdsInsDel, InsertAt, DeleteAt;
    Lengths(d.text, e.lno + 1, e.p);
    Lengths(e.Apply(d).text, f.lno, "");
  }

  /** Undo brings back every mark that was live where it was, on the lines moved up as on the others. */
  lemma {:induction false} UndoMoveUpMarks(a: Journal, b: Journal, es: seq<Edit>, at: Mark, x: char)
    requires Reached(a, b, es, false) && Turns(es) && es != [] && a.cursor.lno != OOBLNO && a.doc.text != []
    requires MarksOk(a.doc.marks) && Lookup(a.doc.marks, x).Some? && !Lookup(a.doc.marks, x).value.deleted
    ensures var m, n := Lookup(a.doc.marks, x).value, Lookup(b.Closed(at).Undone().doc.marks, x);
            n.Some? && Mark(n.value.lno, n.value.cno) == Mark(m.lno, m.cno) && !n.value.deleted
  {
    hide Lookup, MarksOk, Journal.Closed, Journal.Undone, Acts, OkActs, KeepsActs, Edits, Turns, HasEdit, AsActs;
    ActsAreEdits(a, es, x);
    TurnsKeep(a, es, x);
    UndoRestoresMarks(a, AsActs(es), at, x);
  }
}
