/** What undo gives back of the marks. */
module UndoMarks {
  import opened Store
  import opened LogFacts
  import opened MarkFacts
  import opened Undo

  /** What happens inside a group: line edits, and marks the user sets. */
  datatype Act = Edit(e: Edit) | Set(name: char, m: Mark)
  {
    function Apply(j: Journal): Journal {
      match this
      case Edit(e) => j.Edited(e)
      case Set(name, m) => j.(doc := DocMark(j.doc, name, m, true))
    }

    /** Line numbers exist, and mark x is left alone. */
    ghost predicate Ok(d: Doc, x: char) {
      match this
      case Edit(e) => e.Ok(d.text)
      case Set(name, _) => MarkKey(name) != x
    }

    ghost predicate Keeps(d: Doc, x: char, pad: nat) {
      Edit? ==> KeepsPlace(d, e, x, pad)
    }

    ghost function Pad(d: Doc): nat {
      if Edit? then EditPad(d, e) else 0
    }
  }

  /** The blank line that undo leaves of a db_set on an empty file. */
  ghost function EditPad(d: Doc, e: Edit): nat {
    if SetsEmpty(d.text, e) then 1 else 0
  }

  /** mark_insdel leaves the marks alone when a file gets its first line, so undo must not find a live mark x
      on that line or beyond it, nor beyond a line that empties the file, unless there are blank lines left
      (pad of them) when that line comes back. Where a deleted mark is does not matter. */
  ghost predicate KeepsPlace(d: Doc, e: Edit, x: char, pad: nat) {
    match Lookup(d.marks, x)
    case None => true
    case Some(m) =>
      match e
      case SetLine(_, _) => true
      case AppendLine(_, _) => d.text == [] ==> m.deleted || m.lno == 0
      case InsertLine(_, _) => d.text == [] ==> m.deleted || m.lno == 0
      case DeleteLine(_, _) => |d.text| == 1 && pad == 0 ==> m.deleted || m.lno <= 1
  }

  /** The undone document u stands for the document d it came from: as many lines and pad more, and mark x
      live and in d's place if it was live in d, and otherwise not where undo cannot move it. */
  ghost predicate Stands(d: Doc, u: Doc, x: char, pad: nat) {
    && |u.text| == |d.text| + pad && MarksOk(d.marks) && MarksOk(u.marks)
    && Lookup(d.marks, x).Some? && Lookup(u.marks, x).Some?
    && var m, n := Lookup(d.marks, x).value, Lookup(u.marks, x).value;
       && (!m.deleted ==> n.lno == m.lno && n.cno == m.cno && !n.deleted)
       && (m.deleted && !n.deleted ==> !n.userset)
  }

  /** Or mark x is live in d and undo has lost it, or has it too far up. */
  ghost predicate Below(d: Doc, u: Doc, x: char, pad: nat) {
    && |u.text| == |d.text| + pad && MarksOk(d.marks) && MarksOk(u.marks)
    && Lookup(d.marks, x).Some? && Lookup(u.marks, x).Some?
    && var m, n := Lookup(d.marks, x).value, Lookup(u.marks, x).value;
       !m.deleted && (n.deleted || n.lno < m.lno)
  }

  /** The entry of mark x once the marks logged on line lno are undone. */
  function Relogged(ms: seq<LMark>, lno: nat, u: Doc, x: char): Option<LMark> {
    match Lookup(ms, x)
    case Some(m) =>
      if m.lno == lno then Some(SetEntry(Lookup(u.marks, x), x, Mark(m.lno, m.cno), false)) else Lookup(u.marks, x)
    case None => Lookup(u.marks, x)
  }

  lemma {:induction false} LoggedMarks(ms: seq<LMark>, lno: nat, u: Doc, x: char)
    requires MarksOk(ms) && MarksOk(u.marks)
    ensures var v := UndoAll(u, MarkRecords(ms, lno));
            v.text == u.text && MarksOk(v.marks) && Lookup(v.marks, x) == Relogged(ms, lno, u, x)
    decreases |ms|
  {
    hide MarksSet, Lookup;
    if ms == [] {
      LookupNothing(x);
    } else {
      var n := |ms| - 1;
      var m := ms[n];
      assert MarksOk(ms[..n]);
      LookupLast(ms, x);
      if m.lno == lno {
        var r := LogMark(m.(deleted := true));
        LookupSet(u.marks, m.name, Mark(m.lno, m.cno), false, x);
        UndoStep(u, MarkRecords(ms[..n], lno), r);
        LoggedMarks(ms[..n], lno, r.Undo(u), x);
      } else {
        assert MarkRecords(ms[..n], lno) + [] == MarkRecords(ms[..n], lno);
        LoggedMarks(ms[..n], lno, u, x);
      }
    }
  }

  lemma {:induction false} LookupNothing(x: char)
    ensures Lookup([], x) == None
  {
  }

  lemma {:induction false} LookupLast(ms: seq<LMark>, x: char)
    requires MarksOk(ms) && ms != []
    ensures var n := |ms| - 1;
            && Lookup(ms, x) == (if ms[n].name == x then Some(ms[n]) else Lookup(ms[..n], x))
            && (ms[n].name == x ==> Lookup(ms[..n], x) == None)
  {
    var n := |ms| - 1;
    if ms[n].name == x {
      LookupAt(ms, n);
      LookupAbsent(ms[..n], x);
    } else if Lookup(ms[..n], x).Some? {
      var i := LookupFinds(ms[..n], x);
      LookupAt(ms, i);
    } else if Lookup(ms, x).Some? {
      var i := LookupFinds(ms, x);
      LookupAt(ms[..n], i);
    }
  }

  /** Undoing an insertion: no mark of the undone document is on the line that goes. */
  lemma {:induction false} UndoInsertStands(d: Doc, e: Edit, l: nat, p: Line, u: Doc, x: char, pad: nat)
    requires (e.AppendLine? && l == e.lno + 1) || (e.InsertLine? && l == e.lno)
    requires 1 <= l <= |d.text| + 1 && MarksOk(d.marks) && Lookup(d.marks, x).Some?
    requires Stands(DocInsert(d, l, p), u, x, pad)
    ensures if KeepsPlace(d, e, x, pad) then Stands(d, DocDelete(u, l), x, pad) else Below(d, DocDelete(u, l), x, pad)
  {
    hide Lookup, MarksInsert, MarksDelete, Sorted, MarksOk, InsertAt, DeleteAt, CmdsInsDel;
    Lengths(d.text, l, p);
    Lengths(u.text, l, p);
    LookupInsert(d.marks, l, x);
    LookupDelete(u.marks, l, x);
  }

  lemma {:induction false} UndoInsertBelow(d: Doc, l: nat, p: Line, u: Doc, x: char, pad: nat)
    requires 1 <= l <= |d.text| + 1 && MarksOk(d.marks) && Lookup(d.marks, x).Some?
    requires Below(DocInsert(d, l, p), u, x, pad)
    ensures Below(d, DocDelete(u, l), x, pad)
  {
    hide Lookup, MarksInsert, MarksDelete, Sorted, MarksOk, InsertAt, DeleteAt, CmdsInsDel;
    Lengths(d.text, l, p);
    Lengths(u.text, l, p);
    LookupInsert(d.marks, l, x);
    LookupDelete(u.marks, l, x);
  }

  /** Undoing a deletion: the line comes back, and with it the marks logged on it. */
  lemma {:induction false} UndoDeleteStands(d: Doc, l: nat, seen: Line, u: Doc, v: Doc, x: char, pad: nat)
    requires 1 <= l <= |d.text| && MarksOk(d.marks) && Lookup(d.marks, x).Some?
    requires MarksOk(v.marks) && v.text == DocInsert(u, l, seen).text
    requires Lookup(v.marks, x) == Relogged(d.marks, l, DocInsert(u, l, seen), x)
    requires Stands(DocDelete(d, l), u, x, pad) || Below(DocDelete(d, l), u, x, pad)
    ensures if Stands(DocDelete(d, l), u, x, pad) && KeepsPlace(d, DeleteLine(l, seen), x, pad)
            then Stands(d, v, x, pad) else Below(d, v, x, pad)
  {
    hide Lookup, MarksInsert, MarksDelete, Sorted, MarksOk, InsertAt, DeleteAt, CmdsInsDel;
    OkMarks(DocDelete(d, l), u, x, pad);
    Lengths(d.text, l, seen);
    Lengths(u.text, l, seen);
    LookupDelete(d.marks, l, x);
    LookupInsert(u.marks, l, x);
    LookupNamed(d.marks, x);
  }

  /** The line back in the file, and what is left to undo of its deletion. */
  lemma {:induction false} UndoDeletion(d: Doc, l: nat, seen: Line, u: Doc, x: char)
    requires 1 <= l <= |d.text| && MarksOk(d.marks) && MarksOk(u.marks)
    ensures var w, v := DocInsert(u, l, seen), UndoAll(u, DeleteLine(l, seen).Records(d));
            v.text == w.text && MarksOk(v.marks) && Lookup(v.marks, x) == Relogged(d.marks, l, w, x)
  {
    hide Lookup, MarksInsert, Sorted, MarkRecords, UndoAll, Relogged;
    UndoStep(u, MarkRecords(d.marks, l), LineDelete(l, seen));
    LookupInsert(u.marks, l, x);
    LoggedMarks(d.marks, l, DocInsert(u, l, seen), x);
  }

  lemma {:induction false} LookupNamed(ms: seq<LMark>, x: char)
    ensures Lookup(ms, x).Some? ==> Lookup(ms, x).value.name == x
  {
    if Lookup(ms, x).Some? {
      var i := LookupFinds(ms, x);
    }
  }

  lemma {:induction false} UndoOne(u: Doc, r: Record)
    ensures UndoAll(u, [r]) == r.Undo(u)
  {
    assert [r][..0] == [];
  }

  lemma {:induction false} UndoTwo(u: Doc, r: Record, s: Record)
    ensures UndoAll(u, [r, s]) == r.Undo(s.Undo(u))
  {
    hide Record.Undo;
    assert [r, s][..1] == [r];
    UndoOne(s.Undo(u), r);
  }

  lemma {:induction false} UndoEditStands(d: Doc, e: Edit, u: Doc, x: char, pad: nat)
    requires e.Ok(d.text) && MarksOk(d.marks) && Lookup(d.marks, x).Some?
    requires Stands(e.Apply(d), u, x, pad)
    ensures var v, p := UndoAll(u, e.Records(d)), pad + EditPad(d, e);
            if KeepsPlace(d, e, x, pad) then Stands(d, v, x, p) else Below(d, v, x, p)
  {
    hide Lookup, MarksInsert, MarksDelete, Sorted, MarkRecords, Stands, Below, UndoAll, DocInsert, DocDelete, DocSet;
    match e
    case SetLine(l, q) =>
      UndoTwo(u, LineResetB(l, if l <= |d.text| then d.text[l - 1] else ""), LineResetF(l, q));
      SetStands(d, l, q, u, x, pad);
    case AppendLine(l, q) =>
      UndoOne(u, LineAppend(l + 1, q));
      UndoInsertStands(d, e, l + 1, q, u, x, pad);
    case InsertLine(l, q) =>
      UndoOne(u, LineInsert(l, q));
      UndoInsertStands(d, e, l, q, u, x, pad);
    case DeleteLine(l, seen) =>
      OkMarks(e.Apply(d), u, x, pad);
      UndoDeletion(d, l, seen, u, x);
      UndoDeleteStands(d, l, seen, u, UndoAll(u, e.Records(d)), x, pad);
  }

  lemma {:induction false} OkMarks(d: Doc, u: Doc, x: char, pad: nat)
    requires Stands(d, u, x, pad) || Below(d, u, x, pad)
    ensures MarksOk(u.marks)
  {
  }

  /** Once lost or too far up, always so. */
  lemma {:induction false} UndoEditBelow(d: Doc, e: Edit, u: Doc, x: char, pad: nat)
    requires e.Ok(d.text) && MarksOk(d.marks) && Lookup(d.marks, x).Some?
    requires Below(e.Apply(d), u, x, pad)
    ensures Below(d, UndoAll(u, e.Records(d)), x, pad + EditPad(d, e))
  {
    hide Lookup, MarksInsert, MarksDelete, Sorted, MarkRecords, Below, UndoAll, DocInsert, DocDelete, DocSet;
    match e
    case SetLine(l, q) =>
      UndoTwo(u, LineResetB(l, if l <= |d.text| then d.text[l - 1] else ""), LineResetF(l, q));
      SetBelow(d, l, q, u, x, pad);
    case AppendLine(l, q) =>
      UndoOne(u, LineAppend(l + 1, q));
      UndoInsertBelow(d, l + 1, q, u, x, pad);
    case InsertLine(l, q) =>
      UndoOne(u, LineInsert(l, q));
      UndoInsertBelow(d, l, q, u, x, pad);
    case DeleteLine(l, seen) =>
      OkMarks(e.Apply(d), u, x, pad);
      NotBoth(e.Apply(d), u, x, pad);
      UndoDeletion(d, l, seen, u, x);
      UndoDeleteStands(d, l, seen, u, UndoAll(u, e.Records(d)), x, pad);
  }

  lemma {:induction false} SetBelow(d: Doc, l: nat, q: Line, u: Doc, x: char, pad: nat)
    requires (1 <= l <= |d.text| || (l == 1 && d.text == [])) && Below(DocSet(d, l, q), u, x, pad)
    ensures forall r :: Below(d, DocSet(u, l, r), x, pad + EditPad(d, SetLine(l, q)))
  {
    hide Lookup, MarksOk;
  }

  lemma {:induction false} NotBoth(d: Doc, u: Doc, x: char, pad: nat)
    requires Below(d, u, x, pad)
    ensures !Stands(d, u, x, pad)
  {
  }

  /** For a group of one edit the guard is exact: undoing it leaves mark x in its place, and
      live if it was, if and only if the guard holds. */
  lemma {:induction false} OneEditRestoresMarkExactly(d: Doc, e: Edit, x: char)
    requires e.Ok(d.text) && MarksOk(d.marks) && Lookup(d.marks, x).Some?
    ensures Stands(d, UndoAll(e.Apply(d), e.Records(d)), x, EditPad(d, e)) <==> KeepsPlace(d, e, x, 0)
  {
    hide Lookup, MarksInsert, MarksDelete, Sorted, MarkRecords, Stands, UndoAll, DocInsert, DocDelete, DocSet, EditPad;
    EditKeepsMarks(d, e, x);
    StandsSelf(e.Apply(d), x);
    UndoEditStands(d, e, e.Apply(d), x, 0);
    if !KeepsPlace(d, e, x, 0) { NotBoth(d, UndoAll(e.Apply(d), e.Records(d)), x, EditPad(d, e)); }
  }

  lemma {:induction false} SetStands(d: Doc, l: nat, q: Line, u: Doc, x: char, pad: nat)
    requires (1 <= l <= |d.text| || (l == 1 && d.text == [])) && Stands(DocSet(d, l, q), u, x, pad)
    ensures forall r :: Stands(d, DocSet(u, l, r), x, pad + EditPad(d, SetLine(l, q)))
  {
    hide Lookup, MarksOk;
  }

  function Acts(j: Journal, acts: seq<Act>): Journal
    decreases |acts|
  {
    if acts == [] then j else Acts(acts[0].Apply(j), acts[1..])
  }

  ghost predicate OkActs(j: Journal, acts: seq<Act>, x: char)
    decreases |acts|
  {
    acts == [] || (acts[0].Ok(j.doc, x) && OkActs(acts[0].Apply(j), acts[1..], x))
  }

  /** The blank lines that undoing them leaves. */
  ghost function Pads(j: Journal, acts: seq<Act>): nat
    decreases |acts|
  {
    if acts == [] then 0 else acts[0].Pad(j.doc) + Pads(acts[0].Apply(j), acts[1..])
  }

  /** And every one of them keeps mark x in its place. */
  ghost predicate KeepsActs(j: Journal, acts: seq<Act>, x: char)
    decreases |acts|
  {
    || acts == []
    || (var next, rest := acts[0].Apply(j), acts[1..];
        acts[0].Keeps(j.doc, x, Pads(next, rest)) && KeepsActs(next, rest, x))
  }

  /** The records a stretch of a group added to the log. */
  function ActLog(j: Journal, acts: seq<Act>): Log
    decreases |acts|
  {
    if acts == [] then []
    else (if acts[0].Edit? then acts[0].e.Records(j.doc) else []) + ActLog(acts[0].Apply(j), acts[1..])
  }

  lemma {:induction false} EditKeepsMarks(d: Doc, e: Edit, x: char)
    requires MarksOk(d.marks) && Lookup(d.marks, x).Some?
    ensures MarksOk(e.Apply(d).marks) && Lookup(e.Apply(d).marks, x).Some?
  {
    match e
    case SetLine(l, q) =>
    case AppendLine(l, q) => LookupInsert(d.marks, l + 1, x);
    case InsertLine(l, q) => LookupInsert(d.marks, l, x);
    case DeleteLine(l, seen) => LookupDelete(d.marks, l, x);
  }

  lemma {:induction false} UndoActsStands(j: Journal, acts: seq<Act>, u: Doc, x: char)
    requires OkActs(j, acts, x) && MarksOk(j.doc.marks) && Lookup(j.doc.marks, x).Some?
    requires Stands(Acts(j, acts).doc, u, x, 0)
    ensures var v, p := UndoAll(u, ActLog(j, acts)), Pads(j, acts);
            if KeepsActs(j, acts, x) then Stands(j.doc, v, x, p) else Below(j.doc, v, x, p)
    decreases |acts|
  {
    hide Lookup, MarksSet, Edit.Records, Edit.Apply, Stands, Below, MarksOk, KeepsPlace, EditPad, UndoAll, SetEntry;
    if acts == [] {
      UndoNothing(u);
    } else {
      var next, rest := acts[0].Apply(j), ActLog(acts[0].Apply(j), acts[1..]);
      var pad := Pads(next, acts[1..]);
      match acts[0] {
        case Edit(e) =>
          EditKeepsMarks(j.doc, e, x);
          UndoActsStands(next, acts[1..], u, x);
          UndoSplit(u, e.Records(j.doc), rest);
          if KeepsActs(next, acts[1..], x) {
            UndoEditStands(j.doc, e, UndoAll(u, rest), x, pad);
          } else {
            UndoEditBelow(j.doc, e, UndoAll(u, rest), x, pad);
          }
        case Set(name, m) =>
          LookupSet(j.doc.marks, name, m, true, x);
          UndoActsStands(next, acts[1..], u, x);
          assert [] + rest == rest;
          SetBefore(j.doc, next.doc, UndoAll(u, rest), x, pad);
          assert acts[0].Keeps(j.doc, x, pad);
      }
    }
  }

  lemma {:induction false} UndoNothing(u: Doc)
    ensures UndoAll(u, []) == u
  {
  }

  lemma {:induction false} SetBefore(d: Doc, next: Doc, u: Doc, x: char, pad: nat)
    requires MarksOk(d.marks) && Lookup(next.marks, x) == Lookup(d.marks, x)
    requires next.text == d.text
    ensures Stands(next, u, x, pad) ==> Stands(d, u, x, pad)
    ensures Below(next, u, x, pad) ==> Below(d, u, x, pad)
  {
  }

  lemma {:induction false} StandsSelf(d: Doc, x: char)
    requires MarksOk(d.marks) && Lookup(d.marks, x).Some?
    ensures Stands(d, d, x, 0)
  {
  }

  lemma {:induction false} ActsKeepMarks(j: Journal, acts: seq<Act>, x: char)
    requires OkActs(j, acts, x) && MarksOk(j.doc.marks) && Lookup(j.doc.marks, x).Some?
    ensures var d := Acts(j, acts).doc; MarksOk(d.marks) && Lookup(d.marks, x).Some?
    decreases |acts|
  {
    hide Lookup, MarksSet, Edit.Records, Edit.Apply, MarksOk;
    if acts != [] {
      match acts[0] {
        case Edit(e) => EditKeepsMarks(j.doc, e, x);
        case Set(name, m) => LookupSet(j.doc.marks, name, m, true, x);
      }
      ActsKeepMarks(acts[0].Apply(j), acts[1..], x);
    }
  }

  predicate HasEdit(acts: seq<Act>) {
    acts != [] && (acts[0].Edit? || HasEdit(acts[1..]))
  }

  lemma {:induction false} ActsLogged(j: Journal, acts: seq<Act>)
    ensures var k := Acts(j, acts);
            && k.done == (if HasEdit(acts) then j.Opened() else j.done) + ActLog(j, acts)
            && AllChanges(ActLog(j, acts))
            && (HasEdit(acts) ==> k.cursor.lno == OOBLNO)
            && (!HasEdit(acts) ==> k.cursor == j.cursor && ActLog(j, acts) == [])
    decreases |acts|
  {
    hide MarksSet, Edit.Records, Edit.Apply;
    if acts != [] {
      var next, rest := acts[0].Apply(j), ActLog(acts[0].Apply(j), acts[1..]);
      ActsLogged(next, acts[1..]);
      if acts[0].Edit? {
        var recs := acts[0].e.Records(j.doc);
        EditChanges(j.doc, acts[0].e);
        assert (j.Opened() + recs) + rest == j.Opened() + (recs + rest);
      } else {
        assert [] + rest == rest;
      }
    }
  }

  /** A live mark the user does not set in a group comes back from undo to its line and column, however
      often its line was deleted or lines moved around it, exactly when no edit of the group gave an empty file
      its first line under the mark while it was live, or emptied the file with the mark live beyond its end and
      set no line of an empty file later; otherwise undo loses it or leaves it further up. */
  lemma {:induction false} UndoRestoresMarks(j: Journal, acts: seq<Act>, at: Mark, x: char)
    requires j.cursor.lno != OOBLNO
    requires MarksOk(j.doc.marks) && Lookup(j.doc.marks, x).Some? && OkActs(j, acts, x)
    requires HasEdit(acts)
    ensures var u := Acts(j, acts).Closed(at).Undone();
            && u.done == j.done
            && var m, n := Lookup(j.doc.marks, x).value, Lookup(u.doc.marks, x);
               && n.Some?
               && (!m.deleted ==>
                    if KeepsActs(j, acts, x) then n.value.lno == m.lno && n.value.cno == m.cno && !n.value.deleted
                    else n.value.deleted || n.value.lno < m.lno)
  {
    hide Lookup, MarksSet, Edit.Records, Edit.Apply, MarksOk, UndoAll, GroupStart, GroupLength, RedoLength, Acts, ActLog, OkActs,
         KeepsActs;
    var body, d := ActLog(j, acts), j.done;
    ActsLogged(j, acts);
    var g := Acts(j, acts).Closed(at);
    var gl := GroupLog(j.cursor, body, at);
    assert g.done == d + gl;
    GroupFound(d, j.cursor, body, at, []);
    assert g.done[|d|..] == gl && g.done[..|d|] == d;
    ActsKeepMarks(j, acts, x);
    StandsSelf(g.doc, x);
    UndoActsStands(j, acts, g.doc, x);
    UndoGroupLog(g.doc, j.cursor, body, at);
  }

  lemma {:induction false} UndoGroupLog(d: Doc, from: Mark, body: Log, to: Mark)
    ensures UndoAll(d, GroupLog(from, body, to)) == UndoAll(d, body)
  {
    hide UndoAll;
    UndoStep(d, [CursorInit(from)] + body, CursorEnd(to));
    UndoSplit(d, [CursorInit(from)], body);
    assert [CursorInit(from)] == [] + [CursorInit(from)];
    UndoStep(UndoAll(d, body), [], CursorInit(from));
    UndoNothing(UndoAll(d, body));
  }
}
