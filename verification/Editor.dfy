/** The file being edited: the line store with its caches (common/line.c), the log
    (common/log.c), the mark list (common/mark.c) and the pending ranges that the
    line store adjusts (ex/ex_global.c). */
module EditorModule {
  import opened Store
  import opened LogFacts
  import opened MarkFacts
  import Ranges

  datatype Action = ActAppend | ActDelete | ActInsert | ActResetF | ActResetB

  function RecordOf(a: Action, lno: nat, line: Line): Record {
    match a
    case ActAppend => LineAppend(lno, line)
    case ActDelete => LineDelete(lno, line)
    case ActInsert => LineInsert(lno, line)
    case ActResetF => LineResetF(lno, line)
    case ActResetB => LineResetB(lno, line)
  }

  class Editor {
    // Database of lines and its caches.
    var db: Text
    var cLno: nat        // cached line number, 0 if none
    var cLine: Line      // cached line
    var cNlines: nat     // cached line count, 0 if unknown

    // Log. Record i of the source is log[i - 1]; records past lHigh are leftovers.
    var log: Log
    var lCur: nat
    var lHigh: nat
    var lCursor: Mark
    var noLog: bool
    ghost var done: Log     // the records below lCur
    ghost var undone: Log   // the records from lCur up to lHigh

    var marks: seq<LMark>
    var cmds: seq<ExCmd>   // ex command stack, top first
    var exGlobal: bool     // a global command is running
    var at: Mark           // the screen's cursor

    // ----- state -------------------------------------------------------------

    ghost function Document(): Doc
      reads `db, `marks, `cmds
    {
      Doc(db, marks, cmds)
    }

    /** The indices of both caches are right; the cached bytes may not be. */
    ghost predicate CacheInBounds()
      reads `db, `cLno, `cNlines
    {
      cLno <= |db| && (cNlines == OOBLNO || cNlines == |db|)
    }

    /** The cached line is the line. */
    ghost predicate Coherent()
      reads `db, `cLno, `cLine
    {
      cLno != OOBLNO ==> cLno <= |db| && cLine == db[cLno - 1]
    }

    /** What db_get answers for an existing line. */
    ghost function Seen(lno: nat): Line
      reads `db, `cLno, `cLine
      requires 1 <= lno <= |db|
    {
      if lno == cLno then cLine else db[lno - 1]
    }

    /** Nothing is left to redo once l_cur is past the high water mark, though log_forward would go on. */
    ghost predicate LogInv()
      reads `log, `lCur, `lHigh, `done, `undone
    {
      && 1 <= lCur <= |log| + 1 && 1 <= lHigh <= |log| + 1
      && done == log[..lCur - 1] && undone == Tail(log, lCur, lHigh)
    }

    ghost function History(): Journal
      reads `db, `marks, `cmds, `done, `undone, `lCursor
    {
      Journal(Document(), done, undone, lCursor)
    }

    twostate predicate LogSame()
      reads this
    {
      done == old(done) && undone == old(undone) && lCursor == old(lCursor)
      && log == old(log) && lCur == old(lCur) && lHigh == old(lHigh)
    }

    /** A log with no leftovers behind l_cur still has none. */
    twostate predicate NoMoreLeft()
      reads this
    {
      old(lCur == |log| + 1) ==> lCur == |log| + 1
    }

    /** What a call of a db_ entry point does to everything but the caches. */
    twostate predicate Did(e: Edit)
      reads this
    {
      if noLog then Document() == e.Apply(old(Document())) && LogSame()
      else History() == old(History()).Edited(e) && lCur == lHigh && NoMoreLeft()
    }

    ghost function Caches(): Cache
      reads `cLno, `cLine, `cNlines
    {
      Cache(cLno, cLine, cNlines)
    }

    ghost predicate Valid()
      reads `db, `cLno, `cNlines, `marks, `log, `lCur, `lHigh, `done, `undone
    {
      && CacheInBounds()
      && Sorted(marks)
      && LogInv()
    }

    constructor (text: Text)
      ensures Valid() && Coherent() && !noLog && at == Mark(1, 0) && log == []
      ensures History() == Journal(Doc(text, [], []), [], [], Mark(1, 0))
    {
      hide Valid, Coherent;
      db := text;
      cLno, cLine, cNlines := OOBLNO, "", OOBLNO;
      log, lCur, lHigh, lCursor, noLog := [], 1, 1, Mark(1, 0), false;
      marks, cmds, exGlobal, at := [], [], false, Mark(1, 0);
      done, undone := [], [];
      new;
      NewIsValid(this);
    }

    // ----- common/line.c: reading ---------------------------------------------

    method DbCacheUpdate(lno: nat, line: Line)
      modifies `cLno, `cLine
      ensures cLno == lno && cLine == line
    {
      cLine := line;
      cLno := lno;
    }

    method DbGet(lno: nat, nocache: bool) returns (found: bool, line: Line)
      requires CacheInBounds()
      modifies `cLno, `cLine
      ensures CacheInBounds()
      ensures found <==> 1 <= lno <= |db|
      ensures found ==> line == if nocache then db[lno - 1] else old(Seen(lno))
      ensures found ==> cLno == lno
      ensures found && (nocache || lno != old(cLno)) ==> Coherent()
      ensures found && !nocache && lno == old(cLno) ==> Caches() == old(Caches())
      ensures !found && lno != OOBLNO && !nocache ==> cLno == OOBLNO
      ensures old(Coherent()) ==> Coherent()
    {
      if lno == OOBLNO {
        return false, "";
      }
      if !nocache {
        if lno == cLno {
          return true, cLine;
        }
        cLno := OOBLNO;
      }
      if lno > |db| {
        return false, "";
      }
      DbCacheUpdate(lno, db[lno - 1]);
      return true, db[lno - 1];
    }

    method DbExist(lno: nat) returns (exists_: bool)
      requires CacheInBounds()
      modifies `cLno, `cLine
      ensures CacheInBounds()
      ensures exists_ <==> 1 <= lno <= |db|
      ensures cNlines != OOBLNO ==> unchanged(this)
      ensures cNlines == OOBLNO && exists_ ==>
        if lno == old(cLno) then Caches() == old(Caches()) else Caches() == Cache(lno, db[lno - 1], OOBLNO)
      ensures old(Coherent()) ==> Coherent()
    {
      if lno == OOBLNO {
        return false;
      }
      if cNlines != OOBLNO {
        return lno <= cNlines;
      }
      var line;
      exists_, line := DbGet(lno, false);
    }

    method DbLast() returns (lno: nat)
      requires CacheInBounds()
      modifies `cLno, `cLine, `cNlines
      ensures CacheInBounds()
      ensures lno == |db| == cNlines
      ensures old(cNlines) != OOBLNO ==> unchanged(this)
      ensures old(cNlines) == OOBLNO && lno > 0 ==> Caches() == Cache(lno, db[lno - 1], lno)
      ensures old(Coherent()) ==> Coherent()
    {
      if cNlines != OOBLNO {
        return cNlines;
      }
      if |db| == 0 {
        return 0;
      }
      lno := |db|;
      DbCacheUpdate(lno, db[lno - 1]);
      cNlines := lno;
    }

    // ----- common/log.c: writing ----------------------------------------------

    /** Store a record at l_cur and reset the high water mark. */
    method LogPut(r: Record)
      requires LogInv()
      modifies `log, `lCur, `lHigh, `done, `undone
      ensures LogInv() && done == old(done) + [r] && undone == []
      ensures lCur == lHigh && NoMoreLeft()
    {
      log := if lCur <= |log| then log[lCur - 1 := r] else log + [r];
      lCur := lCur + 1;
      lHigh := lCur;
      done, undone := done + [r], [];
      NoTail(log, lCur);
    }

    /** Begin a group with an INIT, unless one is open. */
    method LogOpen()
      requires LogInv()
      modifies `log, `lCur, `lHigh, `done, `undone, `lCursor
      ensures LogInv()
      ensures done == old(History()).Opened() && lCursor == Mark(OOBLNO, old(lCursor.cno))
      ensures NoMoreLeft()
    {
      if lCursor.lno != OOBLNO {
        LogPut(CursorInit(lCursor));
        lCursor := lCursor.(lno := OOBLNO);
      }
    }

    /** log_cursor: close the group if it changed anything, and remember where the
        next one starts. The cursor of an emptied file is on line 0, which says that a group
        is open. */
    method LogCursor()
      requires Valid()
      modifies `log, `lCur, `lHigh, `done, `undone, `lCursor
      ensures Valid()
      ensures noLog ==> unchanged(this)
      ensures !noLog ==> History() == old(History()).Closed(at) && NoMoreLeft()
      ensures old(lCur == lHigh) ==> lCur == lHigh
    {
      hide Sorted, LogInv;
      if noLog {
        return;
      }
      if lCursor.lno == OOBLNO {
        lCursor := at;
        LogPut(CursorEnd(lCursor));
        return;
      }
      lCursor := at;
    }

    method LogLine(lno: nat, a: Action)
      requires CacheInBounds() && LogInv()
      requires 1 <= lno <= |db| || (a == ActResetB && lno == 1)
      modifies `log, `lCur, `lHigh, `done, `undone, `lCursor, `cLno, `cLine
      ensures CacheInBounds() && LogInv()
      ensures noLog ==> LogSame() && Caches() == old(Caches())
      ensures !noLog ==>
        var line := if lno > |db| then "" else if a == ActResetB then db[lno - 1] else old(Seen(lno));
        && Written(old(History()), History(), [RecordOf(a, lno, line)]) && lCur == lHigh && NoMoreLeft()
        && (1 <= lno <= |db| ==> cLno == lno)
        && (1 <= lno <= |db| && (a == ActResetB || lno != old(cLno)) ==> Coherent())
        && (lno > |db| ==> cLno == old(cLno))
      ensures old(Coherent()) ==> Coherent()
    {
      hide LogInv, Coherent;
      if noLog {
        return;
      }
      LogOpen();
      var found, line;
      if a == ActResetB {
        found, line := DbGet(lno, true);
        if !found {
          line := "";
        }
      } else {
        found, line := DbGet(lno, false);
      }
      LogPut(RecordOf(a, lno, line));
    }

    method LogMarkAt(lm: LMark)
      requires LogInv()
      modifies `log, `lCur, `lHigh, `done, `undone, `lCursor
      ensures LogInv()
      ensures noLog ==> LogSame()
      ensures !noLog ==> Written(old(History()), History(), [LogMark(lm)]) && NoMoreLeft()
    {
      if noLog {
        return;
      }
      LogOpen();
      LogPut(LogMark(lm));
    }

    // ----- common/mark.c --------------------------------------------------------

    /** The index of the mark of that name, or of the one it would come after (-1 if none comes before). */
    method MarkFind(key: char) returns (i: int)
      requires Sorted(marks)
      ensures -1 <= i < |marks|
      ensures var r := Rank(marks, key);
              i == if r < |marks| && marks[r].name == key then r else r - 1
    {
      i := 0;
      while i < |marks|
        invariant 0 <= i <= |marks|
        invariant forall j :: 0 <= j < i ==> marks[j].name < key
      {
        if marks[i].name >= key {
          RankIs(marks, key, i);
          return if marks[i].name == key then i else i - 1;
        }
        i := i + 1;
      }
      RankIs(marks, key, |marks|);
      i := |marks| - 1;
    }

    method MarkGet(name: char) returns (m: Option<Mark>)
      requires CacheInBounds() && Sorted(marks)
      modifies `cLno, `cLine
      ensures CacheInBounds() && (old(Coherent()) ==> Coherent())
      ensures m == match Lookup(marks, if name == '`' then '\'' else name)
                   case None => None
                   case Some(lm) =>
                     if !lm.deleted && ((lm.lno == 1 && lm.cno == 0) || 1 <= lm.lno <= |db|)
                     then Some(Mark(lm.lno, lm.cno)) else None
    {
      var key := if name == ABSMARK2 then ABSMARK1 else name;
      var i := MarkFind(key);
      LookupByRank(marks, key);
      RankSplits(marks, key);
      if i == -1 || marks[i].name != key {
        return None;
      }
      var lm := marks[i];
      if lm.deleted {
        return None;
      }
      if lm.lno != 1 || lm.cno != 0 {
        var there := DbExist(lm.lno);
        if !there {
          return None;
        }
      }
      return Some(Mark(lm.lno, lm.cno));
    }

    method MarkSet(name: char, m: Mark, userset: bool)
      requires Sorted(marks)
      modifies `marks
      ensures marks == MarksSet(old(marks), name, m, userset)
      ensures Sorted(marks)
    {
      var key := if name == ABSMARK2 then ABSMARK1 else name;
      SetKeepsSorted(marks, name, m, userset);
      RankSplits(marks, key);
      var i := MarkFind(key);
      if i == -1 || marks[i].name != key {
        marks := marks[..i + 1] + [LMark(key, m.lno, m.cno, false, userset)] + marks[i + 1..];
      } else if !userset && !marks[i].deleted && marks[i].userset {
        return;
      } else {
        marks := marks[i := LMark(key, m.lno, m.cno, false, userset)];
      }
    }

    /** mark_insdel's visit of one mark for LINE_DELETE. */
    method MarkDeleteAt(i: nat, lno: nat)
      requires LogInv() && lno >= 1 && i < |marks|
      modifies `marks, `log, `lCur, `lHigh, `done, `undone, `lCursor
      ensures LogInv()
      ensures marks == old(marks)[i := MarkOnDelete(old(marks[i]), lno)]
      ensures noLog ==> LogSame()
      ensures !noLog ==>
        && Written(old(History()), History(),
                   if old(marks[i].lno) == lno then [LogMark(old(marks[i]).(deleted := true))] else [])
        && NoMoreLeft()
    {
      hide LogInv;
      if marks[i].lno >= lno {
        if marks[i].lno == lno {
          marks := marks[i := marks[i].(deleted := true)];
          LogMarkAt(marks[i]);
        } else {
          marks := marks[i := marks[i].(lno := marks[i].lno - 1)];
        }
      }
    }

    /** mark_insdel for LINE_DELETE. */
    method MarkDelete(lno: nat)
      requires Sorted(marks) && LogInv() && lno >= 1
      modifies `marks, `log, `lCur, `lHigh, `done, `undone, `lCursor
      ensures Sorted(marks) && LogInv()
      ensures marks == MarksDelete(old(marks), lno)
      ensures noLog ==> LogSame()
      ensures !noLog ==> Written(old(History()), History(), MarkRecords(old(marks), lno)) && NoMoreLeft()
    {
      hide MarkRecords, Sorted, LogInv, Written;
      var i := 0;
      ghost var ms, before := marks, History();
      NoMarkRecords(ms, lno, before);
      while i < |marks|
        invariant 0 <= i <= |marks| == |ms|
        invariant LogInv()
        invariant forall j :: 0 <= j < i ==> marks[j] == MarkOnDelete(ms[j], lno)
        invariant forall j :: i <= j < |ms| ==> marks[j] == ms[j]
        invariant noLog ==> LogSame()
        invariant !noLog ==> Written(before, History(), MarkRecords(ms[..i], lno)) && NoMoreLeft()
      {
        ghost var mid := History();
        MarkDeleteAt(i, lno);
        if !noLog {
          MarkRecordsNext(ms, i, lno);
          WrittenTwice(before, mid, History(), MarkRecords(ms[..i], lno),
                       if ms[i].lno == lno then [LogMark(ms[i].(deleted := true))] else []);
        }
        i := i + 1;
      }
      assert ms[..|ms|] == ms;
      SortedKept(ms, marks);
    }

    /** mark_insdel for LINE_INSERT; the line is already in the database. */
    method MarkInsert(lno: nat)
      requires Sorted(marks) && CacheInBounds() && db != []
      modifies `marks, `cLno, `cLine, `cNlines
      ensures Sorted(marks) && CacheInBounds()
      ensures old(Coherent()) ==> Coherent()
      ensures marks == if |db| == 1 then old(marks) else MarksInsert(old(marks), lno)
      ensures old(cNlines) != OOBLNO || old(cLno) == 2 ==> Caches() == old(Caches())
      ensures old(cNlines) == OOBLNO && old(cLno) != 2 ==>
        Caches() == if |db| >= 2 then Cache(2, db[1], 0) else Cache(1, db[0], 1)
    {
      var two := DbExist(2);
      if !two {
        var last := DbLast();
        if last == 1 {
          return;
        }
      }
      var i := 0;
      ghost var ms := marks;
      while i < |marks|
        invariant 0 <= i <= |marks| == |ms|
        invariant forall j :: 0 <= j < i ==> marks[j] == MarkOnInsert(ms[j], lno)
        invariant forall j :: i <= j < |ms| ==> marks[j] == ms[j]
        modifies `marks
      {
        if marks[i].lno >= lno {
          marks := marks[i := marks[i].(lno := marks[i].lno + 1)];
        }
        i := i + 1;
      }
      SortedKept(ms, marks);
    }

    // ----- ex/ex_global.c: ex_g_insdel -------------------------------------------

    method ExGInsDel(del: bool, lno: nat)
      requires lno >= 1
      modifies `cmds
      ensures cmds == CmdsInsDel(old(cmds), del, lno)
    {
      var i := 0;
      ghost var cs := cmds;
      while i < |cmds|
        invariant 0 <= i <= |cmds| == |cs|
        invariant forall j :: 0 <= j < i ==> cmds[j] == CmdInsDel(cs[j], del, lno)
        invariant forall j :: i <= j < |cs| ==> cmds[j] == cs[j]
      {
        var c := cmds[i];
        if c.agv == At || c.agv == Global || c.agv == GlobalV {
          var rs := Ranges.AdjustRanges(c.ranges, del, lno);
          cmds := cmds[i := c.(ranges := rs, rangeLno := lno)];
        }
        i := i + 1;
      }
    }

    // ----- common/line.c: editing ---------------------------------------------------

    // Each of these writes the line, and then drops or keeps what is cached of the file.

    method FileDelete(lno: nat)
      requires CacheInBounds() && 1 <= lno <= |db|
      modifies `db, `cLno, `cNlines
      ensures db == DeleteAt(old(db), lno)
      ensures CacheInBounds() && Caches() == CacheDelete(old(Caches()), lno)
      ensures old(Coherent()) || old(cLno) == lno ==> Coherent()
    {
      db := db[..lno - 1] + db[lno..];

      if lno <= cLno {
        cLno := OOBLNO;
      }
      if cNlines != OOBLNO {
        cNlines := cNlines - 1;
      }
    }

    method FileAppend(lno: nat, p: Line)
      requires CacheInBounds() && lno <= |db|
      modifies `db, `cLno, `cNlines
      ensures db == InsertAt(old(db), lno + 1, p) && |db| == old(|db|) + 1
      ensures CacheInBounds() && cLno != lno + 1 && Seen(lno + 1) == p
      ensures old(Coherent()) ==> Coherent()
    {
      db := db[..lno] + [p] + db[lno..];

      if lno < cLno {
        cLno := OOBLNO;
      }
      if cNlines != OOBLNO {
        cNlines := cNlines + 1;
      }
    }

    /** The flush spares a cached line beyond lno, which the insertion has moved. */
    method FileInsert(lno: nat, p: Line)
      requires CacheInBounds() && 1 <= lno <= |db| + 1
      modifies `db, `cLno, `cNlines
      ensures db == InsertAt(old(db), lno, p) && |db| == old(|db|) + 1
      ensures CacheInBounds()
      ensures cLno == if lno >= old(cLno) then 0 else old(cLno)
      ensures cLine == old(cLine) && cNlines == if old(cNlines) != 0 then old(cNlines) + 1 else 0
      ensures Seen(lno) == p && (cLno == OOBLNO ==> Coherent())
    {
      db := db[..lno - 1] + [p] + db[lno - 1..];

      if lno >= cLno {
        cLno := OOBLNO;
      }
      if cNlines != OOBLNO {
        cNlines := cNlines + 1;
      }
    }

    method FileSet(lno: nat, p: Line)
      requires CacheInBounds() && (1 <= lno <= |db| || (lno == 1 && db == []))
      modifies `db, `cLno
      ensures db == SetAt(old(db), lno, p) && lno <= |db|
      ensures CacheInBounds() && cLno != lno && Seen(lno) == p && Caches() == CacheSet(old(Caches()), lno)
      ensures old(Coherent()) ==> Coherent()
    {
      db := if lno <= |db| then db[lno - 1 := p] else db + [p];

      if lno == cLno {
        cLno := OOBLNO;
      }
    }

    method DbDelete(lno: nat)
      requires Valid() && 1 <= lno <= |db|
      modifies `db, `cLno, `cLine, `cNlines, `marks, `cmds, `log, `lCur, `lHigh, `done, `undone, `lCursor
      ensures Valid()
      ensures Did(DeleteLine(lno, old(Seen(lno))))
      ensures noLog ==> Caches() == CacheDelete(old(Caches()), lno)
      ensures old(Coherent()) || !noLog ==> Coherent()
    {
      hide LogInv, CacheInBounds, Coherent, Seen, Sorted, DeleteAt, MarkRecords, Written, Journal.Edited,
           Edit.Records, Caches, CacheDelete, MarksDelete, CmdsInsDel;
      ghost var seen, before := Seen(lno), History();
      MarkDelete(lno);
      ghost var marked := History();
      ExGInsDel(true, lno);
      ghost var mid := History();
      LogLine(lno, ActDelete);
      ghost var logged := History();
      FileDelete(lno);
      if !noLog {
        DeleteLogged(before, marked, mid, logged, History(), lno, seen);
      }
    }

    /** What follows once a line is in the file: log it, shift the marks and the pending ranges. */
    method AfterInsert(lno: nat, a: Action)
      requires Valid() && 1 <= lno <= |db| && (a == ActAppend || a == ActInsert)
      modifies `cLno, `cLine, `cNlines, `marks, `cmds, `log, `lCur, `lHigh, `done, `undone, `lCursor
      ensures Valid()
      ensures marks == if |db| == 1 then old(marks) else MarksInsert(old(marks), lno)
      ensures cmds == CmdsInsDel(old(cmds), false, lno)
      ensures noLog ==> LogSame()
      ensures !noLog ==> Written(old(History()), History(), [RecordOf(a, lno, old(Seen(lno)))]) && lCur == lHigh && NoMoreLeft()
      ensures old(Coherent()) || (!noLog && lno != old(cLno)) ==> Coherent()
      ensures noLog && (old(cNlines) != OOBLNO || old(cLno) == 2) ==> Caches() == old(Caches())
      ensures noLog && old(cNlines) == OOBLNO && old(cLno) != 2 ==>
        Caches() == if |db| >= 2 then Cache(2, db[1], 0) else Cache(1, db[0], 1)
    {
      hide LogInv, CacheInBounds, Coherent, Seen, Sorted, MarksInsert, CmdsInsDel;
      LogLine(lno, a);
      MarkInsert(lno);
      ExGInsDel(false, lno);
    }

    method DbAppend(lno: nat, p: Line)
      requires Valid() && lno <= |db|
      modifies `db, `cLno, `cLine, `cNlines, `marks, `cmds, `log, `lCur, `lHigh, `done, `undone, `lCursor
      ensures Valid()
      ensures Did(AppendLine(lno, p))
      ensures old(Coherent()) || !noLog ==> Coherent()
    {
      hide LogInv, CacheInBounds, Coherent, Seen, Sorted, InsertAt, Written, Journal.Edited, Edit.Records, Caches;
      ghost var before := History();
      FileAppend(lno, p);
      ghost var mid := History();
      AfterInsert(lno + 1, ActAppend);
      if !noLog {
        AppendLogged(before, mid, History(), History(), lno, p);
      }
    }

    method DbInsert(lno: nat, p: Line)
      requires Valid() && 1 <= lno <= |db| + 1
      modifies `db, `cLno, `cLine, `cNlines, `marks, `cmds, `log, `lCur, `lHigh, `done, `undone, `lCursor
      ensures Valid()
      ensures Did(InsertLine(lno, p))
      ensures !noLog ==> Coherent()
      ensures noLog ==> Caches() == CacheInsert(old(Caches()), db, lno)
      ensures noLog && old(Coherent()) ==>
        (Coherent() <==> old(cLno) <= lno || old(db[cLno - 2] == db[cLno - 1]) || old(cNlines == OOBLNO && cLno != 2))
    {
      hide LogInv, CacheInBounds, Coherent, Seen, Sorted, InsertAt, Written, Journal.Edited, Edit.Records;
      ghost var before, c, agreed := History(), Caches(), Coherent();
      CoherentIs(this);
      FileInsert(lno, p);
      ghost var mid := History();
      AfterInsert(lno, ActInsert);
      if !noLog {
        InsertLogged(before, mid, History(), History(), lno, p);
      } else {
        if agreed { InsertedCache(c, before.doc.text, lno, p); }
        CoherentIs(this);
      }
    }

    method DbSet(lno: nat, p: Line)
      requires Valid() && (1 <= lno <= |db| || (lno == 1 && db == []))
      modifies `db, `cLno, `cLine, `log, `lCur, `lHigh, `done, `undone, `lCursor
      ensures Valid()
      ensures Did(SetLine(lno, p))
      ensures noLog ==> Caches() == CacheSet(old(Caches()), lno)
      ensures old(Coherent()) || !noLog ==> Coherent()
    {
      hide LogInv, CacheInBounds, Coherent, Seen, Sorted, SetAt, Written, Journal.Edited, Edit.Records, Caches, CacheSet;
      ghost var before := History();
      ghost var was := if lno <= |db| then db[lno - 1] else "";
      LogLine(lno, ActResetB);
      ghost var mid := History();
      FileSet(lno, p);
      ghost var mid' := History();
      LogLine(lno, ActResetF);
      if !noLog {
        SetLogged(before, mid, mid', History(), lno, was, p);
      }
    }

    // ----- common/log.c: replay ---------------------------------------------------------

    /** --l_cur, and get that record. */
    method LogReadBack() returns (r: Record)
      requires LogInv() && done != []
      modifies `lCur, `done, `undone
      ensures LogInv() && lCur == old(lCur) - 1 && done == old(done)[..lCur - 1]
      ensures r == old(done)[|old(done)| - 1]
      ensures old(lCur <= lHigh) ==> undone == [r] + old(undone)
    {
      lCur := lCur - 1;
      r := log[lCur - 1];
      done := done[..|done| - 1];
      if old(lCur) <= lHigh {
        TailBack(log, lCur - 1, lCur, lHigh);
        assert log[..lCur][lCur - 1..] == [r];
      }
      undone := Tail(log, lCur, lHigh);
    }

    /** log_err: the log starts again, empty. */
    method LogRestart()
      modifies `log, `lCur, `lHigh, `done, `undone, `lCursor
      ensures LogInv() && log == done == undone == [] && lCur == lHigh == 1 && lCursor == Mark(1, 0)
    {
      log, lCur, lHigh, lCursor := [], 1, 1, Mark(1, 0);
      done, undone := [], [];
      NoTail(log, 1);
    }

    /** The switch of log_backward. */
    method UndoRecord(r: Record)
      requires Valid() && noLog && r.InRange(|db|)
      modifies `db, `cLno, `cLine, `cNlines, `marks, `cmds, `log, `lCur, `lHigh, `done, `undone, `lCursor
      ensures Valid() && LogSame()
      ensures Document() == r.Undo(old(Document()))
      ensures Caches() == r.UndoCache(old(Caches()), old(db))
    {
      hide LogInv, CacheInBounds, Coherent, Seen, Sorted, DeleteAt, InsertAt, SetAt, MarksSet;
      match r
      case CursorInit(_) =>
      case CursorEnd(_) =>
      case LineAppend(lno, _) => DbDelete(lno);
      case LineInsert(lno, _) => DbDelete(lno);
      case LineDelete(lno, p) => DbInsert(lno, p);
      case LineResetF(_, _) =>
      case LineResetB(lno, p) => DbSet(lno, p);
      case LogMark(lm) => MarkSet(lm.name, Mark(lm.lno, lm.cno), false);
    }

    /** The switch of log_forward. */
    method RedoRecord(r: Record)
      requires Valid() && noLog && r.InRange(|db| + r.Delta())
      modifies `db, `cLno, `cLine, `cNlines, `marks, `cmds, `log, `lCur, `lHigh, `done, `undone, `lCursor
      ensures Valid() && LogSame()
      ensures Document() == r.Redo(old(Document()))
      ensures Caches() == r.RedoCache(old(Caches()), old(db))
    {
      hide LogInv, CacheInBounds, Coherent, Seen, Sorted, DeleteAt, InsertAt, SetAt, MarksSet;
      match r
      case CursorInit(_) =>
      case CursorEnd(_) =>
      case LineAppend(lno, p) => DbInsert(lno, p);
      case LineInsert(lno, p) => DbInsert(lno, p);
      case LineDelete(lno, _) => DbDelete(lno);
      case LineResetF(lno, p) => DbSet(lno, p);
      case LineResetB(_, _) =>
      case LogMark(lm) => MarkSet(lm.name, Mark(lm.lno, lm.cno), false);
    }

    /** The loop of log_backward: undo what is below l_cur down to the INIT that ends the scan, or all of it. */
    method ScanBack() returns (hit: bool, rp: Mark)
      requires Valid() && noLog && done != [] && Fits(Walked(done), |db|)
      modifies `db, `cLno, `cLine, `cNlines, `marks, `cmds, `log, `lCur, `lHigh, `done, `undone, `lCursor
      ensures Valid() && lCursor == old(lCursor) && log == old(log) && lHigh == old(lHigh)
      ensures Document() == UndoAll(old(Document()), Walked(old(done)))
      ensures Caches() == CacheUndone(old(Caches()), old(Document()), Walked(old(done)))
      ensures hit <==> StopBack(old(done), false).Some?
      ensures hit ==> StopBack(old(done), false) == Some(|done|) && done <= old(done) && CursorInit(rp) == old(done)[|done|]
    {
      hide LogInv, CacheInBounds, Coherent, Sorted, Record.Undo, Record.UndoCache, ScanningBack, UndoAll, CacheUndone, StopBack,
           Record.InRange, Fits, Walked;
      ghost var d, c, all := Document(), Caches(), done;
      ScanBackStarts(d, c, all);
      assert all[..|all|] == all;
      InvMeans(this);
      var didop := false;
      while lCur > 1
        invariant noLog && Valid() && lCursor == old(lCursor) && log == old(log) && lHigh == old(lHigh)
        invariant 1 <= lCur == |done| + 1 <= |all| + 1 && done == all[..lCur - 1]
        invariant ScanningBack(d, c, all, lCur - 1, Document(), Caches(), didop)
      {
        ScanBackTurn(d, c, all, lCur - 1, Document(), Caches(), didop);
        var r := LogReadBack();
        if r.CursorInit? && didop {
          return true, r.m;
        }
        UndoRecord(r);
        didop := didop || (r.IsChange() && !r.LineResetF?);
      }
      ScanBackEnds(d, c, all, Document(), Caches(), didop);
      return false, Mark(0, 0);
    }

    /** Roll the log backward one group, closed or open. With no INIT below, the scan runs off the log:
        everything is undone, the log is lost, and logging stays off. */
    method LogBackward() returns (err: bool, rp: Mark)
      requires Valid() && (noLog || Fits(Walked(done), |db|))
      modifies `db, `cLno, `cLine, `cNlines, `marks, `cmds, `log, `lCur, `lHigh, `done, `undone, `lCursor, `noLog
      ensures Valid()
      ensures old(noLog || done == []) ==> err && unchanged(this)
      ensures !old(noLog || done == []) ==>
        && Document() == UndoAll(old(Document()), Walked(old(done)))
        && Caches() == CacheUndone(old(Caches()), old(Document()), Walked(old(done)))
        && match StopBack(old(done), false)
           case Some(k) => !err && UndidTo(k) && CursorInit(rp) == old(done)[k]
           case None => err && noLog && LogLost()
    {
      hide LogInv, CacheInBounds, Sorted, UndoAll, CacheUndone, StopBack, Tail, Fits, Walked;
      InvMeans(this);
      if noLog {
        return true, Mark(0, 0);
      }
      if lCur == 1 {
        return true, Mark(0, 0);
      }
      noLog := true;
      var hit;
      hit, rp := ScanBack();
      if !hit {
        LogRestart();
        return true, Mark(0, 0);
      }
      noLog := false;
      InvMeans(this);
      if old(lCur <= lHigh) {
        TailBack(log, lCur - 1, old(lCur) - 1, lHigh);
      }
      return false, rp;
    }

    /** l_cur is back at record k + 1, and the log is as it was. */
    twostate predicate UndidTo(k: nat)
      reads this
    {
      && !noLog && log == old(log) && lHigh == old(lHigh) && lCursor == old(lCursor)
      && lCur == k + 1 && k <= |old(done)| && done == old(done)[..k]
      && (old(lCur <= lHigh) ==> undone == old(done)[k..] + old(undone))
    }

    ghost predicate LogLost()
      reads this
    {
      log == done == undone == [] && lCur == lHigh == 1 && lCursor == Mark(1, 0)
    }

    /** The loop of log_forward: redo what is behind l_cur up to the END that ends the scan, or all there is. */
    method ScanForward() returns (hit: bool, rp: Mark)
      requires Valid() && noLog && lCur <= |log| && Fits(Ahead(Rest()), |db| + Net(Ahead(Rest())))
      modifies `db, `cLno, `cLine, `cNlines, `marks, `cmds, `log, `lCur, `lHigh, `done, `undone, `lCursor
      ensures Valid() && lCursor == old(lCursor) && log == old(log) && lHigh == old(lHigh)
      ensures Document() == RedoAll(old(Document()), Ahead(old(Rest())))
      ensures Caches() == CacheRedone(old(Caches()), old(Document()), Ahead(old(Rest())))
      ensures hit <==> ForwardTo(old(Rest())) < |old(Rest())|
      ensures hit ==> lCur == old(lCur) + ForwardTo(old(Rest())) + 1 && CursorEnd(rp) == old(Rest())[ForwardTo(old(Rest()))]
    {
      hide LogInv, CacheInBounds, Coherent, Sorted, Record.Redo, Record.RedoCache, ScanningForward, RedoAll, CacheRedone,
           Record.InRange, ForwardTo, Ahead, Fits, Net;
      InvMeans(this);
      ghost var d, c, rest, i := Document(), Caches(), Rest(), 1;
      ScanForwardStarts(d, c, rest);
      var didop := false;
      while lCur < |log|
        invariant noLog && Valid() && lCursor == old(lCursor) && log == old(log) && lHigh == old(lHigh)
        invariant i >= 1 && lCur == old(lCur) + i - 1 <= |log|
        invariant ScanningForward(d, c, rest, i, Document(), Caches(), didop)
      {
        ScanForwardTurn(d, c, rest, i, Document(), Caches(), didop);
        LogAdvance();
        var r := LogRead();
        if r.CursorEnd? && didop {
          LogAdvance();
          return true, r.m;
        }
        RedoRecord(r);
        didop := didop || (r.IsChange() && !r.LineResetB?);
        i := i + 1;
      }
      ScanForwardEnds(d, c, rest, i, Document(), Caches(), didop);
      return false, Mark(0, 0);
    }

    /** Roll the log forward one group. It takes no notice of the high water mark once it is under way, so
        with no END ahead it goes on through what was left behind by earlier undos, and loses the log when that
        gives out. */
    method LogForward() returns (err: bool, rp: Mark)
      requires Valid() && (noLog || lCur == lHigh || Fits(Ahead(Rest()), |db| + Net(Ahead(Rest()))))
      modifies `db, `cLno, `cLine, `cNlines, `marks, `cmds, `log, `lCur, `lHigh, `done, `undone, `lCursor, `noLog
      ensures Valid()
      ensures old(noLog || lCur == lHigh) ==> err && unchanged(this)
      ensures !old(noLog || lCur == lHigh) ==>
        && Document() == RedoAll(old(Document()), Ahead(old(Rest())))
        && Caches() == CacheRedone(old(Caches()), old(Document()), Ahead(old(Rest())))
        && var k := ForwardTo(old(Rest()));
           if k < |old(Rest())| then !err && RedidTo(k) && CursorEnd(rp) == old(Rest())[k]
           else err && noLog && LogLost()
    {
      hide LogInv, CacheInBounds, Sorted, RedoAll, CacheRedone, ForwardTo, Ahead, Fits, Net, Tail;
      InvMeans(this);
      if noLog {
        return true, Mark(0, 0);
      }
      if lCur == lHigh {
        return true, Mark(0, 0);
      }
      noLog := true;
      var hit := false;
      rp := Mark(0, 0);
      if lCur <= |log| {
        hit, rp := ScanForward();
      } else {
        NothingAhead(Document(), Caches());
      }
      if !hit {
        LogRestart();
        return true, Mark(0, 0);
      }
      noLog := false;
      return false, rp;
    }

    /** The records at l_cur and behind it, whether they are there to be redone or not. */
    ghost function Rest(): Log
      reads `log, `lCur
      requires 1 <= lCur <= |log| + 1
    {
      log[lCur - 1..]
    }

    /** ++l_cur. */
    method LogAdvance()
      requires LogInv() && lCur <= |log|
      modifies `lCur, `done, `undone
      ensures LogInv() && lCur == old(lCur) + 1
    {
      lCur := lCur + 1;
      done := log[..lCur - 1];
      undone := Tail(log, lCur, lHigh);
    }

    /** Get the record at l_cur. */
    method LogRead() returns (r: Record)
      requires LogInv() && lCur <= |log|
      ensures r == log[lCur - 1]
    {
      r := log[lCur - 1];
    }

    /** l_cur is behind record k of those that were at it and behind, and the log is as it was. */
    twostate predicate RedidTo(k: nat)
      reads this
    {
      !noLog && log == old(log) && lHigh == old(lHigh) && lCursor == old(lCursor) && lCur == old(lCur) + k + 1
    }
  }

  lemma {:induction false} InvMeans(ed: Editor)
    requires ed.LogInv()
    ensures 1 <= ed.lCur <= |ed.log| + 1 && 1 <= ed.lHigh <= |ed.log| + 1
    ensures ed.done == ed.log[..ed.lCur - 1] && ed.undone == Tail(ed.log, ed.lCur, ed.lHigh)
  {
  }

  lemma {:induction false} NothingAhead(d: Doc, c: Cache)
    ensures RedoAll(d, Ahead([])) == d && CacheRedone(c, d, Ahead([])) == c && ForwardTo([]) == 0
  {
  }

  lemma {:induction false} NewIsValid(ed: Editor)
    requires ed.cLno == OOBLNO && ed.cNlines == OOBLNO && ed.marks == []
    requires ed.log == [] && ed.lCur == ed.lHigh == 1 && ed.done == [] && ed.undone == []
    ensures ed.Valid() && ed.Coherent()
  {
  }

  lemma {:induction false} CoherentIs(ed: Editor)
    ensures ed.Coherent() <==> CacheAgrees(ed.Caches(), ed.db)
  {
  }

  /** An insertion leaves the caches right exactly when the cached line is not beyond it, or has the
      bytes of the line before it, or is looked up again for want of a line count. */
  lemma {:induction false} InsertedCache(c: Cache, t: Text, lno: nat, p: Line)
    requires CacheAgrees(c, t) && 1 <= lno <= |t| + 1
    ensures CacheAgrees(CacheInsert(c, InsertAt(t, lno, p), lno), InsertAt(t, lno, p)) <==>
            c.lno <= lno || t[c.lno - 2] == t[c.lno - 1] || (c.nlines == 0 && c.lno != 2)
  {
    hide InsertAt;
    InsertedLine(t, lno, p, c.lno);
  }

  lemma {:induction false} InsertedLine(t: Text, lno: nat, p: Line, i: nat)
    requires 1 <= lno <= |t| + 1
    ensures var u := InsertAt(t, lno, p);
            |u| == |t| + 1 && (lno < i <= |t| ==> u[i - 1] == t[i - 2]) && (1 <= i < lno ==> u[i - 1] == t[i - 1])
  {
  }
}
