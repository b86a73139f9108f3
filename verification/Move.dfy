/** ex/ex_move.c: moving a block of lines. */
module Move {
  import opened Store
  import opened LogFacts
  import opened MarkFacts
  import opened Undo
  import opened Commands
  import opened EditorModule
  import D = Delete

  // ----- what a move does -----------------------------------------------------------

  /** Lines f1 through f2 after line dest. */
  function Moved(t: Text, f1: nat, f2: nat, dest: nat): Text {
    if !(1 <= f1 <= f2 <= |t| && dest <= |t|) || f1 <= dest <= f2 then t
    else if dest > f2 then t[..f1 - 1] + t[f2..dest] + t[f1 - 1..f2] + t[dest..]
    else t[..dest] + t[f1 - 1..f2] + t[dest..f1 - 1] + t[f2..]
  }

  /** Line dest of t has lines f1 through f2 right behind it in u (line 0 being before the first), and all other lines
      are in the order they were in. */
  ghost predicate BlockBehind(t: Text, u: Text, f1: nat, f2: nat, dest: nat) {
    && 1 <= f1 <= f2 <= |t| == |u| && dest <= |t| && !(f1 <= dest <= f2)
    && var n := f2 - f1 + 1;
       var at := if dest > f2 then dest - n else dest;
       && u[at..at + n] == t[f1 - 1..f2]
       && u[..at] + u[at + n..] == t[..f1 - 1] + t[f2..]
       && (dest > 0 ==> at > 0 && u[at - 1] == t[dest - 1])
       && (dest < |t| && dest + 1 != f1 ==> at + n < |t| && u[at + n] == t[dest])
  }

  lemma {:induction false} MovedIsBehind(t: Text, f1: nat, f2: nat, dest: nat)
    requires MoveOk(t, f1, f2, dest) && !(f1 <= dest <= f2)
    ensures BlockBehind(t, Moved(t, f1, f2, dest), f1, f2, dest)
  {
    hide BlockBehind;
    if dest > f2 {
      var a, y, z := t[..f1 - 1], t[f2..dest], t[dest..];
      Around(t, f1, f2, dest, a + y, z);
      assert a + y + z == a + (y + z) && y + z == t[f2..];
    } else {
      var a, y, z := t[..dest], t[dest..f1 - 1], t[f2..];
      Around(t, f1, f2, dest, a, y + z);
      assert a + t[f1 - 1..f2] + y + z == a + t[f1 - 1..f2] + (y + z);
      assert a + (y + z) == (a + y) + z && a + y == t[..f1 - 1];
    }
  }

  lemma {:induction false} Around(t: Text, f1: nat, f2: nat, dest: nat, before: Text, behind: Text)
    requires MoveOk(t, f1, f2, dest) && !(f1 <= dest <= f2)
    requires |before| == (if dest > f2 then dest - (f2 - f1 + 1) else dest) && |behind| == |t| - (f2 - f1 + 1) - |before|
    requires before + behind == t[..f1 - 1] + t[f2..]
    requires dest > 0 ==> before[|before| - 1] == t[dest - 1]
    requires dest < |t| && dest + 1 != f1 ==> behind[0] == t[dest]
    ensures BlockBehind(t, before + t[f1 - 1..f2] + behind, f1, f2, dest)
  {
    MovedPieces(before, t[f1 - 1..f2], behind);
  }

  lemma {:induction false} MovedMeans(t: Text, f1: nat, f2: nat, dest: nat)
    requires MoveOk(t, f1, f2, dest)
    ensures if f1 <= dest <= f2 then Moved(t, f1, f2, dest) == t else BlockBehind(t, Moved(t, f1, f2, dest), f1, f2, dest)
  {
    hide BlockBehind;
    if !(f1 <= dest <= f2) { MovedIsBehind(t, f1, f2, dest); }
  }

  lemma {:induction false} MovedPieces(x: Text, a: Text, y: Text)
    ensures var u := x + a + y;
            u[|x|..|x| + |a|] == a && u[..|x|] == x && u[|x| + |a|..] == y
  {
  }

  /** Where a line number points once the first k lines of a block at f1 are moved down to
      dest ... */
  function Down(f1: nat, dest: nat, k: nat, lno: nat): int {
    if lno < f1 || lno > dest then lno
    else if lno < f1 + k then lno + dest - (f1 + k) + 1
    else lno - k
  }

  /** ... or up to dest, for a line that is not itself moved. */
  function Up(f1: nat, dest: nat, k: nat, lno: nat): int {
    if dest < lno < f1 then lno + k else lno
  }

  lemma {:induction false} Swapped(a: Text, b: Text, c: Text, d: Text)
    ensures multiset(a + c + b + d) == multiset(a + b + c + d)
  {
  }

  /** A move changes the order of the lines and nothing else. */
  lemma {:induction false} MoveIsPermutation(t: Text, f1: nat, f2: nat, dest: nat)
    ensures multiset(Moved(t, f1, f2, dest)) == multiset(t)
  {
    if 1 <= f1 <= f2 <= |t| && dest <= |t| && !(f1 <= dest <= f2) {
      if dest > f2 {
        Swapped(t[..f1 - 1], t[f1 - 1..f2], t[f2..dest], t[dest..]);
        assert t[..f1 - 1] + t[f1 - 1..f2] + t[f2..dest] + t[dest..] == t;
      } else {
        Swapped(t[..dest], t[dest..f1 - 1], t[f1 - 1..f2], t[f2..]);
        assert t[..dest] + t[dest..f1 - 1] + t[f1 - 1..f2] + t[f2..] == t;
      }
    }
  }

  /** The line numbers follow the lines: down ... */
  lemma {:induction false} DownFollows(t: Text, f1: nat, f2: nat, dest: nat, lno: nat)
    requires 1 <= f1 <= f2 < dest <= |t| && 1 <= lno <= |t|
    ensures var to := Down(f1, dest, f2 - f1 + 1, lno);
            1 <= to <= |t| && |Moved(t, f1, f2, dest)| == |t| && Moved(t, f1, f2, dest)[to - 1] == t[lno - 1]
  {
    hide Moved, Down;
    DownParts(t, f1, f2, dest);
    var n := f2 - f1 + 1;
    var to := if f1 <= lno <= f2 then lno + dest - f2 else if f2 < lno <= dest then lno - n else lno;
    FourParts(t[..f1 - 1], t[f2..dest], t[f1 - 1..f2], t[dest..], to - 1);
    DownIs(f1, f2, dest, lno);
  }

  lemma {:induction false} DownParts(t: Text, f1: nat, f2: nat, dest: nat)
    requires 1 <= f1 <= f2 < dest <= |t|
    ensures Moved(t, f1, f2, dest) == t[..f1 - 1] + t[f2..dest] + t[f1 - 1..f2] + t[dest..]
  {
  }

  lemma {:induction false} DownIs(f1: nat, f2: nat, dest: nat, lno: nat)
    requires 1 <= f1 <= f2 < dest
    ensures Down(f1, dest, f2 - f1 + 1, lno)
         == if f1 <= lno <= f2 then lno + dest - f2 else if f2 < lno <= dest then lno - (f2 - f1 + 1) else lno
  {
  }

  lemma {:induction false} FourParts(a: Text, b: Text, c: Text, d: Text, i: nat)
    requires i < |a| + |b| + |c| + |d|
    ensures (a + b + c + d)[i]
         == if i < |a| then a[i]
            else if i < |a| + |b| then b[i - |a|]
            else if i < |a| + |b| + |c| then c[i - |a| - |b|]
            else d[i - |a| - |b| - |c|]
  {
  }

  /** ... and up. */
  lemma {:induction false} UpFollows(t: Text, f1: nat, f2: nat, dest: nat, lno: nat)
    requires dest < f1 <= f2 <= |t| && 1 <= lno <= |t| && !(f1 <= lno <= f2)
    ensures var to := Up(f1, dest, f2 - f1 + 1, lno);
            1 <= to <= |t| && |Moved(t, f1, f2, dest)| == |t| && Moved(t, f1, f2, dest)[to - 1] == t[lno - 1]
  {
  }

  // ----- the mark loops ------------------------------------------------------------------

  predicate Follows(m: LMark, lo: nat, hi: nat) {
    m.name != ABSMARK1 && lo <= m.lno <= hi
  }

  /** The records of the marks on lines lo through hi, in list order. */
  function MarkLog(ms: seq<LMark>, lo: nat, hi: int, clear: bool): Log {
    if ms == [] then []
    else
      var m := ms[|ms| - 1];
      MarkLog(ms[..|ms| - 1], lo, hi, clear)
      + if lo <= hi && Follows(m, lo, hi) then [LogMark(if clear then m.(userset := false) else m)] else []
  }

  lemma {:induction false} MarkLogNext(body: Log, ms: seq<LMark>, i: nat, lo: nat, hi: int, clear: bool)
    requires i < |ms|
    ensures var m := ms[i];
            body + MarkLog(ms[..i + 1], lo, hi, clear) == body + MarkLog(ms[..i], lo, hi, clear)
              + if lo <= hi && Follows(m, lo, hi) then [LogMark(if clear then m.(userset := false) else m)] else []
  {
    assert ms[..i + 1][..i] == ms[..i];
  }

  /** Log the marks on lines lo through hi, making them undoable first if clear is set. */
  method LogMarks(ed: Editor, lo: nat, hi: int, clear: bool, ghost a: Journal, ghost body0: Log)
    returns (any: bool, ghost body: Log)
    requires ed.Valid() && Spelled(a, ed.History(), body0, ed.noLog)
    modifies ed`marks, ed`log, ed`lCur, ed`lHigh, ed`done, ed`undone, ed`lCursor
    ensures ed.Valid() && Spelled(a, ed.History(), body, ed.noLog)
    ensures body == body0 + MarkLog(old(ed.marks), lo, hi, clear) && |ed.marks| == |old(ed.marks)|
    ensures any <==> exists i :: 0 <= i < |ed.marks| && lo <= hi && Follows(old(ed.marks)[i], lo, hi)
    ensures !any ==> ed.History() == old(ed.History())
    ensures forall i :: 0 <= i < |ed.marks| ==>
              ed.marks[i] == if clear && lo <= hi && Follows(old(ed.marks)[i], lo, hi) then old(ed.marks)[i].(userset := false)
                             else old(ed.marks)[i]
  {
    hide Editor.CacheInBounds, Spelled, Editor.LogInv, Written, MarkLog;
    NothingLogged(ed.marks, lo, hi, clear);
    any, body := false, body0;
    var i := 0;
    ghost var ms, b := ed.marks, ed.History();
    while i < |ed.marks|
      invariant 0 <= i <= |ed.marks| == |ms|
      invariant ed.Valid() && Spelled(a, ed.History(), body, ed.noLog)
      invariant !any ==> ed.History() == b
      invariant body == body0 + MarkLog(ms[..i], lo, hi, clear)
      invariant forall j :: 0 <= j < i ==>
              ed.marks[j] == if clear && lo <= hi && Follows(ms[j], lo, hi) then ms[j].(userset := false) else ms[j]
      invariant forall j :: i <= j < |ms| ==> ed.marks[j] == ms[j]
      invariant any <==> exists j :: 0 <= j < i && lo <= hi && Follows(ms[j], lo, hi)
    {
      MarkLogNext(body0, ms, i, lo, hi, clear);
      if ed.marks[i].name != ABSMARK1 && lo <= ed.marks[i].lno <= hi {
        any := true;
        body := LogOne(ed, i, clear, a, body);
      }
      i := i + 1;
    }
    assert ms[..|ms|] == ms;
  }

  lemma {:induction false} NothingLogged(ms: seq<LMark>, lo: nat, hi: int, clear: bool)
    ensures MarkLog(ms[..0], lo, hi, clear) == []
  {
  }

  method LogOne(ed: Editor, i: nat, clear: bool, ghost a: Journal, ghost body0: Log) returns (ghost body: Log)
    requires ed.Valid() && i < |ed.marks| && Spelled(a, ed.History(), body0, ed.noLog)
    modifies ed`marks, ed`log, ed`lCur, ed`lHigh, ed`done, ed`undone, ed`lCursor
    ensures ed.Valid() && Spelled(a, ed.History(), body, ed.noLog)
    ensures body == body0 + [LogMark(if clear then old(ed.marks)[i].(userset := false) else old(ed.marks)[i])]
    ensures ed.marks == if clear then old(ed.marks)[i := old(ed.marks)[i].(userset := false)] else old(ed.marks)
  {
    hide Editor.CacheInBounds, Spelled, Editor.LogInv, Written;
    ghost var b := ed.History();
    SortedKept(ed.marks, ed.marks[i := ed.marks[i].(userset := false)]);
    if clear {
      ed.marks := ed.marks[i := ed.marks[i].(userset := false)];
    }
    ghost var c := ed.History();
    SpelledDoc(a, b, c, body0, ed.noLog);
    ed.LogMarkAt(ed.marks[i]);
    SpelledMark(a, c, ed.History(), body0, ed.marks[i], ed.noLog);
    body := body0 + [LogMark(ed.marks[i])];
  }

  /** Point the marks on line from at line to. */
  method Repoint(ed: Editor, from: nat, to: nat, ghost a: Journal, ghost body: Log)
    requires ed.Valid() && Spelled(a, ed.History(), body, ed.noLog)
    modifies ed`marks
    ensures ed.Valid() && Spelled(a, ed.History(), body, ed.noLog)
    ensures old(ed.Coherent()) ==> ed.Coherent()
    ensures |ed.marks| == |old(ed.marks)|
    ensures forall i :: 0 <= i < |ed.marks| ==> ed.marks[i] == Repointed(old(ed.marks)[i], from, to)
  {
    hide Editor.CacheInBounds, Spelled, Editor.LogInv, Sorted;
    var i := 0;
    ghost var ms, b := ed.marks, ed.History();
    while i < |ed.marks|
      invariant 0 <= i <= |ed.marks| == |ms|
      invariant forall j :: 0 <= j < i ==> ed.marks[j] == Repointed(ms[j], from, to)
      invariant forall j :: i <= j < |ms| ==> ed.marks[j] == ms[j]
    {
      if ed.marks[i].name != ABSMARK1 && ed.marks[i].lno == from {
        ed.marks := ed.marks[i := ed.marks[i].(lno := to)];
      }
      i := i + 1;
    }
    SortedKept(ms, ed.marks);
    SpelledDoc(a, b, ed.History(), body, ed.noLog);
  }

  function Repointed(m: LMark, from: nat, to: nat): LMark {
    if m.name != ABSMARK1 && m.lno == from then m.(lno := to) else m
  }

  // ----- ex_move -----------------------------------------------------------------------

  method AppendSpelled(ed: Editor, to: nat, p: Line, ghost a: Journal, ghost body0: Log) returns (ghost body: Log)
    requires ed.Valid() && ed.Coherent() && to <= |ed.db| && ed.db != []
    requires Spelled(a, ed.History(), body0, ed.noLog)
    modifies ed
    ensures ed.Valid() && ed.Coherent() && ed.noLog == old(ed.noLog) && ed.at == old(ed.at)
    ensures Spelled(a, ed.History(), body, ed.noLog) && body == body0 + [LineAppend(to + 1, p)]
    ensures ed.db == InsertAt(old(ed.db), to + 1, p)
    ensures ed.marks == MarksInsert(old(ed.marks), to + 1)
    ensures ed.cmds == CmdsInsDel(old(ed.cmds), false, to + 1)
  {
    hide Editor.CacheInBounds, Editor.LogInv, Editor.Coherent, Spelled, Sorted, InsertAt, Edit.Records,
         Written;
    InsertGrows(ed.db, to + 1, p);
    ghost var b := ed.History();
    ed.DbAppend(to, p);
    SpelledEdit(a, b, ed.History(), body0, AppendLine(to, p), ed.noLog);
    AppendRecords(b.doc, to, p);
    body := body0 + AppendLine(to, p).Records(b.doc);
  }

  lemma {:induction false} AppendRecords(d: Doc, to: nat, p: Line)
    ensures AppendLine(to, p).Records(d) == [LineAppend(to + 1, p)]
  {
  }

  lemma {:induction false} DeleteRecords(d: Doc, gone: nat, p: Line)
    ensures DeleteLine(gone, p).Records(d) == MarkRecords(d.marks, gone) + [LineDelete(gone, p)]
  {
  }

  method DeleteSpelled(ed: Editor, gone: nat, ghost a: Journal, ghost body0: Log) returns (ghost body: Log)
    requires ed.Valid() && ed.Coherent() && 1 <= gone <= |ed.db|
    requires Spelled(a, ed.History(), body0, ed.noLog)
    modifies ed
    ensures ed.Valid() && ed.Coherent() && ed.noLog == old(ed.noLog) && ed.at == old(ed.at)
    ensures Spelled(a, ed.History(), body, ed.noLog)
    ensures body == body0 + (MarkRecords(old(ed.marks), gone) + [LineDelete(gone, old(ed.db[gone - 1]))])
    ensures ed.db == DeleteAt(old(ed.db), gone)
    ensures ed.marks == MarksDelete(old(ed.marks), gone)
    ensures ed.cmds == CmdsInsDel(old(ed.cmds), true, gone)
  {
    hide Editor.CacheInBounds, Editor.LogInv, Editor.Coherent, Editor.Seen, Spelled, Sorted, DeleteAt,
         Edit.Records, Written, MarkRecords;
    ghost var b, e := ed.History(), DeleteLine(gone, ed.db[gone - 1]);
    SeenIs(ed, gone);
    ed.DbDelete(gone);
    SpelledEdit(a, b, ed.History(), body0, e, ed.noLog);
    DeleteRecords(b.doc, gone, e.seen);
    body := body0 + e.Records(b.doc);
  }

  /** One pass of either loop: append the line at from after line to, take the marks along if
      asked, and delete it where it was (at gone). */
  method MoveOne(ed: Editor, from: nat, to: nat, gone: nat, follow: bool, markTo: nat, ghost a: Journal, ghost body0: Log)
    returns (ghost body: Log, ghost turn: Log)
    requires ed.Valid() && ed.Coherent() && 1 <= from <= |ed.db| && to <= |ed.db| && 1 <= gone <= |ed.db| + 1
    requires Spelled(a, ed.History(), body0, ed.noLog)
    modifies ed
    ensures ed.Valid() && ed.Coherent() && ed.noLog == old(ed.noLog) && ed.at == old(ed.at)
    ensures Spelled(a, ed.History(), body, ed.noLog) && body == body0 + turn && turn != []
    ensures OnlyContext(old(ed.marks), from, to, gone, follow, markTo) ==>
      Moving(turn, to, gone) && Gone(turn) == 1 && Midway(false, turn) == Some(false)
    ensures ed.db == DeleteAt(InsertAt(old(ed.db), to + 1, old(ed.db[from - 1])), gone)
    ensures |ed.marks| == |old(ed.marks)|
    ensures forall i :: 0 <= i < |ed.marks| ==>
      ed.marks[i] == MarkOnDelete(MarkTaken(old(ed.marks)[i], from, to, follow, markTo), gone)
    ensures ed.cmds == CmdsInsDel(CmdsInsDel(old(ed.cmds), false, to + 1), true, gone)
  {
    hide Editor.Valid, Editor.Coherent, Spelled, InsertAt, DeleteAt, MarkRecords, Moving, Gone, Midway;
    ghost var ms := ed.marks;
    InsertGrows(ed.db, to + 1, ed.db[from - 1]);
    var p := D.GetLine(ed, from);
    body := AppendSpelled(ed, to, p, a, body0);
    if follow {
      Repoint(ed, from, markTo, a, body);
    }
    ghost var q := ed.db[gone - 1];
    turn := [LineAppend(to + 1, p)] + (MarkRecords(ed.marks, gone) + [LineDelete(gone, q)]);
    if OnlyContext(ms, from, to, gone, follow, markTo) { TurnIs(ed.marks, p, q, to, gone); }
    body := DeleteSpelled(ed, gone, a, body);
  }

  /** A mark when the line is in its new place and not yet gone from its old one. */
  function MarkTaken(m: LMark, from: nat, to: nat, follow: bool, markTo: nat): LMark {
    var n := MarkOnInsert(m, to + 1);
    if follow then Repointed(n, from, markTo) else n
  }

  /** No mark is left on the line that goes, but perhaps the "previous context" one. */
  ghost predicate OnlyContext(ms: seq<LMark>, from: nat, to: nat, gone: nat, follow: bool, markTo: nat) {
    forall i :: 0 <= i < |ms| && MarkTaken(ms[i], from, to, follow, markTo).lno == gone ==> ms[i].name == ABSMARK1
  }

  /** What the loop logs when the marks follow their lines. */
  ghost predicate Moving(recs: Log, to: nat, gone: nat) {
    forall i :: 0 <= i < |recs| ==>
      match recs[i]
      case LineAppend(l, _) => l == to + 1
      case LineDelete(l, _) => l == gone
      case LogMark(lm) => lm.name == ABSMARK1
      case _ => false
  }

  function Gone(recs: Log): nat {
    if recs == [] then 0 else Gone(recs[..|recs| - 1]) + if recs[|recs| - 1].LineDelete? then 1 else 0
  }

  /** Each line is put in its new place before it goes from its old one: whether the last one is still in
      both, from whether one was; none if they do not take turns. */
  function Midway(half: bool, recs: Log): Option<bool> {
    if recs == [] then Some(half)
    else
      var before := Midway(half, recs[..|recs| - 1]);
      match recs[|recs| - 1]
      case LineAppend(_, _) => if before == Some(false) then Some(true) else None
      case LineDelete(_, _) => if before == Some(true) then Some(false) else None
      case _ => before
  }

  lemma {:induction false} MidwaySplit(half: bool, x: Log, y: Log)
    requires Midway(half, x).Some?
    ensures Midway(half, x + y) == Midway(Midway(half, x).value, y)
    decreases |y|
  {
    if y == [] {
      assert x + y == x;
    } else {
      assert (x + y)[..|x + y| - 1] == x + y[..|y| - 1];
      MidwaySplit(half, x, y[..|y| - 1]);
    }
  }

  lemma {:induction false} MidwayOne(half: bool, r: Record)
    ensures r.LineAppend? ==> Midway(false, [r]) == Some(true)
    ensures r.LineDelete? ==> Midway(true, [r]) == Some(false)
    ensures !r.LineAppend? && !r.LineDelete? ==> Midway(half, [r]) == Some(half)
  {
    assert [r][..0] == [];
  }

  lemma {:induction false} GoneSplit(x: Log, y: Log)
    ensures Gone(x + y) == Gone(x) + Gone(y)
    decreases |y|
  {
    if y == [] {
      assert x + y == x;
    } else {
      assert (x + y)[..|x + y| - 1] == x + y[..|y| - 1];
      GoneSplit(x, y[..|y| - 1]);
    }
  }

  lemma {:induction false} ContextRecords(ms: seq<LMark>, to: nat, gone: nat)
    requires forall i :: 0 <= i < |ms| && ms[i].lno == gone ==> ms[i].name == ABSMARK1
    ensures Moving(MarkRecords(ms, gone), to, gone) && Gone(MarkRecords(ms, gone)) == 0
    ensures Midway(true, MarkRecords(ms, gone)) == Some(true)
  {
    if ms != [] {
      var m, init := ms[|ms| - 1], ms[..|ms| - 1];
      ContextRecords(init, to, gone);
      var more: Log := if m.lno == gone then [LogMark(m.(deleted := true))] else [];
      GoneSplit(MarkRecords(init, gone), more);
      MidwaySplit(true, MarkRecords(init, gone), more);
      MidwayOne(true, LogMark(m));
      MidwayOne(true, LogMark(m.(deleted := true)));
      NoneGone();
    }
  }

  lemma {:induction false} TurnIs(ms: seq<LMark>, p: Line, q: Line, to: nat, gone: nat)
    requires forall i :: 0 <= i < |ms| && ms[i].lno == gone ==> ms[i].name == ABSMARK1
    ensures var turn := [LineAppend(to + 1, p)] + (MarkRecords(ms, gone) + [LineDelete(gone, q)]);
            Moving(turn, to, gone) && Gone(turn) == 1 && Midway(false, turn) == Some(false)
  {
    hide MarkRecords, Midway;
    ContextRecords(ms, to, gone);
    MidwayOne(false, LineAppend(to + 1, p));
    MidwayOne(false, LineDelete(gone, q));
    MidwaySplit(false, [LineAppend(to + 1, p)], MarkRecords(ms, gone) + [LineDelete(gone, q)]);
    MidwaySplit(true, MarkRecords(ms, gone), [LineDelete(gone, q)]);
    GoneSplit([LineAppend(to + 1, p)], MarkRecords(ms, gone) + [LineDelete(gone, q)]);
    GoneSplit(MarkRecords(ms, gone), [LineDelete(gone, q)]);
    assert [LineAppend(to + 1, p)][..0] == [] && [LineDelete(gone, q)][..0] == [];
  }

  lemma {:induction false} SeenIs(ed: Editor, lno: nat)
    requires ed.Coherent() && 1 <= lno <= |ed.db|
    ensures ed.Seen(lno) == ed.db[lno - 1]
  {
  }

  lemma {:induction false} InsertGrows(t: Text, l: nat, p: Line)
    requires 1 <= l <= |t| + 1
    ensures |InsertAt(t, l, p)| == |t| + 1
  {
  }

  // The text, the marks and the pending ranges after k lines are moved.

  function TextDown(t: Text, f1: nat, dest: nat, k: nat): Text {
    if 1 <= f1 && f1 - 1 + k <= dest <= |t| then t[..f1 - 1] + t[f1 - 1 + k..dest] + t[f1 - 1..f1 - 1 + k] + t[dest..] else t
  }

  function TextUp(t: Text, f1: nat, dest: nat, k: nat): Text {
    if dest < f1 && f1 - 1 + k <= |t| then t[..dest] + t[f1 - 1..f1 - 1 + k] + t[dest..f1 - 1] + t[f1 - 1 + k..] else t
  }

  lemma {:induction false} TextDownStep(t: Text, f1: nat, dest: nat, k: nat)
    requires 1 <= f1 && f1 + k <= dest <= |t|
    ensures var u := TextDown(t, f1, dest, k);
            |u| == |t| && DeleteAt(InsertAt(u, dest + 1, u[f1 - 1]), f1) == TextDown(t, f1, dest, k + 1)
  {
    var u := TextDown(t, f1, dest, k);
    var a, p, b, c, d := t[..f1 - 1], t[f1 - 1 + k], t[f1 + k..dest], t[f1 - 1..f1 - 1 + k], t[dest..];
    assert u == a + [p] + (b + c) + d;
    DownPieces(a, p, b + c, d);
    assert TextDown(t, f1, dest, k + 1) == a + (b + c) + [p] + d by {
      assert t[f1 - 1..f1 + k] == c + [p];
      assert a + b + (c + [p]) + d == a + (b + c) + [p] + d;
    }
  }

  lemma {:induction false} DownPieces(a: Text, p: Line, m: Text, d: Text)
    ensures var u := a + [p] + m + d;
            DeleteAt(InsertAt(u, |a| + 1 + |m| + 1, p), |a| + 1) == a + m + [p] + d
  {
    var u := a + [p] + m + d;
    assert u[..|a| + 1 + |m|] == a + [p] + m && u[|a| + 1 + |m|..] == d;
  }

  lemma {:induction false} TextUpParts(t: Text, f1: nat, dest: nat, k: nat)
    requires dest < f1 && f1 + k <= |t|
    ensures var a, c, b, p, d := t[..dest], t[f1 - 1..f1 - 1 + k], t[dest..f1 - 1], t[f1 - 1 + k], t[f1 + k..];
            TextUp(t, f1, dest, k) == (a + c) + b + [p] + d
  {
    assert t[f1 - 1 + k..] == [t[f1 - 1 + k]] + t[f1 + k..];
  }

  lemma {:induction false} TextUpNext(t: Text, f1: nat, dest: nat, k: nat)
    requires dest < f1 && f1 + k <= |t|
    ensures var a, c, b, p, d := t[..dest], t[f1 - 1..f1 - 1 + k], t[dest..f1 - 1], t[f1 - 1 + k], t[f1 + k..];
            TextUp(t, f1, dest, k + 1) == (a + c) + [p] + b + d
  {
    assert t[f1 - 1..f1 + k] == t[f1 - 1..f1 - 1 + k] + [t[f1 - 1 + k]];
  }

  lemma {:induction false} TextUpStep(t: Text, f1: nat, dest: nat, k: nat)
    requires dest < f1 && f1 + k <= |t|
    ensures var u := TextUp(t, f1, dest, k);
            |u| == |t| && DeleteAt(InsertAt(u, dest + k + 1, u[f1 + k - 1]), f1 + k + 1) == TextUp(t, f1, dest, k + 1)
  {
    hide TextUp, DeleteAt, InsertAt;
    TextUpParts(t, f1, dest, k);
    TextUpNext(t, f1, dest, k);
    UpPieces(t[..dest] + t[f1 - 1..f1 - 1 + k], t[dest..f1 - 1], t[f1 - 1 + k], t[f1 + k..]);
  }

  lemma {:induction false} UpPieces(a: Text, m: Text, p: Line, d: Text)
    ensures var u := a + m + [p] + d;
            && u[|a| + |m|] == p
            && DeleteAt(InsertAt(u, |a| + 1, p), |a| + 1 + |m| + 1) == a + [p] + m + d
  {
    var u := a + m + [p] + d;
    assert u[..|a|] == a && u[|a|..] == m + [p] + d;
  }

  /** After a downward move: the mark is with its line, and undoable if its line moved. The "previous
      context" mark is lost with a line of the block, at the place the block left. */
  predicate WentDown(m: LMark, n: LMark, f1: nat, dest: nat, k: nat) {
    if m.name != ABSMARK1 then
      n.lno == Down(f1, dest, k, m.lno) && n == m.(lno := n.lno, userset := m.userset && !(f1 <= m.lno <= dest))
    else if f1 <= m.lno < f1 + k then n == m.(lno := f1, deleted := true)
    else n.lno == Down(f1, dest, k, m.lno) && n == m.(lno := n.lno)
  }

  /** After an upward move: lost on a moved line, just behind the place the block left, and with its line
      otherwise. */
  predicate WentUp(m: LMark, n: LMark, f1: nat, dest: nat, k: nat) {
    if f1 <= m.lno < f1 + k then n == m.(lno := f1 + k, deleted := true)
    else n == m.(lno := Up(f1, dest, k, m.lno))
  }

  lemma {:induction false} DownStep(m: LMark, n: LMark, f1: nat, dest: nat, k: nat, follow: bool)
    requires 1 <= f1 && f1 + k <= dest && WentDown(m, n, f1, dest, k)
    requires !follow ==> !Follows(m, f1, dest)
    ensures var taken := MarkTaken(n, f1, dest, follow, dest + 1);
            && WentDown(m, MarkOnDelete(taken, f1), f1, dest, k + 1)
            && (taken.lno == f1 ==> n.name == ABSMARK1)
  {
  }

  lemma {:induction false} UpStep(m: LMark, n: LMark, f1: nat, dest: nat, k: nat)
    requires dest < f1 && WentUp(m, n, f1, dest, k)
    ensures WentUp(m, MarkOnDelete(MarkTaken(n, f1 + k, dest + k, false, 0), f1 + k + 1), f1, dest, k + 1)
  {
  }

  function CmdsDown(cs: seq<ExCmd>, f1: nat, dest: nat, k: nat): seq<ExCmd>
    requires f1 >= 1
  {
    if k == 0 then cs else CmdsInsDel(CmdsInsDel(CmdsDown(cs, f1, dest, k - 1), false, dest + 1), true, f1)
  }

  function CmdsUp(cs: seq<ExCmd>, f1: nat, dest: nat, k: nat): seq<ExCmd>
    requires f1 >= 1
  {
    if k == 0 then cs else CmdsInsDel(CmdsInsDel(CmdsUp(cs, f1, dest, k - 1), false, dest + k), true, f1 + k)
  }

  lemma {:induction false} NoCmdsUp(cs: seq<ExCmd>, f1: nat, dest: nat)
    requires f1 >= 1
    ensures CmdsUp(cs, f1, dest, 0) == cs
  {
  }

  lemma {:induction false} CmdsUpStep(cs: seq<ExCmd>, f1: nat, dest: nat, k: nat)
    requires f1 >= 1
    ensures CmdsUp(cs, f1, dest, k + 1) == CmdsInsDel(CmdsInsDel(CmdsUp(cs, f1, dest, k), false, dest + k + 1), true, f1 + k + 1)
  {
  }

  /** The loop for destination beyond source. */
  method MoveDown(ed: Editor, f1: nat, f2: nat, dest: nat, follow: bool, ghost ms: seq<LMark>, ghost a: Journal, ghost body0: Log)
    returns (ghost body: Log, ghost mid: Log)
    requires ed.Valid() && ed.Coherent() && 1 <= f1 <= f2 < dest <= |ed.db|
    requires Spelled(a, ed.History(), body0, ed.noLog)
    requires |ms| == |ed.marks| && forall i :: 0 <= i < |ms| ==> WentDown(ms[i], ed.marks[i], f1, dest, 0)
    requires !follow ==> forall i :: 0 <= i < |ms| ==> !Follows(ms[i], f1, dest)
    modifies ed
    ensures ed.Valid() && ed.Coherent() && ed.noLog == old(ed.noLog) && ed.at == old(ed.at)
    ensures Spelled(a, ed.History(), body, ed.noLog) && body == body0 + mid && mid != []
    ensures Moving(mid, dest, f1) && Gone(mid) == f2 - f1 + 1 && Midway(false, mid) == Some(false)
    ensures ed.db == TextDown(old(ed.db), f1, dest, f2 - f1 + 1)
    ensures |ed.marks| == |ms| && forall i :: 0 <= i < |ms| ==> WentDown(ms[i], ed.marks[i], f1, dest, f2 - f1 + 1)
    ensures ed.cmds == CmdsDown(old(ed.cmds), f1, dest, f2 - f1 + 1)
  {
    hide Editor.Valid, Editor.Coherent, Spelled, InsertAt, DeleteAt, TextDown, WentDown, MarkTaken, Follows, Gone, Midway;
    ghost var t, cs, k := ed.db, ed.cmds, 0;
    NoneDown(t, f1, dest);
    NoneGone();
    body, mid := body0, [];
    var cnt := f2 - f1 + 1;
    while cnt > 0
      invariant 0 <= k == f2 - f1 + 1 - cnt && cnt >= 0
      invariant ed.Valid() && ed.Coherent() && ed.noLog == old(ed.noLog) && ed.at == old(ed.at)
      invariant Spelled(a, ed.History(), body, ed.noLog) && body == body0 + mid && (k > 0 ==> mid != [])
      invariant Moving(mid, dest, f1) && Gone(mid) == k && Midway(false, mid) == Some(false)
      invariant ed.db == TextDown(t, f1, dest, k) && |ed.db| == |t|
      invariant |ed.marks| == |ms| && forall i :: 0 <= i < |ms| ==> WentDown(ms[i], ed.marks[i], f1, dest, k)
      invariant ed.cmds == CmdsDown(cs, f1, dest, k)
    {
      TextDownStep(t, f1, dest, k);
      ghost var before, turn := ed.marks, [];
      StillDown(ms, before, f1, dest, k, follow);
      body, turn := MoveOne(ed, f1, dest, f1, follow, dest + 1, a, body);
      forall i | 0 <= i < |ms| ensures WentDown(ms[i], ed.marks[i], f1, dest, k + 1) {
        DownStep(ms[i], before[i], f1, dest, k, follow);
      }
      GoneSplit(mid, turn);
      MidwaySplit(false, mid, turn);
      mid := mid + turn;
      TextDownLength(t, f1, dest, k + 1);
      k := k + 1;
      cnt := cnt - 1;
    }
  }

  lemma {:induction false} StillDown(ms: seq<LMark>, ns: seq<LMark>, f1: nat, dest: nat, k: nat, follow: bool)
    requires |ns| == |ms| && 1 <= f1 && f1 + k <= dest
    requires forall i :: 0 <= i < |ms| ==> WentDown(ms[i], ns[i], f1, dest, k) && (!follow ==> !Follows(ms[i], f1, dest))
    ensures OnlyContext(ns, f1, dest, f1, follow, dest + 1)
  {
    hide WentDown, MarkTaken, Follows;
    forall i | 0 <= i < |ns| && MarkTaken(ns[i], f1, dest, follow, dest + 1).lno == f1 ensures ns[i].name == ABSMARK1 {
      DownStep(ms[i], ns[i], f1, dest, k, follow);
    }
  }

  lemma {:induction false} NoneGone()
    ensures Gone([]) == 0 && Midway(false, []) == Some(false) && Midway(true, []) == Some(true)
  {
  }

  lemma {:induction false} NoneDown(t: Text, f1: nat, dest: nat)
    requires 1 <= f1 <= dest <= |t|
    ensures TextDown(t, f1, dest, 0) == t
  {
    assert t[..f1 - 1] + t[f1 - 1..dest] + [] + t[dest..] == t;
  }

  lemma {:induction false} NoneUp(t: Text, f1: nat, dest: nat)
    requires dest < f1 <= |t|
    ensures TextUp(t, f1, dest, 0) == t
  {
    assert t[..dest] + [] + t[dest..f1 - 1] + t[f1 - 1..] == t;
  }

  lemma {:induction false} StartUp(ms: seq<LMark>, f1: nat, dest: nat)
    ensures forall i :: 0 <= i < |ms| ==> WentUp(ms[i], ms[i], f1, dest, 0)
  {
  }

  lemma {:induction false} TextDownLength(t: Text, f1: nat, dest: nat, k: nat)
    ensures |TextDown(t, f1, dest, k)| == |t|
  {
  }

  lemma {:induction false} TextUpLength(t: Text, f1: nat, dest: nat, k: nat)
    ensures |TextUp(t, f1, dest, k)| == |t|
  {
  }

  /** A line is put in its new place and then goes from its old one, time after time. */
  ghost predicate Turns(es: seq<Edit>) {
    |es| % 2 == 0 && forall i :: 0 <= i < |es| ==> if i % 2 == 0 then es[i].AppendLine? else es[i].DeleteLine?
  }

  lemma {:induction false} NoTurns()
    ensures Turns([])
  {
  }

  lemma {:induction false} MoreTurns(es: seq<Edit>, e: Edit, f: Edit)
    requires Turns(es) && e.AppendLine? && f.DeleteLine?
    ensures Turns(es + [e] + [f])
  {
  }

  lemma {:induction false} TurnsSetNothing(d: Doc, es: seq<Edit>)
    requires Turns(es)
    ensures EmptySets(d, es) == 0
  {
    NoSets(d, es);
  }

  /** One pass of the loop below: nothing is done about the marks. */
  method MoveOneUp(ed: Editor, from: nat, to: nat, ghost a: Journal, ghost es0: seq<Edit>) returns (ghost es: seq<Edit>)
    requires ed.Valid() && ed.Coherent() && 1 <= from <= |ed.db| && to <= |ed.db|
    requires Reached(a, ed.History(), es0, ed.noLog) && Turns(es0)
    modifies ed
    ensures ed.Valid() && ed.Coherent() && ed.noLog == old(ed.noLog) && ed.at == old(ed.at)
    ensures Reached(a, ed.History(), es, ed.noLog) && Turns(es) && es != []
    ensures ed.db == DeleteAt(InsertAt(old(ed.db), to + 1, old(ed.db[from - 1])), from + 1)
    ensures |ed.marks| == |old(ed.marks)|
    ensures forall i :: 0 <= i < |ed.marks| ==>
      ed.marks[i] == MarkOnDelete(MarkTaken(old(ed.marks)[i], from, to, false, 0), from + 1)
    ensures ed.cmds == CmdsInsDel(CmdsInsDel(old(ed.cmds), false, to + 1), true, from + 1)
  {
    hide Editor.Valid, Editor.Coherent, Reached, Turns, InsertAt, DeleteAt;
    InsertGrows(ed.db, to + 1, ed.db[from - 1]);
    var p := D.GetLine(ed, from);
    ghost var mid := D.AppendStep(ed, to, p, a, es0);
    ghost var q := ed.db[from];
    es := D.DeleteStep(ed, from + 1, a, mid);
    MoreTurns(es0, AppendLine(to, p), DeleteLine(from + 1, q));
  }

  /** The loop for destination before source. */
  method MoveUp(ed: Editor, f1: nat, f2: nat, dest: nat, ghost ms: seq<LMark>, ghost a: Journal)
    returns (ghost es: seq<Edit>)
    requires ed.Valid() && ed.Coherent() && dest < f1 <= f2 <= |ed.db| && ms == ed.marks && a == ed.History()
    modifies ed
    ensures ed.Valid() && ed.Coherent() && ed.noLog == old(ed.noLog) && ed.at == old(ed.at)
    ensures Reached(a, ed.History(), es, ed.noLog) && Turns(es) && es != []
    ensures ed.db == TextUp(old(ed.db), f1, dest, f2 - f1 + 1)
    ensures |ed.marks| == |ms| && forall i :: 0 <= i < |ms| ==> WentUp(ms[i], ed.marks[i], f1, dest, f2 - f1 + 1)
    ensures ed.cmds == CmdsUp(old(ed.cmds), f1, dest, f2 - f1 + 1)
  {
    hide Editor.Valid, Editor.Coherent, Reached, Turns, InsertAt, DeleteAt, TextUp, WentUp, MarkTaken, CmdsUp,
         CmdsInsDel;
    ghost var t, cs, k := ed.db, ed.cmds, 0;
    NoneUp(t, f1, dest);
    StartUp(ms, f1, dest);
    NoCmdsUp(cs, f1, dest);
    NoTurns();
    ReachedSelf(a, ed.noLog);
    es := [];
    var fl, tl, cnt := f1, dest, f2 - f1 + 1;
    while cnt > 0
      invariant 0 <= k == f2 - f1 + 1 - cnt && cnt >= 0 && fl == f1 + k && tl == dest + k
      invariant ed.Valid() && ed.Coherent() && ed.noLog == old(ed.noLog) && ed.at == old(ed.at)
      invariant Reached(a, ed.History(), es, ed.noLog) && Turns(es) && (k > 0 ==> es != [])
      invariant ed.db == TextUp(t, f1, dest, k) && |ed.db| == |t|
      invariant |ed.marks| == |ms|
      invariant forall i :: 0 <= i < |ms| ==> WentUp(ms[i], ed.marks[i], f1, dest, k)
      invariant ed.cmds == CmdsUp(cs, f1, dest, k)
    {
      TextUpStep(t, f1, dest, k);
      CmdsUpStep(cs, f1, dest, k);
      ghost var before := ed.marks;
      es := MoveOneUp(ed, fl, tl, a, es);
      forall i | 0 <= i < |ms| ensures WentUp(ms[i], ed.marks[i], f1, dest, k + 1) {
        UpStep(ms[i], before[i], f1, dest, k);
      }
      TextUpLength(t, f1, dest, k + 1);
      k := k + 1;
      fl, tl, cnt := fl + 1, tl + 1, cnt - 1;
    }
  }

  /** What a move needs: the lines are there, and so is the line to move after. */
  predicate MoveOk(t: Text, f1: nat, f2: nat, dest: nat) {
    1 <= f1 <= f2 <= |t| && dest <= |t|
  }

  method ExMove(ed: Editor, f1: nat, f2: nat, dest: nat)
    returns (err: bool, ghost body: Log, ghost mid: Log, ghost es: seq<Edit>)
    requires ed.Valid() && ed.Coherent() && MoveOk(ed.db, f1, f2, dest)
    modifies ed
    ensures ed.Valid() && ed.Coherent() && ed.noLog == old(ed.noLog)
    ensures Spelled(old(ed.History()), ed.History(), body, ed.noLog)
    ensures err <==> f1 <= dest <= f2
    ensures err ==> ed.History() == old(ed.History()) && ed.at == old(ed.at)
    ensures ed.db == Moved(old(ed.db), f1, f2, dest)
    ensures if err then ed.db == old(ed.db) else BlockBehind(old(ed.db), ed.db, f1, f2, dest)
    ensures !err ==> body != [] && |ed.marks| == |old(ed.marks)|
    ensures !err ==> forall i :: 0 <= i < |old(ed.marks)| && |ed.marks| == |old(ed.marks)| ==>
              if dest > f2 then WentDown(old(ed.marks)[i], ed.marks[i], f1, dest, f2 - f1 + 1)
              else WentUp(old(ed.marks)[i], ed.marks[i], f1, dest, f2 - f1 + 1)
    ensures !err && dest > f2 ==> MovedDown(old(ed.marks), ed.marks, body, mid, f1, f2, dest)
    ensures !err && dest > f2 ==> ed.cmds == CmdsDown(old(ed.cmds), f1, dest, f2 - f1 + 1)
    ensures !err && dest < f1 ==> Reached(old(ed.History()), ed.History(), es, ed.noLog) && Turns(es) && es != []
    ensures !err && dest < f1 ==> ed.cmds == CmdsUp(old(ed.cmds), f1, dest, f2 - f1 + 1)
    ensures !err ==> ed.at == Mark(if dest > f2 then dest else dest + (f2 - f1 + 1), 0)
  {
    hide Editor.Valid, Editor.Coherent, Spelled, WentDown, WentUp, TextDown, TextUp, CmdsDown, CmdsUp, Moved, Moving,
         MarkLog, Midway, Reached, Turns, LogOf, Follows, BlockBehind;
    ghost var a, t, ms := ed.History(), ed.db, ed.marks;
    SpelledSelf(a, ed.noLog);
    MoveIs(t, f1, f2, dest);
    MovedMeans(t, f1, f2, dest);
    if f1 <= dest <= f2 {
      return true, [], [], [];
    }
    mid, es := [], [];
    var markReset;
    markReset, body := LogMarks(ed, f1, dest, true, a, []);
    StartPositions(ms, ed.marks, f1, dest);
    var diff, mfl, mtl := f2 - f1 + 1, dest, dest + (f2 - f1 + 1);
    var tl := dest;
    if tl > f1 {
      mfl, mtl := tl - diff, tl;
      body, mid := MoveDown(ed, f1, f2, dest, markReset, ms, a, body);
    } else {
      es := MoveUp(ed, f1, f2, dest, ms, a);
      TurnsSetNothing(a.doc, es);
      ReachedSpelled(a, ed.History(), es, ed.noLog);
      body := LogOf(a.doc, es);
      tl := dest + diff;
    }
    ed.at := Mark(tl, 0);
    if markReset {
      ghost var ns := ed.marks;
      var any;
      any, body := LogMarks(ed, mfl, mtl, false, a, body);
      assert ed.marks == ns;
    } else if dest > f2 {
      NoneToLog(ms, ed.marks, f1, f2, dest);
    }
    return false, body, mid, es;
  }

  /** What a downward move logs: the old places of the marks it takes along, the moves, and the new places. */
  ghost predicate MovedDown(ms: seq<LMark>, ns: seq<LMark>, body: Log, mid: Log, f1: nat, f2: nat, dest: nat) {
    && 1 <= f1 <= f2 < dest
    && body == MarkLog(ms, f1, dest, true) + mid + MarkLog(ns, dest - (f2 - f1 + 1), dest, false)
    && Moving(mid, dest, f1) && Gone(mid) == f2 - f1 + 1 && Midway(false, mid) == Some(false)
    && |ns| == |ms| && forall i :: 0 <= i < |ms| ==> WentDown(ms[i], ns[i], f1, dest, f2 - f1 + 1)
  }

  lemma {:induction false} NoneToLog(ms: seq<LMark>, ns: seq<LMark>, f1: nat, f2: nat, dest: nat)
    requires |ns| == |ms| && 1 <= f1 <= f2 < dest
    requires forall i :: 0 <= i < |ms| ==> !Follows(ms[i], f1, dest) && WentDown(ms[i], ns[i], f1, dest, f2 - f1 + 1)
    ensures MarkLog(ns, dest - (f2 - f1 + 1), dest, false) == []
    decreases |ns|
  {
    if ns != [] {
      NoneToLog(ms[..|ms| - 1], ns[..|ns| - 1], f1, f2, dest);
    }
  }

  lemma {:induction false} MoveIs(t: Text, f1: nat, f2: nat, dest: nat)
    requires MoveOk(t, f1, f2, dest)
    ensures 1 <= f1 <= f2 <= |t| && dest <= |t|
    ensures f1 <= dest <= f2 ==> Moved(t, f1, f2, dest) == t
    ensures dest > f2 ==> Moved(t, f1, f2, dest) == TextDown(t, f1, dest, f2 - f1 + 1)
    ensures dest < f1 ==> Moved(t, f1, f2, dest) == TextUp(t, f1, dest, f2 - f1 + 1)
  {
  }

  lemma {:induction false} StartPositions(ms: seq<LMark>, ns: seq<LMark>, f1: nat, dest: nat)
    requires |ms| == |ns|
    requires forall i :: 0 <= i < |ms| ==>
               ns[i] == if f1 <= dest && Follows(ms[i], f1, dest) then ms[i].(userset := false) else ms[i]
    ensures forall i :: 0 <= i < |ms| ==> WentDown(ms[i], ns[i], f1, dest, 0)
    ensures dest < f1 ==> ns == ms
  {
  }

  /** After a downward move every mark but the "previous context" one is with its line, moved or not. */
  lemma {:induction false} MarkFollowsLine(t: Text, m: LMark, n: LMark, f1: nat, f2: nat, dest: nat)
    requires 1 <= f1 <= f2 < dest <= |t| && 1 <= m.lno <= |t| && m.name != ABSMARK1
    requires WentDown(m, n, f1, dest, f2 - f1 + 1)
    ensures 1 <= n.lno <= |t| == |Moved(t, f1, f2, dest)|
    ensures Moved(t, f1, f2, dest)[n.lno - 1] == t[m.lno - 1] && n.cno == m.cno && n.deleted == m.deleted
  {
    hide Moved;
    DownFollows(t, f1, f2, dest, m.lno);
  }

  /** One log_backward after a move puts every line back, and one log_forward moves them
      again. */
  lemma {:induction false} UndoMove(a: Journal, b: Journal, body: Log, at: Mark)
    requires Spelled(a, b, body, false) && body != [] && a.cursor.lno != OOBLNO
    ensures b.Closed(at).Undone().doc.text == a.doc.text
    ensures b.Closed(at).Undone().Redone().doc.text == b.doc.text
  {
    hide Spelled, Journal.Undone, Journal.Redone, Journal.Closed;
    UndoSpelled(a, b, body, at);
  }
}
