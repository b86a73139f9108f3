/** The values the edit engine works on: lines, marks, pending ranges, log records.
    The database of lines is a sequence; line numbers count from 1 and 0 is
    "out of band", as in the source. */
module Store {
  type Line = string
  type Text = seq<Line>

  const OOBLNO: nat := 0

  datatype Option<+T> = None | Some(value: T)

  predicate IsBlank(c: char) {
    c == ' ' || c == '\t'
  }

  function SkipBlanks(t: string): (r: string)
    ensures |r| <= |t| && (r != "" ==> !IsBlank(r[0]))
    ensures t != "" && IsBlank(t[0]) ==> |r| < |t|
  {
    if t != "" && IsBlank(t[0]) then SkipBlanks(t[1..]) else t
  }

  // ----- lines -------------------------------------------------------------

  // Each of the three is the identity on a line number it cannot serve; the
  // callers below never pass one (see Editor.Valid and Record.InRange).
  function DeleteAt(t: Text, lno: nat): Text {
    if 1 <= lno <= |t| then t[..lno - 1] + t[lno..] else t
  }

  function InsertAt(t: Text, lno: nat, p: Line): Text {
    if 1 <= lno <= |t| + 1 then t[..lno - 1] + [p] + t[lno - 1..] else t
  }

  function SetAt(t: Text, lno: nat, p: Line): Text {
    if 1 <= lno <= |t| then t[lno - 1 := p]
    else if lno == |t| + 1 then t + [p]
    else t
  }

  // ----- marks -------------------------------------------------------------

  datatype Mark = Mark(lno: nat, cno: nat)
  datatype LMark = LMark(name: char, lno: nat, cno: nat, deleted: bool, userset: bool)

  const ABSMARK1: char := '\''
  const ABSMARK2: char := '`'

  function MarkKey(key: char): char {
    if key == ABSMARK2 then ABSMARK1 else key
  }

  ghost predicate Sorted(ms: seq<LMark>) {
    forall i, j :: 0 <= i < j < |ms| ==> ms[i].name < ms[j].name
  }

  /** What a name denotes: the entry carrying it, if there is one. */
  function Lookup(ms: seq<LMark>, key: char): Option<LMark> {
    if ms == [] then None
    else if ms[0].name == key then Some(ms[0])
    else Lookup(ms[1..], key)
  }

  /** How many leading entries sort before the key. */
  function Rank(ms: seq<LMark>, key: char): (r: nat)
    ensures r <= |ms|
  {
    if ms == [] || ms[0].name >= key then 0 else 1 + Rank(ms[1..], key)
  }

  function MarksSet(ms: seq<LMark>, name: char, m: Mark, userset: bool): seq<LMark> {
    var key := MarkKey(name);
    var r := Rank(ms, key);
    var new_ := LMark(key, m.lno, m.cno, false, userset);
    if r < |ms| && ms[r].name == key then
      if !userset && !ms[r].deleted && ms[r].userset then ms else ms[r := new_]
    else ms[..r] + [new_] + ms[r..]
  }

  /** A mark when line lno goes away: lost on it, moved up below it. */
  function MarkOnDelete(m: LMark, lno: nat): LMark {
    if m.lno == lno then m.(deleted := true)
    else if m.lno > lno then m.(lno := m.lno - 1)
    else m
  }

  function MarkOnInsert(m: LMark, lno: nat): LMark {
    if m.lno >= lno then m.(lno := m.lno + 1) else m
  }

  function MarksDelete(ms: seq<LMark>, lno: nat): (r: seq<LMark>)
    ensures |r| == |ms|
    ensures forall i :: 0 <= i < |ms| ==> r[i] == MarkOnDelete(ms[i], lno)
  {
    seq(|ms|, i requires 0 <= i < |ms| => MarkOnDelete(ms[i], lno))
  }

  function MarksInsert(ms: seq<LMark>, lno: nat): (r: seq<LMark>)
    ensures |r| == |ms|
    ensures forall i :: 0 <= i < |ms| ==> r[i] == MarkOnInsert(ms[i], lno)
  {
    seq(|ms|, i requires 0 <= i < |ms| => MarkOnInsert(ms[i], lno))
  }

  // ----- pending ranges of @ and global commands ----------------------------

  datatype Range = Range(start: nat, stop: nat)
  datatype Agv = NotAgv | At | AtNoRange | Global | GlobalV
  datatype ExCmd = ExCmd(agv: Agv, clen: nat, oclen: nat, ranges: seq<Range>, rangeLno: nat)

  predicate Tracked(c: ExCmd) {
    c.agv == At || c.agv == Global || c.agv == GlobalV
  }

  function RangeOnDelete(r: Range, lno: nat): Range
    requires lno >= 1
  {
    if r.stop < lno then r
    else if r.start >= lno then Range(r.start - 1, r.stop - 1)
    else Range(r.start, r.stop - 1)
  }

  function RangesDelete(rs: seq<Range>, lno: nat): (r: seq<Range>)
    requires lno >= 1
    ensures |r| == |rs|
  {
    if rs == [] then [] else [RangeOnDelete(rs[0], lno)] + RangesDelete(rs[1..], lno)
  }

  /** The upper half of a split range is visited again by the source's loop and so
      moves down by two. */
  function RangeOnInsert(r: Range, lno: nat): seq<Range>
    requires lno >= 1
  {
    if r.stop < lno then [r]
    else if r.start >= lno then [Range(r.start + 1, r.stop + 1)]
    else [Range(r.start, lno - 1), Range(lno + 2, r.stop + 2)]
  }

  function RangesInsert(rs: seq<Range>, lno: nat): seq<Range>
    requires lno >= 1
  {
    if rs == [] then [] else RangeOnInsert(rs[0], lno) + RangesInsert(rs[1..], lno)
  }

  function CmdInsDel(c: ExCmd, del: bool, lno: nat): ExCmd
    requires lno >= 1
  {
    if !Tracked(c) then c
    else c.(ranges := if del then RangesDelete(c.ranges, lno) else RangesInsert(c.ranges, lno),
            rangeLno := lno)
  }

  function CmdsInsDel(cs: seq<ExCmd>, del: bool, lno: nat): (r: seq<ExCmd>)
    requires lno >= 1
    ensures |r| == |cs|
    ensures forall i :: 0 <= i < |cs| ==> r[i] == CmdInsDel(cs[i], del, lno)
  {
    seq(|cs|, i requires 0 <= i < |cs| => CmdInsDel(cs[i], del, lno))
  }

  // ----- the document: everything a line edit moves together ----------------

  datatype Doc = Doc(text: Text, marks: seq<LMark>, cmds: seq<ExCmd>)

  function DocDelete(d: Doc, lno: nat): Doc {
    if lno == 0 then d
    else Doc(DeleteAt(d.text, lno), MarksDelete(d.marks, lno), CmdsInsDel(d.cmds, true, lno))
  }

  /** The first line of a file replaces "the line" of an empty one, so marks stay. */
  function DocInsert(d: Doc, lno: nat, p: Line): Doc {
    if lno == 0 then d
    else
      var t := InsertAt(d.text, lno, p);
      Doc(t, if |t| == 1 then d.marks else MarksInsert(d.marks, lno), CmdsInsDel(d.cmds, false, lno))
  }

  function DocSet(d: Doc, lno: nat, p: Line): Doc {
    d.(text := SetAt(d.text, lno, p))
  }

  function DocMark(d: Doc, name: char, m: Mark, userset: bool): Doc {
    d.(marks := MarksSet(d.marks, name, m, userset))
  }

  // ----- the caches -----------------------------------------------------------

  /** The one-line cache and the line count; a number of 0 says there is none. */
  datatype Cache = Cache(lno: nat, line: Line, nlines: nat)

  /** The cached bytes are those of the line. */
  predicate CacheAgrees(c: Cache, t: Text) {
    c.lno != OOBLNO ==> c.lno <= |t| && c.line == t[c.lno - 1]
  }

  function CacheDelete(c: Cache, lno: nat): Cache {
    Cache(if lno <= c.lno then OOBLNO else c.lno, c.line, if c.nlines != 0 then c.nlines - 1 else 0)
  }

  /** What db_insert leaves in the caches, t being the text with the new line: a cached line beyond
      it stays, and without a line count mark_insdel looks at line 2 and then at the last line. */
  function CacheInsert(c: Cache, t: Text, lno: nat): Cache {
    var f := Cache(if lno >= c.lno then OOBLNO else c.lno, c.line, if c.nlines != 0 then c.nlines + 1 else 0);
    if f.nlines != 0 || f.lno == 2 then f
    else if |t| >= 2 then Cache(2, t[1], 0)
    else if |t| == 1 then Cache(1, t[0], 1)
    else f
  }

  function CacheSet(c: Cache, lno: nat): Cache {
    if lno == c.lno then c.(lno := OOBLNO) else c
  }

  // ----- the log -------------------------------------------------------------

  datatype Record =
    | CursorInit(m: Mark)
    | CursorEnd(m: Mark)
    | LineAppend(lno: nat, line: Line)
    | LineDelete(lno: nat, line: Line)
    | LineInsert(lno: nat, line: Line)
    | LineResetF(lno: nat, line: Line)
    | LineResetB(lno: nat, line: Line)
    | LogMark(lm: LMark)
  {
    /** One step of log_backward. */
    function Undo(d: Doc): Doc {
      match this
      case LineAppend(l, _) => DocDelete(d, l)
      case LineInsert(l, _) => DocDelete(d, l)
      case LineDelete(l, p) => DocInsert(d, l, p)
      case LineResetB(l, p) => DocSet(d, l, p)
      case LogMark(lm) => DocMark(d, lm.name, Mark(lm.lno, lm.cno), false)
      case _ => d
    }

    /** One step of log_forward. */
    function Redo(d: Doc): Doc {
      match this
      case LineAppend(l, p) => DocInsert(d, l, p)
      case LineInsert(l, p) => DocInsert(d, l, p)
      case LineDelete(l, _) => DocDelete(d, l)
      case LineResetF(l, p) => DocSet(d, l, p)
      case LogMark(lm) => DocMark(d, lm.name, Mark(lm.lno, lm.cno), false)
      case _ => d
    }

    /** What one step of log_backward does to the caches of a file with text t. */
    function UndoCache(c: Cache, t: Text): Cache {
      match this
      case LineAppend(l, _) => CacheDelete(c, l)
      case LineInsert(l, _) => CacheDelete(c, l)
      case LineDelete(l, p) => CacheInsert(c, InsertAt(t, l, p), l)
      case LineResetB(l, _) => CacheSet(c, l)
      case _ => c
    }

    /** And one step of log_forward. */
    function RedoCache(c: Cache, t: Text): Cache {
      match this
      case LineAppend(l, p) => CacheInsert(c, InsertAt(t, l, p), l)
      case LineInsert(l, p) => CacheInsert(c, InsertAt(t, l, p), l)
      case LineDelete(l, _) => CacheDelete(c, l)
      case LineResetF(l, _) => CacheSet(c, l)
      case _ => c
    }

    /** The lines the recorded change added. */
    function Delta(): int {
      match this
      case LineAppend(_, _) => 1
      case LineInsert(_, _) => 1
      case LineDelete(_, _) => -1
      case _ => 0
    }

    /** The recorded line is in reach when the change has left n lines. */
    predicate InRange(n: int) {
      match this
      case LineAppend(l, _) => 1 <= l <= n
      case LineInsert(l, _) => 1 <= l <= n
      case LineDelete(l, _) => 1 <= l <= n + 1
      case LineResetF(l, _) => 1 <= l <= n
      case LineResetB(l, _) => 1 <= l <= n
      case _ => true
    }

    predicate IsChange() {
      !CursorInit? && !CursorEnd?
    }
  }

  type Log = seq<Record>

  function UndoAll(d: Doc, recs: Log): Doc
    decreases |recs|
  {
    if recs == [] then d
    else UndoAll(recs[|recs| - 1].Undo(d), recs[..|recs| - 1])
  }

  function RedoAll(d: Doc, recs: Log): Doc {
    if recs == [] then d
    else recs[|recs| - 1].Redo(RedoAll(d, recs[..|recs| - 1]))
  }

  /** The caches after undoing, and after redoing, records from a document. */
  function CacheUndone(c: Cache, d: Doc, recs: Log): Cache
    decreases |recs|
  {
    if recs == [] then c
    else
      var r := recs[|recs| - 1];
      CacheUndone(r.UndoCache(c, d.text), r.Undo(d), recs[..|recs| - 1])
  }

  function CacheRedone(c: Cache, d: Doc, recs: Log): Cache {
    if recs == [] then c
    else
      var init := recs[..|recs| - 1];
      recs[|recs| - 1].RedoCache(CacheRedone(c, d, init), RedoAll(d, init).text)
  }

  /** Where a log prefix stands in the grammar
        ( INIT change+ END )*,  change = APPEND | INSERT | DELETE | MARK | RESET_B RESET_F */
  datatype Phase = Between | Started | Changed | Half(lno: nat) | Bad

  function Next(p: Phase, r: Record): Phase {
    match r
    case CursorInit(_) => if p.Between? then Started else Bad
    case CursorEnd(_) => if p.Changed? then Between else Bad
    case LineResetB(l, _) => if p.Started? || p.Changed? then Half(l) else Bad
    case LineResetF(l, _) => if p == Half(l) then Changed else Bad
    case _ => if p.Started? || p.Changed? then Changed else Bad
  }

  function PhaseFrom(p: Phase, recs: Log): Phase {
    if recs == [] then p
    else Next(PhaseFrom(p, recs[..|recs| - 1]), recs[|recs| - 1])
  }

  function PhaseOf(recs: Log): Phase {
    PhaseFrom(Between, recs)
  }

  function Net(recs: Log): int {
    if recs == [] then 0 else Net(recs[..|recs| - 1]) + recs[|recs| - 1].Delta()
  }

  /** Walking back through recs from a file of n lines never misses a line. */
  predicate Fits(recs: Log, n: int) {
    recs == [] ||
    (recs[|recs| - 1].InRange(n) &&
     Fits(recs[..|recs| - 1], n - recs[|recs| - 1].Delta()))
  }

  /** Index of the last CURSOR_INIT. */
  function GroupStart(recs: Log): (k: nat)
    ensures recs != [] ==> k < |recs|
  {
    if recs == [] then 0
    else if recs[|recs| - 1].CursorInit? then |recs| - 1
    else GroupStart(recs[..|recs| - 1])
  }

  /** Length of the leading stretch up to and including the first CURSOR_END. */
  function GroupLength(recs: Log): (k: nat)
    ensures k <= |recs|
  {
    if recs == [] then 0
    else if recs[0].CursorEnd? then 1
    else 1 + GroupLength(recs[1..])
  }

  /** Length of the stretch that one log_forward goes over: whatever is not a change, and then up to and
      including the next CURSOR_END. */
  function RedoLength(recs: Log): (k: nat)
    ensures k <= |recs|
  {
    if recs == [] then 0
    else if recs[0].IsChange() then GroupLength(recs)
    else 1 + RedoLength(recs[1..])
  }

  /** What mark_insdel logs, in list order, for the marks on a line about to go. */
  function MarkRecords(ms: seq<LMark>, lno: nat): Log {
    if ms == [] then []
    else
      var m := ms[|ms| - 1];
      MarkRecords(ms[..|ms| - 1], lno) + if m.lno == lno then [LogMark(m.(deleted := true))] else []
  }

  // ----- edits ---------------------------------------------------------------

  /** One call of a db_ entry point.  A deletion carries the bytes db_get answered
      for the line, which the one-line cache may have served. */
  datatype Edit =
    | SetLine(lno: nat, p: Line)
    | AppendLine(lno: nat, p: Line)
    | InsertLine(lno: nat, p: Line)
    | DeleteLine(lno: nat, seen: Line)
  {
    /** The line number names a line the source lets the call reach. */
    predicate Ok(t: Text) {
      match this
      case SetLine(l, _) => 1 <= l <= |t| || (l == 1 && t == [])
      case AppendLine(l, _) => l <= |t|
      case InsertLine(l, _) => 1 <= l <= |t| + 1
      case DeleteLine(l, _) => 1 <= l <= |t|
    }

    function Apply(d: Doc): Doc {
      match this
      case SetLine(l, p) => DocSet(d, l, p)
      case AppendLine(l, p) => DocInsert(d, l + 1, p)
      case InsertLine(l, p) => DocInsert(d, l, p)
      case DeleteLine(l, _) => DocDelete(d, l)
    }

    function Records(d: Doc): Log {
      match this
      case SetLine(l, p) =>
        [LineResetB(l, if 1 <= l <= |d.text| then d.text[l - 1] else ""), LineResetF(l, p)]
      case AppendLine(l, p) => [LineAppend(l + 1, p)]
      case InsertLine(l, p) => [LineInsert(l, p)]
      case DeleteLine(l, seen) => MarkRecords(d.marks, l) + [LineDelete(l, seen)]
    }
  }

  /** The log as the editor sees it: records below l_cur, records from l_cur up to
      l_high, and the cursor that the next group will open with (line 0 while a
      group is open). */
  datatype Journal = Journal(doc: Doc, done: Log, undone: Log, cursor: Mark)
  {
    function Opened(): Log {
      if cursor.lno != OOBLNO then done + [CursorInit(cursor)] else done
    }

    function Edited(e: Edit): Journal {
      Journal(e.Apply(doc), Opened() + e.Records(doc), [], Mark(OOBLNO, cursor.cno))
    }

    function Closed(at: Mark): Journal {
      if cursor.lno == OOBLNO then Journal(doc, done + [CursorEnd(at)], [], at)
      else this.(cursor := at)
    }

    function Undone(): Journal {
      var k := GroupStart(done);
      Journal(UndoAll(doc, done[k..]), done[..k], done[k..] + undone, cursor)
    }

    function Redone(): Journal {
      var k := RedoLength(undone);
      Journal(RedoAll(doc, undone[..k]), done + undone[..k], undone[k..], cursor)
    }
  }
}
