/** common/delete.c: one entry point, four cases, one meaning. */
module Delete {
  import opened Store
  import opened Undo
  import opened Commands
  import opened EditorModule

  /** What is left of a line after its first tc + 1 characters (tc is -1 for "before
      column 0"). */
  function Suffix(line: Line, tc: int): Line
    requires tc >= -1
  {
    if tc + 1 < |line| then line[tc + 1..] else ""
  }

  /** The first position is on its line, the second is not before it. */
  predicate Positions(t: Text, f: nat, fc: nat, l: nat, tc: int) {
    1 <= f <= l <= |t| && fc <= |t[f - 1]| && tc >= -1 && (f == l ==> fc <= tc + 1)
  }

  /** The file without the region from (f, fc) through (l, tc). */
  function Deleted(t: Text, f: nat, fc: nat, l: nat, tc: int): Text {
    if Positions(t, f, fc, l, tc) then t[..f - 1] + [t[f - 1][..fc] + Suffix(t[l - 1], tc)] + t[l..]
    else t
  }

  function WithoutLines(t: Text, f: nat, l: nat): Text {
    if 1 <= f <= l <= |t| then t[..f - 1] + t[l..] else t
  }

  /** The end is inside line l, before it, or on an empty line. */
  predicate EndsInside(t: Text, l: nat, tc: int) {
    1 <= l <= |t| && (tc < |t[l - 1]| || t[l - 1] == "")
  }

  /** What del asks of its callers: within one line, unless that is the last line of the file,
      the end is inside it. */
  predicate DelOk(t: Text, f: nat, fc: nat, l: nat, tc: int, lmode: bool) {
    if lmode then 1 <= f <= l <= |t|
    else Positions(t, f, fc, l, tc) && (f == l < |t| ==> EndsInside(t, l, tc))
  }

  /** The multi-line case refuses an end beyond a non-empty line that is not the last. */
  predicate DelFails(t: Text, f: nat, l: nat, tc: int, lmode: bool) {
    !lmode && f < l < |t| && !EndsInside(t, l, tc)
  }

  function DelResult(t: Text, f: nat, fc: nat, l: nat, tc: int, lmode: bool): Text {
    if DelFails(t, f, l, tc, lmode) then t
    else if lmode then WithoutLines(t, f, l)
    else Deleted(t, f, fc, l, tc)
  }

  // ----- a text as one string ------------------------------------------------------------------

  /** The lines with a newline between any two. */
  function Flat(t: Text): string {
    if t == [] then "" else if |t| == 1 then t[0] else Flat(t[..|t| - 1]) + "\n" + t[|t| - 1]
  }

  /** The text before a line that has lines a before it. */
  function FlatBefore(a: Text): string {
    if a == [] then "" else Flat(a) + "\n"
  }

  /** Where column c of line l is in the string. */
  function Offset(t: Text, l: nat, c: nat): nat
    requires 1 <= l <= |t|
  {
    |FlatBefore(t[..l - 1])| + c
  }

  lemma {:induction false} FlatSnoc(t: Text, p: Line)
    ensures Flat(t + [p]) == FlatBefore(t) + p
  {
    assert (t + [p])[..|t|] == t;
    if t == [] { assert "" + p == p; }
  }

  lemma {:induction false} FlatJoin(a: Text, b: Text)
    requires b != []
    ensures Flat(a + b) == FlatBefore(a) + Flat(b)
    decreases |b|
  {
    hide Flat;
    var n := |b| - 1;
    var m := b[..n];
    FlatSnoc(a + m, b[n]);
    FlatSnoc(m, b[n]);
    assert a + b == (a + m) + [b[n]] && b == m + [b[n]];
    if n == 0 {
      assert a + m == a && "" + b[n] == b[n];
    } else {
      FlatJoin(a, m);
      Regrouped(FlatBefore(a), Flat(m), "\n", b[n]);
    }
  }

  lemma {:induction false} Regrouped(a: string, b: string, c: string, e: string)
    ensures ((a + b) + c) + e == a + ((b + c) + e)
  {
  }

  lemma {:induction false} BeforeJoin(a: Text, b: Text)
    ensures FlatBefore(a + b) == FlatBefore(a) + FlatBefore(b)
  {
    hide Flat;
    if b == [] {
      assert a + b == a && FlatBefore(a) + "" == FlatBefore(a);
    } else {
      FlatJoin(a, b);
      assert FlatBefore(a) + Flat(b) + "\n" == FlatBefore(a) + (Flat(b) + "\n");
    }
  }

  lemma {:induction false} FlatOne(p: Line)
    ensures Flat([p]) == p
  {
  }

  /** One line of a text, and what is before and behind it. */
  lemma {:induction false} FlatAround(head: Text, p: Line, tail: Text)
    ensures Flat(head + [p] + tail) == FlatBefore(head) + p + FlatBehind(tail)
  {
    hide Flat;
    FlatOne(p);
    FlatJoin(head, [p]);
    if tail == [] {
      assert head + [p] + tail == head + [p] && FlatBefore(head) + p + "" == FlatBefore(head) + p;
    } else {
      FlatJoin(head + [p], tail);
      assert FlatBefore(head) + p + "\n" + Flat(tail) == FlatBefore(head) + p + ("\n" + Flat(tail));
    }
  }

  function FlatBehind(tail: Text): string {
    if tail == [] then "" else "\n" + Flat(tail)
  }

  /** The text up to a position is the string up to its offset, and the text from it on the string from there. */
  lemma {:induction false} FlatCut(t: Text, l: nat, c: nat)
    requires 1 <= l <= |t| && c <= |t[l - 1]|
    ensures Offset(t, l, c) <= |Flat(t)|
    ensures Flat(t)[..Offset(t, l, c)] == FlatBefore(t[..l - 1]) + t[l - 1][..c]
    ensures Flat(t)[Offset(t, l, c)..] == t[l - 1][c..] + FlatBehind(t[l..])
  {
    hide Flat, FlatBefore, FlatBehind;
    var a, p, b := FlatBefore(t[..l - 1]), t[l - 1], FlatBehind(t[l..]);
    assert t == t[..l - 1] + [p] + t[l..];
    FlatAround(t[..l - 1], p, t[l..]);
    assert a + p + b == (a + p[..c]) + (p[c..] + b);
  }

  /** del of characters takes one stretch out of the text: from the first position up to and with the second, or
      to the end of its line. */
  lemma {:induction false} DeletedIsStretch(t: Text, f: nat, fc: nat, l: nat, tc: int)
    requires Positions(t, f, fc, l, tc)
    ensures var end := if tc + 1 < |t[l - 1]| then tc + 1 else |t[l - 1]|;
            && Offset(t, f, fc) <= |Flat(t)| && Offset(t, l, end) <= |Flat(t)|
            && Flat(Deleted(t, f, fc, l, tc)) == Flat(t)[..Offset(t, f, fc)] + Flat(t)[Offset(t, l, end)..]
  {
    hide Flat, FlatBefore, FlatBehind, Offset;
    var end := if tc + 1 < |t[l - 1]| then tc + 1 else |t[l - 1]|;
    FlatCut(t, f, fc);
    FlatCut(t, l, end);
    var pre, suf := t[f - 1][..fc], t[l - 1][end..];
    assert suf == Suffix(t[l - 1], tc);
    FlatAround(t[..f - 1], pre + suf, t[l..]);
    var a, b := FlatBefore(t[..f - 1]), FlatBehind(t[l..]);
    assert a + (pre + suf) + b == (a + pre) + (suf + b);
  }

  /** The loop every case but one ends with: delete lines hi down to lo. */
  method DeleteLines(ed: Editor, hi: nat, lo: nat, ghost a: Journal, ghost es0: seq<Edit>)
    returns (ghost es: seq<Edit>)
    requires ed.Valid() && ed.Coherent() && 1 <= lo <= hi + 1 <= |ed.db| + 1
    requires Reached(a, ed.History(), es0, ed.noLog)
    modifies ed
    ensures ed.Valid() && ed.Coherent() && ed.noLog == old(ed.noLog) && ed.at == old(ed.at)
    ensures Reached(a, ed.History(), es, ed.noLog)
    ensures ed.db == old(ed.db)[..lo - 1] + old(ed.db)[hi..]
    ensures lo == hi ==> ed.cmds == CmdsInsDel(old(ed.cmds), true, lo)
    ensures Deletes(es0) ==> Deletes(es)
    ensures lo == hi ==> es == es0 + [DeleteLine(lo, old(ed.db[lo - 1]))]
  {
    hide Editor.CacheInBounds, Editor.LogInv, Editor.Coherent, Sorted, Reached, Run, Journal.Edited, DeleteAt, Deletes;
    ghost var t := ed.db;
    Whole(t, hi);
    es := es0;
    var lno := hi;
    while lno >= lo
      invariant lo - 1 <= lno <= hi
      invariant ed.Valid() && ed.Coherent() && ed.noLog == old(ed.noLog) && ed.at == old(ed.at)
      invariant Reached(a, ed.History(), es, ed.noLog)
      invariant ed.db == t[..lno] + t[hi..]
      invariant lno == hi ==> ed.cmds == old(ed.cmds)
      invariant lno == hi - 1 ==> ed.cmds == CmdsInsDel(old(ed.cmds), true, hi)
      invariant Deletes(es0) ==> Deletes(es)
      invariant lno == hi ==> es == es0
      invariant lno == hi - 1 ==> es == es0 + [DeleteLine(hi, t[hi - 1])]
    {
      DropLast(t, lno, hi);
      OneMoreDelete(es, lno, ed.db[lno - 1]);
      es := DeleteStep(ed, lno, a, es);
      lno := lno - 1;
    }
  }

  lemma {:induction false} OneMoreDelete(es: seq<Edit>, lno: nat, seen: Line)
    ensures Deletes(es) ==> Deletes(es + [DeleteLine(lno, seen)])
  {
  }

  lemma {:induction false} Whole(t: Text, n: nat)
    requires n <= |t|
    ensures t[..n] + t[n..] == t
  {
  }

  lemma {:induction false} DropLast(t: Text, lno: nat, hi: nat)
    requires 1 <= lno <= hi <= |t|
    ensures DeleteAt(t[..lno] + t[hi..], lno) == t[..lno - 1] + t[hi..]
    ensures |t[..lno] + t[hi..]| >= lno && (lno == hi ==> (t[..lno] + t[hi..])[lno - 1] == t[hi - 1])
  {
  }

  /** db_delete as one more edit of a run. */
  method DeleteStep(ed: Editor, lno: nat, ghost a: Journal, ghost es0: seq<Edit>) returns (ghost es: seq<Edit>)
    requires ed.Valid() && ed.Coherent() && 1 <= lno <= |ed.db|
    requires Reached(a, ed.History(), es0, ed.noLog)
    modifies ed
    ensures ed.Valid() && ed.Coherent() && ed.noLog == old(ed.noLog) && ed.at == old(ed.at)
    ensures es == es0 + [DeleteLine(lno, old(ed.db[lno - 1]))]
    ensures Reached(a, ed.History(), es, ed.noLog)
    ensures ed.db == DeleteAt(old(ed.db), lno)
    ensures ed.marks == MarksDelete(old(ed.marks), lno) && ed.cmds == CmdsInsDel(old(ed.cmds), true, lno)
  {
    hide Editor.CacheInBounds, Editor.LogInv, Sorted, Reached, Run, DeleteAt, Edit.Records;
    ghost var b, e := ed.History(), DeleteLine(lno, ed.db[lno - 1]);
    ed.DbDelete(lno);
    Extends(a, b, ed.History(), es0, e, ed.noLog);
    es := es0 + [e];
  }

  /** db_set as one more edit of a run. */
  method SetStep(ed: Editor, lno: nat, p: Line, ghost a: Journal, ghost es0: seq<Edit>) returns (ghost es: seq<Edit>)
    requires ed.Valid() && ed.Coherent() && (1 <= lno <= |ed.db| || (lno == 1 && ed.db == []))
    requires Reached(a, ed.History(), es0, ed.noLog)
    modifies ed
    ensures ed.Valid() && ed.Coherent() && ed.noLog == old(ed.noLog) && ed.at == old(ed.at)
    ensures es == es0 + [SetLine(lno, p)]
    ensures Reached(a, ed.History(), es, ed.noLog)
    ensures ed.db == SetAt(old(ed.db), lno, p) && ed.marks == old(ed.marks) && ed.cmds == old(ed.cmds)
  {
    hide Editor.CacheInBounds, Editor.LogInv, Editor.Coherent, Sorted, Reached, Run, SetAt,
         Edit.Records;
    ghost var b, e := ed.History(), SetLine(lno, p);
    ed.DbSet(lno, p);
    Extends(a, b, ed.History(), es0, e, ed.noLog);
    es := es0 + [e];
  }

  /** db_append as one more edit of a run. */
  method AppendStep(ed: Editor, lno: nat, p: Line, ghost a: Journal, ghost es0: seq<Edit>) returns (ghost es: seq<Edit>)
    requires ed.Valid() && ed.Coherent() && lno <= |ed.db|
    requires Reached(a, ed.History(), es0, ed.noLog)
    modifies ed
    ensures ed.Valid() && ed.Coherent() && ed.noLog == old(ed.noLog) && ed.at == old(ed.at)
    ensures es == es0 + [AppendLine(lno, p)]
    ensures Reached(a, ed.History(), es, ed.noLog)
    ensures ed.db == InsertAt(old(ed.db), lno + 1, p)
    ensures ed.marks == if |ed.db| == 1 then old(ed.marks) else MarksInsert(old(ed.marks), lno + 1)
    ensures ed.cmds == CmdsInsDel(old(ed.cmds), false, lno + 1)
  {
    hide Editor.CacheInBounds, Editor.LogInv, Editor.Coherent, Sorted, Reached, Run, InsertAt,
         Edit.Records;
    ghost var b, e := ed.History(), AppendLine(lno, p);
    ed.DbAppend(lno, p);
    Extends(a, b, ed.History(), es0, e, ed.noLog);
    es := es0 + [e];
  }

  /** db_get of an existing line through a coherent cache. */
  method GetLine(ed: Editor, lno: nat) returns (p: Line)
    requires ed.Valid() && ed.Coherent() && 1 <= lno <= |ed.db|
    modifies ed`cLno, ed`cLine
    ensures ed.Valid() && ed.Coherent()
    ensures p == ed.db[lno - 1]
  {
    hide Sorted, Editor.LogInv;
    var found;
    found, p := ed.DbGet(lno, false);
  }

  method Del(ed: Editor, fm: Mark, tlno: nat, tcno: int, lmode: bool) returns (err: bool, ghost es: seq<Edit>)
    requires ed.Valid() && ed.Coherent() && DelOk(ed.db, fm.lno, fm.cno, tlno, tcno, lmode)
    modifies ed
    ensures ed.Valid() && ed.Coherent() && ed.noLog == old(ed.noLog) && ed.at == old(ed.at)
    ensures Reached(old(ed.History()), ed.History(), es, ed.noLog)
    ensures err <==>
      !lmode && fm.lno < tlno < |old(ed.db)| && old(ed.db[tlno - 1]) != "" && tcno >= |old(ed.db[tlno - 1])|
    ensures ed.db == DelResult(old(ed.db), fm.lno, fm.cno, tlno, tcno, lmode)
    ensures err ==> es == []
    ensures lmode && fm.lno == tlno ==> ed.cmds == CmdsInsDel(old(ed.cmds), true, tlno)
    ensures lmode ==> Deletes(es)
    ensures lmode && fm.lno == tlno ==> es == [DeleteLine(tlno, old(ed.db[tlno - 1]))]
  {
    hide Editor.Valid, Editor.Coherent, Reached, Deleted, WithoutLines;
    ghost var a, t := ed.History(), ed.db;
    ReachedSelf(a, ed.noLog);
    es := [];
    err := false;

    // Whole lines.
    if lmode {
      es := DeleteLines(ed, tlno, fm.lno, a, es);
      LineCase(t, fm.lno, tlno);
      return;
    }

    // To the end of the file, or past it.
    var last := DbLastLine(ed);
    if tlno >= last {
      var eof := true;
      if tlno == last {
        var p := GetLine(ed, tlno);
        eof := tcno != -1 && tcno >= |p|;
        assert p == t[tlno - 1] && !eof ==> EndsInside(t, tlno, tcno);
      }
      if eof {
        es := DelToEof(ed, fm, tlno, tcno, a, t);
        return;
      }
    }

    // Inside one line.
    if tlno == fm.lno {
      es := DelWithin(ed, fm, tcno, a, t);
      return;
    }

    // From one line into another.
    err, es := DelAcross(ed, fm, tlno, tcno, a, t);
  }

  method DelToEof(ed: Editor, fm: Mark, tlno: nat, tcno: int, ghost a: Journal, ghost t: Text)
    returns (ghost es: seq<Edit>)
    requires ed.Valid() && ed.Coherent() && a == ed.History() && t == ed.db
    requires Positions(t, fm.lno, fm.cno, tlno, tcno) && tlno == |t| && tcno >= |t[tlno - 1]|
    modifies ed
    ensures ed.Valid() && ed.Coherent() && ed.noLog == old(ed.noLog) && ed.at == old(ed.at)
    ensures Reached(a, ed.History(), es, ed.noLog)
    ensures ed.db == Deleted(t, fm.lno, fm.cno, tlno, tcno)
  {
    hide Editor.Valid, Editor.Coherent, Reached, SetAt, Deleted, Positions;
    ReachedSelf(a, ed.noLog);
    Case2(t, fm.lno, fm.cno, tlno, tcno);
    es := DeleteLines(ed, tlno, fm.lno + 1, a, []);
    var p := GetLine(ed, fm.lno);
    es := SetStep(ed, fm.lno, p[..fm.cno], a, es);
  }

  method DelWithin(ed: Editor, fm: Mark, tcno: int, ghost a: Journal, ghost t: Text)
    returns (ghost es: seq<Edit>)
    requires ed.Valid() && ed.Coherent() && a == ed.History() && t == ed.db
    requires Positions(t, fm.lno, fm.cno, fm.lno, tcno) && EndsInside(t, fm.lno, tcno)
    modifies ed
    ensures ed.Valid() && ed.Coherent() && ed.noLog == old(ed.noLog) && ed.at == old(ed.at)
    ensures Reached(a, ed.History(), es, ed.noLog)
    ensures ed.db == Deleted(t, fm.lno, fm.cno, fm.lno, tcno)
  {
    hide Editor.Valid, Editor.Coherent, Reached, SetAt, Deleted, Positions, EndsInside;
    ReachedSelf(a, ed.noLog);
    Case3(t, fm.lno, fm.cno, tcno);
    es := [];
    var p := GetLine(ed, fm.lno);
    if |p| != 0 {
      es := SetStep(ed, fm.lno, p[..fm.cno] + p[tcno + 1..], a, es);
    }
  }

  method DelAcross(ed: Editor, fm: Mark, tlno: nat, tcno: int, ghost a: Journal, ghost t: Text)
    returns (err: bool, ghost es: seq<Edit>)
    requires ed.Valid() && ed.Coherent() && a == ed.History() && t == ed.db
    requires Positions(t, fm.lno, fm.cno, tlno, tcno) && fm.lno < tlno
    requires tlno == |t| ==> tcno < |t[tlno - 1]|
    modifies ed
    ensures ed.Valid() && ed.Coherent() && ed.noLog == old(ed.noLog) && ed.at == old(ed.at)
    ensures Reached(a, ed.History(), es, ed.noLog)
    ensures err == DelFails(t, fm.lno, tlno, tcno, false) && (err ==> es == [])
    ensures ed.db == if err then t else Deleted(t, fm.lno, fm.cno, tlno, tcno)
  {
    hide Editor.Valid, Editor.Coherent, Reached, SetAt, Deleted, Positions;
    ReachedSelf(a, ed.noLog);
    es := [];
    InPlace(t, fm.lno, fm.cno, tlno, tcno);

    // What stays of the first line,
    var bp := "";
    if fm.cno != 0 {
      var p := GetLine(ed, fm.lno);
      bp := p[..fm.cno];
    }
    // and of the last.
    var p := GetLine(ed, tlno);
    if |p| != 0 && tcno != |p| - 1 {
      if |p| < tcno + 1 {
        return true, es;
      }
      bp := bp + p[tcno + 1..];
    }
    Case4(t, fm.lno, fm.cno, tlno, tcno, bp);
    // The joined line first; then the lines it leaves over go.
    es := SetStep(ed, fm.lno, bp, a, es);
    es := DeleteLines(ed, tlno, fm.lno + 1, a, es);
    return false, es;
  }

  method DbLastLine(ed: Editor) returns (n: nat)
    requires ed.Valid() && ed.Coherent()
    modifies ed`cLno, ed`cLine, ed`cNlines
    ensures ed.Valid() && ed.Coherent()
    ensures n == |ed.db|
  {
    hide Sorted, Editor.LogInv;
    n := ed.DbLast();
  }

  lemma {:induction false} LineCase(t: Text, f: nat, l: nat)
    requires 1 <= f <= l <= |t|
    ensures t[..f - 1] + t[l..] == WithoutLines(t, f, l)
  {
  }

  lemma {:induction false} InPlace(t: Text, f: nat, fc: nat, l: nat, tc: int)
    requires Positions(t, f, fc, l, tc)
    ensures 1 <= f <= l <= |t| && fc <= |t[f - 1]| && tc >= -1
  {
  }

  lemma {:induction false} Case2(t: Text, f: nat, fc: nat, l: nat, tc: int)
    requires Positions(t, f, fc, l, tc) && l == |t| && tc >= |t[l - 1]|
    ensures 1 <= f <= l && fc <= |t[f - 1]|
    ensures var u := t[..f] + t[l..];
            && f <= |u| && u[f - 1] == t[f - 1]
            && SetAt(u, f, t[f - 1][..fc]) == Deleted(t, f, fc, l, tc)
  {
    assert t[f - 1][..fc] + "" == t[f - 1][..fc];
  }

  lemma {:induction false} Case3(t: Text, f: nat, fc: nat, tc: int)
    requires Positions(t, f, fc, f, tc) && EndsInside(t, f, tc)
    ensures 1 <= f <= |t| && fc <= |t[f - 1]| && tc >= -1
    ensures t[f - 1] == "" ==> t == Deleted(t, f, fc, f, tc)
    ensures t[f - 1] != "" ==> tc < |t[f - 1]| && SetAt(t, f, t[f - 1][..fc] + t[f - 1][tc + 1..]) == Deleted(t, f, fc, f, tc)
  {
    if t[f - 1] == "" {
      assert t[f - 1][..fc] + "" == t[f - 1];
    }
  }

  lemma {:induction false} Case4(t: Text, f: nat, fc: nat, l: nat, tc: int, p: Line)
    requires Positions(t, f, fc, l, tc) && f < l
    requires p == t[f - 1][..fc] + Suffix(t[l - 1], tc)
    ensures var u := SetAt(t, f, p);
            && l <= |u| && u[..f] + u[l..] == Deleted(t, f, fc, l, tc)
  {
  }
}
