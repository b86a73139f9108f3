/** common/put.c: text from a cut buffer into the file. */
module Put {
  import opened Store
  import opened Undo
  import opened Commands
  import opened EditorModule
  import opened Delete
  import opened Cut

  function Repeat(x: seq<Line>, n: nat): seq<Line> {
    if n == 0 then [] else Repeat(x, n - 1) + x
  }

  function Times(p: Line, n: nat): Line {
    if n == 0 then "" else Times(p, n - 1) + p
  }

  /** What a character mode put with a count puts: the first line of the buffer cnt times, the others once. */
  function Counted(x: seq<Line>, cnt: nat): seq<Line> {
    if x == [] then x else [Times(x[0], cnt)] + x[1..]
  }

  /** Lines x after line lno. */
  function LinesAfter(t: Text, lno: nat, x: seq<Line>): Text {
    if lno <= |t| then t[..lno] + x + t[lno..] else t
  }

  /** Characters x, spanning lines, into line lno at column c. */
  function Spliced(t: Text, lno: nat, c: nat, x: seq<Line>): Text {
    if !(1 <= lno <= |t|) || c > |t[lno - 1]| || x == [] then t
    else
      var pre, suf, n := t[lno - 1][..c], t[lno - 1][c..], |x| - 1;
      t[..lno - 1] + (if n == 0 then [pre + x[0] + suf] else [pre + x[0]] + x[1..n] + [x[n] + suf]) + t[lno..]
  }

  /** The line a line mode put goes after: the "line" of an empty file is replaced. */
  function PutLine(t: Text, lno: nat, append: bool): int {
    if lno == 1 && t == [] then 0 else if append then lno else lno - 1
  }

  /** An empty file is one empty line to a character mode put. */
  function PutText(t: Text, x: seq<Line>, lmode: bool, cp: Mark, append: bool, cnt: nat): Text {
    if lmode then
      if PutLine(t, cp.lno, append) >= 0 then LinesAfter(t, PutLine(t, cp.lno, append), Repeat(x, cnt)) else t
    else Spliced(if t == [] then [""] else t, cp.lno, if t == [] || cp.lno > |t| || cp.lno == 0 || t[cp.lno - 1] == "" then 0
                                                      else cp.cno + if append then 1 else 0, Counted(x, cnt))
  }

  /** What put asks of its callers: in line mode a line number to put at, in character mode a
      column of the line, if the line is there and not empty. */
  predicate PutOk(t: Text, x: seq<Line>, lmode: bool, cp: Mark, append: bool) {
    && x != []
    && if lmode then 0 <= PutLine(t, cp.lno, append) <= |t|
       else cp.lno >= 1 &&
            (cp.lno <= |t| && t[cp.lno - 1] != "" ==> cp.cno + (if append then 1 else 0) <= |t[cp.lno - 1]|)
  }

  predicate PutFails(t: Text, lmode: bool, cp: Mark) {
    !lmode && cp.lno > |t| && !(t == [] && cp.lno == 1)
  }

  /** The loop that appends each line of the buffer after lno. */
  method AppendLines(ed: Editor, lno0: nat, x: seq<Line>, ghost a: Journal, ghost es0: seq<Edit>)
    returns (lno: nat, ghost es: seq<Edit>)
    requires ed.Valid() && ed.Coherent() && lno0 <= |ed.db|
    requires Reached(a, ed.History(), es0, ed.noLog)
    modifies ed
    ensures ed.Valid() && ed.Coherent() && ed.noLog == old(ed.noLog) && ed.at == old(ed.at)
    ensures Reached(a, ed.History(), es, ed.noLog)
    ensures lno == lno0 + |x|
    ensures ed.db == LinesAfter(old(ed.db), lno0, x)
  {
    hide Editor.Valid, Editor.Coherent, Reached, LinesAfter, InsertAt;
    ghost var t := ed.db;
    es, lno := es0, lno0;
    var j := 0;
    NothingAfter(t, lno0, x);
    while j < |x|
      invariant 0 <= j <= |x| && lno == lno0 + j
      invariant ed.Valid() && ed.Coherent() && ed.noLog == old(ed.noLog) && ed.at == old(ed.at)
      invariant Reached(a, ed.History(), es, ed.noLog)
      invariant ed.db == LinesAfter(t, lno0, x[..j]) && |ed.db| == |t| + j
    {
      es := AppendStep(ed, lno, x[j], a, es);
      OneMoreAfter(t, lno0, x, j);
      lno, j := lno + 1, j + 1;
    }
    assert x[..j] == x;
  }

  lemma {:induction false} NothingAfter(t: Text, lno: nat, x: seq<Line>)
    requires lno <= |t|
    ensures LinesAfter(t, lno, x[..0]) == t
  {
  }

  lemma {:induction false} OneMoreAfter(t: Text, lno: nat, x: seq<Line>, j: nat)
    requires lno <= |t| && j < |x|
    ensures InsertAt(LinesAfter(t, lno, x[..j]), lno + j + 1, x[j]) == LinesAfter(t, lno, x[..j + 1])
    ensures |LinesAfter(t, lno, x[..j + 1])| == |t| + j + 1
  {
    assert x[..j + 1] == x[..j] + [x[j]];
  }

  lemma {:induction false} AfterTwice(t: Text, lno: nat, x: seq<Line>, y: seq<Line>)
    requires lno <= |t|
    ensures LinesAfter(LinesAfter(t, lno, x), lno + |x|, y) == LinesAfter(t, lno, x + y)
    ensures |LinesAfter(t, lno, x)| == |t| + |x|
  {
  }

  /** cnt copies of the buffer's lines, one after another. */
  method AppendCopies(ed: Editor, lno0: nat, x: seq<Line>, cnt: nat, ghost a: Journal) returns (ghost es: seq<Edit>)
    requires ed.Valid() && ed.Coherent() && lno0 <= |ed.db| && a == ed.History()
    modifies ed
    ensures ed.Valid() && ed.Coherent() && ed.noLog == old(ed.noLog) && ed.at == old(ed.at)
    ensures Reached(a, ed.History(), es, ed.noLog)
    ensures ed.db == LinesAfter(old(ed.db), lno0, Repeat(x, cnt))
  {
    hide Editor.Valid, Editor.Coherent, Reached, LinesAfter;
    ReachedSelf(a, ed.noLog);
    NothingAfter(ed.db, lno0, x);
    assert x[..0] == [];
    ghost var t := ed.db;
    es := [];
    var lno, i := lno0, cnt;
    while i > 0
      invariant 0 <= i <= cnt
      invariant ed.Valid() && ed.Coherent() && ed.noLog == old(ed.noLog) && ed.at == old(ed.at)
      invariant Reached(a, ed.History(), es, ed.noLog)
      invariant lno == lno0 + |Repeat(x, cnt - i)| <= |ed.db|
      invariant ed.db == LinesAfter(t, lno0, Repeat(x, cnt - i))
    {
      AfterTwice(t, lno0, Repeat(x, cnt - i), x);
      lno, es := AppendLines(ed, lno, x, a, es);
      AfterTwice(t, lno0, Repeat(x, cnt - i + 1), x);
      i := i - 1;
    }
  }

  function LineAt(t: Text, lno: nat): Line {
    if 1 <= lno <= |t| then t[lno - 1] else ""
  }

  /** The column of a line's first character that is not blank, or of its last. */
  function InkColumn(p: Line): (c: nat)
    ensures p == "" ==> c == 0
    ensures p != "" ==> c < |p| && (forall i :: 0 <= i < c ==> IsBlank(p[i])) && (c < |p| - 1 ==> !IsBlank(p[c]))
  {
    if |p| <= 1 || !IsBlank(p[0]) then 0
    else
      var c := InkColumn(p[1..]);
      assert forall i :: 1 <= i < |p| ==> p[i] == p[1..][i - 1];
      c + 1
  }

  lemma {:induction false} InkColumnIs(p: Line, c: nat)
    requires c < |p| && (forall i :: 0 <= i < c ==> IsBlank(p[i])) && (c < |p| - 1 ==> !IsBlank(p[c]))
    ensures InkColumn(p) == c
  {
    if c > 0 { InkColumnIs(p[1..], c - 1); }
  }

  /** nonblank, from the start of the line. */
  method NonBlank(ed: Editor, lno: nat) returns (cno: nat)
    requires ed.Valid() && ed.Coherent()
    modifies ed`cLno, ed`cLine
    ensures ed.Valid() && ed.Coherent()
    ensures cno == InkColumn(LineAt(ed.db, lno))
  {
    hide Sorted, Editor.LogInv, InkColumn;
    var found, p := ed.DbGet(lno, false);
    if !found || |p| == 0 {
      NoInk();
      return 0;
    }
    cno := 0;
    while cno < |p| && IsBlank(p[cno])
      invariant 0 <= cno <= |p| && forall i :: 0 <= i < cno ==> IsBlank(p[i])
    {
      cno := cno + 1;
    }
    if cno == |p| { cno := cno - 1; }
    InkColumnIs(p, cno);
  }

  lemma {:induction false} NoInk()
    ensures InkColumn("") == 0
  {
  }

  /** The mark put returns: the first character of the first line put, blanks aside, or the first of the
      characters put, counted from the screen's column. */
  function PutMark(t: Text, u: Text, x: seq<Line>, lmode: bool, cp: Mark, append: bool, col: nat): Mark {
    if lmode then
      var lno := PutLine(t, cp.lno, append) + 1;
      if t == [] && cp.lno == 1 then Mark(1, 0) else if lno >= 0 then Mark(lno, InkColumn(LineAt(u, lno))) else cp
    else Mark(cp.lno, if LineAt(t, cp.lno) == "" then 0 else col + if append && x != [] && x[0] != "" then 1 else 0)
  }

  // ----- what a count is, line by line and character by character --------------------------------

  lemma {:induction false} FewerTimes(a: nat, b: nat, m: nat)
    requires a < b
    ensures a * m + m <= b * m
  {
    assert b * m == a * m + (b - a) * m;
    assert (b - a) * m == m + (b - a - 1) * m;
  }

  lemma {:induction false} ModOf(i: nat, k: nat, m: nat)
    requires m > 0 && k * m <= i < k * m + m
    ensures i % m == i - k * m
  {
    var q := i / m;
    if q < k {
      FewerTimes(q, k, m);
    } else if q > k {
      FewerTimes(k, q, m);
    }
  }

  lemma {:induction false} RepeatAt(x: seq<Line>, n: nat)
    requires x != []
    ensures |Repeat(x, n)| == n * |x|
    ensures forall i :: 0 <= i < n * |x| ==> Repeat(x, n)[i] == x[i % |x|]
  {
    if n > 0 {
      RepeatAt(x, n - 1);
      var k := (n - 1) * |x|;
      assert n * |x| == k + |x|;
      forall i | 0 <= i < n * |x| ensures Repeat(x, n)[i] == x[i % |x|] {
        if i >= k { ModOf(i, n - 1, |x|); }
      }
    }
  }

  lemma {:induction false} TimesAt(p: Line, n: nat)
    ensures |Times(p, n)| == n * |p|
    ensures p != "" ==> forall i :: 0 <= i < n * |p| ==> Times(p, n)[i] == p[i % |p|]
  {
    if n > 0 {
      TimesAt(p, n - 1);
      var k := (n - 1) * |p|;
      assert n * |p| == k + |p|;
      if p != "" {
        forall i | 0 <= i < n * |p| ensures Times(p, n)[i] == p[i % |p|] {
          if i >= k { ModOf(i, n - 1, |p|); }
        }
      }
    }
  }

  /** Behind the first l lines of t, u has the lines x over and over, cnt times, and is t otherwise. */
  ghost predicate LinesPut(t: Text, u: Text, l: int, x: seq<Line>, cnt: nat) {
    var n := cnt * |x|;
    && 0 <= l <= |t| && x != [] && |u| == |t| + n && u[..l] == t[..l] && u[l + n..] == t[l..]
    && forall i :: 0 <= i < n ==> u[l + i] == x[i % |x|]
  }

  /** At column c of line lno of t, u has the first of the lines x over and over, cnt times, and then the others
      once, the last of them before what was behind the column, and is t otherwise. */
  ghost predicate CharsPut(t: Text, u: Text, lno: nat, c: nat, x: seq<Line>, cnt: nat) {
    && 1 <= lno <= |t| && c <= |t[lno - 1]| && x != [] && |u| == |t| + |x| - 1
    && u[..lno - 1] == t[..lno - 1] && u[lno + |x| - 1..] == t[lno..]
    && var v := u[lno - 1..lno + |x| - 1];
       var p, q, n := t[lno - 1], v[0], cnt * |x[0]|;
       && |q| == c + n + (if |x| == 1 then |p| - c else 0) && q[..c] == p[..c]
       && (forall i :: 0 <= i < n ==> q[c + i] == x[0][i % |x[0]|])
       && (|x| == 1 ==> q[c + n..] == p[c..])
       && (forall k :: 0 < k < |x| - 1 ==> v[k] == x[k])
       && (|x| > 1 ==> v[|x| - 1] == x[|x| - 1] + p[c..])
  }

  /** A line mode put. */
  lemma {:induction false} LinesArePut(t: Text, x: seq<Line>, cp: Mark, append: bool, cnt: nat)
    requires PutOk(t, x, true, cp, append)
    ensures LinesPut(t, PutText(t, x, true, cp, append, cnt),
                     if t == [] && cp.lno == 1 then 0 else if append then cp.lno else cp.lno - 1, x, cnt)
  {
    hide Repeat;
    RepeatAt(x, cnt);
    var l, y := PutLine(t, cp.lno, append), Repeat(x, cnt);
    assert LinesAfter(t, l, y)[l + |y|..] == t[l..];
  }

  /** And one in character mode. */
  lemma {:induction false} CharsArePut(t: Text, x: seq<Line>, cp: Mark, append: bool, cnt: nat)
    requires PutOk(t, x, false, cp, append) && (1 <= cp.lno <= |t| || (t == [] && cp.lno == 1))
    ensures var t' := if t == [] then [""] else t;
            CharsPut(t', PutText(t, x, false, cp, append, cnt), cp.lno,
                     if t'[cp.lno - 1] == "" then 0 else cp.cno + if append then 1 else 0, x, cnt)
  {
    hide Times, Counted, Spliced, PutText;
    CharsText(t, x, cp, append, cnt);
    var t' := if t == [] then [""] else t;
    var c := if t'[cp.lno - 1] == "" then 0 else cp.cno + if append then 1 else 0;
    SpliceIsPut(t', cp.lno, c, x, cnt);
  }

  lemma {:induction false} SpliceIsPut(t: Text, lno: nat, c: nat, x: seq<Line>, cnt: nat)
    requires 1 <= lno <= |t| && c <= |t[lno - 1]| && x != []
    ensures CharsPut(t, Spliced(t, lno, c, Counted(x, cnt)), lno, c, x, cnt)
  {
    hide Times, Spliced, Counted, LaterLines, CharsPut;
    var y, p := Counted(x, cnt), t[lno - 1];
    CountedIs(x, cnt);
    SplicedIs(t, lno, c, y);
    var pre, suf := p[..c], p[c..];
    var later := LaterLines(y[1..], suf);
    FirstLine(pre, x[0], cnt, if |x| == 1 then suf else "");
    LaterAre(x[1..], suf);
    var first := pre + y[0] + if |y| == 1 then suf else "";
    Between(t[..lno - 1], [first] + later, t[lno..]);
    PutTogether(t, Spliced(t, lno, c, y), lno, c, x, cnt, first, later);
  }

  lemma {:induction false} PutTogether(t: Text, u: Text, lno: nat, c: nat, x: seq<Line>, cnt: nat, first: Line,
                                       later: seq<Line>)
    requires 1 <= lno <= |t| && c <= |t[lno - 1]| && x != [] && |later| == |x| - 1
    requires |u| == |t| + |x| - 1 && u[..lno - 1] == t[..lno - 1] && u[lno + |x| - 1..] == t[lno..]
    requires u[lno - 1..lno + |x| - 1] == [first] + later
    requires var pre, end, n := t[lno - 1][..c], if |x| == 1 then t[lno - 1][c..] else "", cnt * |x[0]|;
             && |first| == c + n + |end| && first[..c] == pre && first[c + n..] == end
             && (forall i :: 0 <= i < n ==> first[c + i] == x[0][i % |x[0]|])
    requires forall k :: 0 <= k < |later| - 1 ==> later[k] == x[1..][k]
    requires later != [] ==> later[|later| - 1] == x[1..][|later| - 1] + t[lno - 1][c..]
    ensures CharsPut(t, u, lno, c, x, cnt)
  {
    var v := u[lno - 1..lno + |x| - 1];
    forall k | 0 < k < |x| ensures v[k] == later[k - 1] && x[k] == x[1..][k - 1] {
    }
  }

  lemma {:induction false} FirstLine(pre: Line, p: Line, cnt: nat, end: Line)
    ensures var q, n := pre + Times(p, cnt) + end, cnt * |p|;
            && |q| == |pre| + n + |end| && q[..|pre|] == pre && q[|pre| + n..] == end
            && (forall i :: 0 <= i < n ==> q[|pre| + i] == p[i % |p|])
  {
    hide Times;
    TimesAt(p, cnt);
    var q := pre + Times(p, cnt) + end;
    assert forall i :: 0 <= i < |Times(p, cnt)| ==> q[|pre| + i] == Times(p, cnt)[i];
  }

  lemma {:induction false} LaterAre(x: seq<Line>, suf: Line)
    ensures var r := LaterLines(x, suf);
            && |r| == |x| && (forall k :: 0 <= k < |x| - 1 ==> r[k] == x[k])
            && (x != [] ==> r[|x| - 1] == x[|x| - 1] + suf)
  {
  }

  lemma {:induction false} Between(head: Text, mid: Text, tail: Text)
    ensures var u := head + mid + tail;
            && |u| == |head| + |mid| + |tail| && u[..|head|] == head && u[|head| + |mid|..] == tail
            && u[|head|..|head| + |mid|] == mid
  {
  }

  /** put, of the buffer b. */
  method Put(ed: Editor, b: Buffer, cp: Mark, append: bool, cnt: nat)
    returns (err: bool, rp: Mark, ghost es: seq<Edit>)
    requires ed.Valid() && ed.Coherent() && PutOk(ed.db, b.text, b.lmode, cp, append)
    modifies ed
    ensures ed.Valid() && ed.Coherent() && ed.noLog == old(ed.noLog) && ed.at == old(ed.at)
    ensures Reached(old(ed.History()), ed.History(), es, ed.noLog)
    ensures ed.db == if err then old(ed.db) else PutText(old(ed.db), b.text, b.lmode, cp, append, cnt)
    ensures err <==> !b.lmode && cp.lno > |old(ed.db)| && !(old(ed.db) == [] && cp.lno == 1)
    ensures b.lmode ==>
      var l := if old(ed.db) == [] && cp.lno == 1 then 0 else if append then cp.lno else cp.lno - 1;
      && LinesPut(old(ed.db), ed.db, l, b.text, cnt) && rp.lno == l + 1
      && if (old(ed.db) == [] && cp.lno == 1) || l + 1 > |ed.db| || ed.db[l] == "" then rp.cno == 0
         else AtInk(ed.db[l], rp.cno)
    ensures !b.lmode && !err ==>
      var t := if old(ed.db) == [] then [""] else old(ed.db);
      && CharsPut(t, ed.db, cp.lno, if t[cp.lno - 1] == "" then 0 else cp.cno + if append then 1 else 0, b.text, cnt)
      && rp == Mark(cp.lno, if t[cp.lno - 1] == "" then 0 else ed.at.cno + if append && b.text[0] != "" then 1 else 0)
  {
    hide Editor.Valid, Editor.Coherent, Reached, LinesAfter, Spliced, InkColumn, Counted, Repeat, LinesPut,
         CharsPut, AtInk;
    ghost var a, t := ed.History(), ed.db;
    ReachedSelf(a, ed.noLog);
    PutMeans(t, b.text, b.lmode, cp, append, cnt, ed.at.cno);

    // With no lines yet, the lines put are the file.
    if cp.lno == 1 {
      var last := DbLastLine(ed);
      if last == 0 && b.lmode {
        es := AppendCopies(ed, 0, b.text, cnt, a);
        return false, Mark(1, 0), es;
      }
    }
    // Whole lines go in one after another.
    if b.lmode {
      var lno := if append then cp.lno else cp.lno - 1;
      es := AppendCopies(ed, lno, b.text, cnt, a);
      var cno := NonBlank(ed, lno + 1);
      return false, Mark(lno + 1, cno), es;
    }
    err, rp, es := PutChars(ed, b.text, cp, append, cnt, a, t);
  }

  /** The column of a line's first character that is no blank, or of its last. */
  predicate AtInk(p: Line, c: nat) {
    c < |p| && (forall i :: 0 <= i < c ==> p[i] == ' ' || p[i] == '\t') && (c < |p| - 1 ==> p[c] != ' ' && p[c] != '\t')
  }

  lemma {:induction false} InkIs(p: Line)
    ensures if p == "" then InkColumn(p) == 0 else AtInk(p, InkColumn(p))
  {
  }

  /** What put leaves, and the mark it returns. */
  lemma {:induction false} PutMeans(t: Text, x: seq<Line>, lmode: bool, cp: Mark, append: bool, cnt: nat, col: nat)
    requires PutOk(t, x, lmode, cp, append)
    ensures PutFails(t, lmode, cp) <==> !lmode && cp.lno > |t| && !(t == [] && cp.lno == 1)
    ensures lmode ==>
      var l := if t == [] && cp.lno == 1 then 0 else if append then cp.lno else cp.lno - 1;
      var u := PutText(t, x, lmode, cp, append, cnt);
      var rp := PutMark(t, u, x, lmode, cp, append, col);
      && LinesPut(t, u, l, x, cnt) && rp.lno == l + 1
      && if (t == [] && cp.lno == 1) || l + 1 > |u| || u[l] == "" then rp.cno == 0 else AtInk(u[l], rp.cno)
    ensures !lmode && !PutFails(t, lmode, cp) ==>
      var t' := if t == [] then [""] else t;
      var u := PutText(t, x, lmode, cp, append, cnt);
      && CharsPut(t', u, cp.lno, if t'[cp.lno - 1] == "" then 0 else cp.cno + if append then 1 else 0, x, cnt)
      && PutMark(t, u, x, lmode, cp, append, col) ==
         Mark(cp.lno, if t'[cp.lno - 1] == "" then 0 else col + if append && x[0] != "" then 1 else 0)
  {
    hide PutText, LinesPut, CharsPut, AtInk, InkColumn;
    var u := PutText(t, x, lmode, cp, append, cnt);
    if lmode {
      LinesArePut(t, x, cp, append, cnt);
      LinesStart(t, u, PutLine(t, cp.lno, append), x, cnt);
      InkIs(LineAt(u, PutLine(t, cp.lno, append) + 1));
    } else if !PutFails(t, lmode, cp) {
      CharsArePut(t, x, cp, append, cnt);
    }
  }

  lemma {:induction false} LinesStart(t: Text, u: Text, l: int, x: seq<Line>, cnt: nat)
    requires LinesPut(t, u, l, x, cnt)
    ensures 0 <= l <= |t| <= |u|
  {
  }

  /** The character mode half of put. */
  method PutChars(ed: Editor, x: seq<Line>, cp: Mark, append: bool, cnt: nat, ghost a: Journal, ghost t: Text)
    returns (err: bool, rp: Mark, ghost es: seq<Edit>)
    requires ed.Valid() && ed.Coherent() && a == ed.History() && t == ed.db
    requires PutOk(t, x, false, cp, append)
    modifies ed
    ensures ed.Valid() && ed.Coherent() && ed.noLog == old(ed.noLog) && ed.at == old(ed.at)
    ensures Reached(a, ed.History(), es, ed.noLog)
    ensures err == PutFails(t, false, cp)
    ensures ed.db == if err then t else PutText(t, x, false, cp, append, cnt)
    ensures !err ==> rp == PutMark(t, ed.db, x, false, cp, append, ed.at.cno)
  {
    hide Editor.Valid, Editor.Coherent, Reached, LinesAfter, Spliced, SetAt, PutText, PutOk, Counted, Times,
         InsertAt;
    ReachedSelf(a, ed.noLog);
    es := [];
    var lno := cp.lno;
    CharsText(t, x, cp, append, cnt);

    // The line the text goes into.
    var last := DbLastLine(ed);
    var p := "";
    if lno <= last {
      p := GetLine(ed, lno);
    } else if lno != 1 || last != 0 {
      return true, cp, es;
    }
    rp := Mark(lno, if |p| == 0 then 0 else ed.at.cno + if append && |x[0]| != 0 then 1 else 0);
    var clen := if |p| > 0 then cp.cno + (if append then 1 else 0) else 0;
    var first := PutFirst(p[..clen], x[0], cnt);
    var rest := p[clen..];
    StepsText(t, lno, clen, x, cnt, first, rest);

    if |x| == 1 {
      es := SetStep(ed, lno, first + rest, a, es);
    } else {
      // The last line is built before any set, which would lose the cached line.
      var final := x[|x| - 1] + rest;
      es := SetStep(ed, lno, first, a, es);
      lno, es := AppendLines(ed, lno, x[1..|x| - 1], a, es);
      es := AppendStep(ed, lno, final, a, es);
    }
    return false, rp, es;
  }

  /** The copies of the buffer's first line. */
  method PutFirst(bp: Line, lb: Line, cnt: nat) returns (t: Line)
    ensures t == bp + Times(lb, cnt)
  {
    t := bp;
    if |lb| != 0 {
      var i := cnt;
      while i > 0
        invariant 0 <= i <= cnt && t == bp + Times(lb, cnt - i)
      {
        assert bp + Times(lb, cnt - i) + lb == bp + Times(lb, cnt - i + 1);
        t, i := t + lb, i - 1;
      }
    } else {
      NoText(cnt);
    }
  }

  lemma {:induction false} NoText(cnt: nat)
    ensures Times("", cnt) == ""
  {
    if cnt > 0 { NoText(cnt - 1); }
  }

  lemma {:induction false} CountedIs(x: seq<Line>, cnt: nat)
    requires x != []
    ensures var y := Counted(x, cnt);
            && |y| == |x| && y[0] == Times(x[0], cnt) && y[1..] == x[1..] && y[1..|x|] == x[1..|x|]
            && (|x| > 1 ==> y[|x| - 1] == x[|x| - 1] && y[1..|x| - 1] == x[1..|x| - 1])
  {
  }

  lemma {:induction false} CountedOnce(x: seq<Line>)
    ensures Counted(x, 1) == x
  {
    if x != [] {
      assert Times(x[0], 0) + x[0] == x[0];
      assert [x[0]] + x[1..] == x;
    }
  }

  /** A count changes the first line put and no other, so only a buffer of one line is repeated. */
  lemma {:induction false} CountRepeatsFirstLine(t: Text, x: seq<Line>, cp: Mark, append: bool, cnt: nat)
    requires PutOk(t, x, false, cp, append) && !PutFails(t, false, cp)
    ensures var once, many := PutText(t, x, false, cp, append, 1), PutText(t, x, false, cp, append, cnt);
            && cp.lno <= |once| == |many| && many == once[cp.lno - 1 := many[cp.lno - 1]]
            && |many[cp.lno - 1]| == |once[cp.lno - 1]| + cnt * |x[0]| - |x[0]|
  {
    hide Times, Counted, Spliced, PutText, PutOk;
    CountedOnce(x);
    CharsText(t, x, cp, append, 1);
    CharsText(t, x, cp, append, cnt);
    CountedIs(x, cnt);
    CharsArePut(t, x, cp, append, 1);
    CharsArePut(t, x, cp, append, cnt);
    var t' := if t == [] then [""] else t;
    var p := t'[cp.lno - 1];
    var c := if p == "" then 0 else cp.cno + if append then 1 else 0;
    SplicedFirst(t', cp.lno, c, x, Counted(x, cnt));
  }

  lemma {:induction false} SplicedFirst(t: Text, lno: nat, c: nat, x: seq<Line>, y: seq<Line>)
    requires 1 <= lno <= |t| && c <= |t[lno - 1]| && x != [] && |y| == |x| && y[1..] == x[1..]
    ensures lno <= |Spliced(t, lno, c, x)|
    ensures Spliced(t, lno, c, y) ==
            Spliced(t, lno, c, x)[lno - 1 := t[lno - 1][..c] + y[0] + if |x| == 1 then t[lno - 1][c..] else ""]
  {
    hide Spliced;
    var pre, suf, more := t[lno - 1][..c], t[lno - 1][c..], LaterLines(x[1..], t[lno - 1][c..]);
    SplicedIs(t, lno, c, x);
    SplicedIs(t, lno, c, y);
    var end := if |x| == 1 then suf else "";
    FirstSwapped(t[..lno - 1], pre + x[0] + end, pre + y[0] + end, more, t[lno..]);
  }

  /** The lines of a splice but the first. */
  function LaterLines(x: seq<Line>, suf: Line): seq<Line> {
    if x == [] then [] else x[..|x| - 1] + [x[|x| - 1] + suf]
  }

  lemma {:induction false} SplicedIs(t: Text, lno: nat, c: nat, x: seq<Line>)
    requires 1 <= lno <= |t| && c <= |t[lno - 1]| && x != []
    ensures var pre, suf := t[lno - 1][..c], t[lno - 1][c..];
            Spliced(t, lno, c, x) ==
            t[..lno - 1] + ([pre + x[0] + if |x| == 1 then suf else ""] + LaterLines(x[1..], suf)) + t[lno..]
  {
    var pre, n := t[lno - 1][..c], |x| - 1;
    assert pre + x[0] + "" == pre + x[0];
    if n > 0 {
      assert x[1..][..n - 1] == x[1..n] && x[1..][n - 1] == x[n];
    }
  }

  /** A splice puts its characters, newlines and all, into the text at one place. */
  lemma {:induction false} SpliceIsInsertion(t: Text, lno: nat, c: nat, x: seq<Line>)
    requires 1 <= lno <= |t| && c <= |t[lno - 1]| && x != []
    ensures Offset(t, lno, c) <= |Flat(t)|
    ensures Flat(Spliced(t, lno, c, x)) == Flat(t)[..Offset(t, lno, c)] + Flat(x) + Flat(t)[Offset(t, lno, c)..]
  {
    hide Flat, FlatBefore, FlatBehind, Offset, LaterLines;
    FlatCut(t, lno, c);
    var head, tail, pre, suf, n := t[..lno - 1], t[lno..], t[lno - 1][..c], t[lno - 1][c..], |x| - 1;
    var a, b := FlatBefore(head), FlatBehind(tail);
    if n == 0 {
      FlatOne(x[0]);
      assert x == [x[0]];
      FlatAround(head, pre + x[0] + suf, tail);
      assert a + (pre + x[0] + suf) + b == (a + pre) + x[0] + (suf + b);
    } else {
      var mid := x[1..n];
      assert x == ([x[0]] + mid) + [x[n]];
      FlatJoin([x[0]] + mid, [x[n]]);
      FlatOne(x[n]);
      BeforeJoin([x[0]], mid);
      OneBefore(x[0]);
      assert Spliced(t, lno, c, x) == (head + ([pre + x[0]] + mid)) + [x[n] + suf] + tail;
      FlatAround(head + ([pre + x[0]] + mid), x[n] + suf, tail);
      BeforeJoin(head, [pre + x[0]] + mid);
      BeforeJoin([pre + x[0]], mid);
      OneBefore(pre + x[0]);
      Rebracket(a, pre, x[0], FlatBefore(mid), x[n], suf, b);
    }
  }

  lemma {:induction false} Rebracket(a: string, pre: string, p: string, mid: string, q: string, suf: string, b: string)
    ensures (a + ((pre + p + "\n") + mid)) + (q + suf) + b == (a + pre) + (((p + "\n") + mid) + q) + (suf + b)
  {
  }

  lemma {:induction false} FirstSwapped(head: Text, p: Line, q: Line, more: Text, tail: Text)
    ensures (head + ([p] + more) + tail)[|head| := q] == head + ([q] + more) + tail
  {
  }

  lemma {:induction false} CharsText(t: Text, x: seq<Line>, cp: Mark, append: bool, cnt: nat)
    requires PutOk(t, x, false, cp, append)
    ensures x != [] && cp.lno >= 1
    ensures !PutFails(t, false, cp) ==>
      var p := if t == [] then "" else t[cp.lno - 1];
      var c := if |p| > 0 then cp.cno + (if append then 1 else 0) else 0;
      && (1 <= cp.lno <= |t| || (t == [] && cp.lno == 1)) && c <= |p|
      && PutText(t, x, false, cp, append, cnt) == Spliced(if t == [] then [""] else t, cp.lno, c, Counted(x, cnt))
  {
    hide Counted;
  }

  lemma {:induction false} SplicedBySteps(t: Text, lno: nat, c: nat, x: seq<Line>)
    requires x != [] && (1 <= lno <= |t| || (t == [] && lno == 1))
    requires c <= |if t == [] then "" else t[lno - 1]|
    ensures var p := if t == [] then "" else t[lno - 1];
            var t' := if t == [] then [""] else t;
            var n := |x| - 1;
            && (n == 0 ==> SetAt(t, lno, p[..c] + x[0] + p[c..]) == Spliced(t', lno, c, x))
            && (n > 0 ==>
                var u := SetAt(t, lno, p[..c] + x[0]);
                && lno <= |u|
                && lno + (n - 1) <= |LinesAfter(u, lno, x[1..n])|
                && InsertAt(LinesAfter(u, lno, x[1..n]), lno + (n - 1) + 1, x[n] + p[c..]) == Spliced(t', lno, c, x))
  {
    if |x| > 1 {
      SplicedLong(t, lno, c, x);
    }
  }

  lemma {:induction false} StepsText(t: Text, lno: nat, c: nat, x: seq<Line>, cnt: nat, first: Line, rest: Line)
    requires x != [] && (1 <= lno <= |t| || (t == [] && lno == 1))
    requires var p := if t == [] then "" else t[lno - 1];
             c <= |p| && first == p[..c] + Times(x[0], cnt) && rest == p[c..]
    ensures var all := Spliced(if t == [] then [""] else t, lno, c, Counted(x, cnt));
            && (|x| == 1 ==> SetAt(t, lno, first + rest) == all)
            && (|x| > 1 ==>
                var n, u := |x| - 1, SetAt(t, lno, first);
                && lno <= |u|
                && lno + (n - 1) <= |LinesAfter(u, lno, x[1..n])|
                && InsertAt(LinesAfter(u, lno, x[1..n]), lno + (n - 1) + 1, x[n] + rest) == all)
  {
    hide SetAt, LinesAfter, InsertAt, Spliced, Times, Counted;
    CountedIs(x, cnt);
    SplicedBySteps(t, lno, c, Counted(x, cnt));
  }

  lemma {:induction false} AfterFirst(head: Text, p: Line, m: seq<Line>, tail: Text)
    ensures LinesAfter(head + [p] + tail, |head| + 1, m) == (head + [p] + m) + tail
  {
    var u := head + [p] + tail;
    assert u[..|head| + 1] == head + [p] && u[|head| + 1..] == tail;
  }

  lemma {:induction false} AtEnd(h: Text, q: Line, tail: Text)
    ensures InsertAt(h + tail, |h| + 1, q) == h + [q] + tail
  {
  }

  lemma {:induction false} SplicedLong(t: Text, lno: nat, c: nat, x: seq<Line>)
    requires |x| > 1 && (1 <= lno <= |t| || (t == [] && lno == 1))
    requires c <= |if t == [] then "" else t[lno - 1]|
    ensures var p := if t == [] then "" else t[lno - 1];
            var t' := if t == [] then [""] else t;
            var n, u := |x| - 1, SetAt(t, lno, p[..c] + x[0]);
            && lno <= |u|
            && lno + (n - 1) <= |LinesAfter(u, lno, x[1..n])|
            && InsertAt(LinesAfter(u, lno, x[1..n]), lno + (n - 1) + 1, x[n] + p[c..]) == Spliced(t', lno, c, x)
  {
    hide LinesAfter, InsertAt;
    var p, n, t' := if t == [] then "" else t[lno - 1], |x| - 1, if t == [] then [""] else t;
    var head, tail, first, m := t'[..lno - 1], t'[lno..], p[..c] + x[0], x[1..n];
    assert SetAt(t, lno, first) == head + [first] + tail;
    AfterFirst(head, first, m, tail);
    AtEnd(head + [first] + m, x[n] + p[c..], tail);
    assert head + ([first] + m + [x[n] + p[c..]]) + tail == (head + [first] + m) + [x[n] + p[c..]] + tail;
  }

  /** ex_copy: lines f1 through f2 after line dest, which may be among them. */
  method ExCopy(ed: Editor, f1: nat, f2: nat, dest: nat) returns (ghost es: seq<Edit>)
    requires ed.Valid() && ed.Coherent() && 1 <= f1 <= f2 <= |ed.db| && dest <= |ed.db|
    modifies ed
    ensures ed.Valid() && ed.Coherent() && ed.noLog == old(ed.noLog)
    ensures Reached(old(ed.History()), ed.History(), es, ed.noLog)
    ensures ed.db == old(ed.db)[..dest] + old(ed.db)[f1 - 1..f2] + old(ed.db)[dest..]
    ensures ed.at == Mark(dest + (f2 - f1 + 1), 0)
  {
    hide Editor.Valid, Editor.Coherent, Reached, TotalLength, LinesPut, CharsPut, AtInk;
    ghost var t := ed.db;
    NoLength();
    var x, len := Buffers.CutWhole(ed, f1, f2 + 1, [], 0);
    assert x == t[f1 - 1..f2];
    OneCopy(x);
    var err, m;
    err, m, es := Put(ed, Buffer('\0', x, len, true), Mark(dest, 0), true, 1);
    ed.at := Mark(m.lno + (f2 - f1), 0);
  }

  // ----- the round trip ---------------------------------------------------------------

  /** Deleting a region and putting back what was cut from it, before its start, restores the
      file: for whole lines, within one line and across lines. */
  lemma {:induction false} CutDeletePut(t: Text, f: nat, fc: nat, l: nat, tc: int, lmode: bool)
    requires CutOk(t, f, fc, l, tc, lmode)
    ensures DelOk(t, f, fc, l, tc, lmode) && !DelFails(t, f, l, tc, lmode)
    ensures var u, x := DelResult(t, f, fc, l, tc, lmode), Pieces(t, f, fc, l, tc, lmode);
            && PutOk(u, x, lmode, Mark(f, fc), false) && !PutFails(u, lmode, Mark(f, fc))
            && PutText(u, x, lmode, Mark(f, fc), false, 1) == t
  {
    if lmode {
      LinesBack(t, f, l);
    } else {
      CountedOnce(Pieces(t, f, fc, l, tc, lmode));
      CharsBack(t, f, fc, l, tc);
    }
  }

  lemma {:induction false} OneCopy(x: seq<Line>)
    ensures Repeat(x, 1) == x
  {
    assert Repeat(x, 0) + x == x;
  }

  lemma {:induction false} LinesBack(t: Text, f: nat, l: nat)
    requires 1 <= f <= l <= |t|
    ensures var u, x := WithoutLines(t, f, l), t[f - 1..l];
            LinesAfter(u, f - 1, Repeat(x, 1)) == t && f - 1 <= |u|
  {
    hide Repeat;
    var u, x := WithoutLines(t, f, l), t[f - 1..l];
    OneCopy(x);
    assert u[..f - 1] == t[..f - 1] && u[f - 1..] == t[l..];
    assert t[..f - 1] + t[f - 1..l] + t[l..] == t;
  }

  lemma {:induction false} CharsBack(t: Text, f: nat, fc: nat, l: nat, tc: int)
    requires Positions(t, f, fc, l, tc) && EndsInside(t, l, tc)
    ensures var u, x := Deleted(t, f, fc, l, tc), Pieces(t, f, fc, l, tc, false);
            && f <= |u| && fc <= |u[f - 1]| && x != []
            && Spliced(u, f, if u[f - 1] == "" then 0 else fc, x) == t
  {
    hide Deleted, Pieces;
    var a, b := t[f - 1], t[l - 1];
    var pre, suf := a[..fc], Suffix(b, tc);
    var head, tail := t[..f - 1], t[l..];
    var u, x := Deleted(t, f, fc, l, tc), Pieces(t, f, fc, l, tc, false);
    DeletedIs(t, f, fc, l, tc);
    PiecesAre(t, f, fc, l, tc);
    assert u[..f - 1] == head && u[f..] == tail && u[f - 1] == pre + suf;
    assert u[f - 1][..fc] == pre && u[f - 1][fc..] == suf;
    var mid := if f == l then [t[f - 1]] else [t[f - 1]] + t[f..l - 1] + [t[l - 1]];
    assert t == head + mid + tail;
    var n := |x| - 1;
    if f != l {
      assert x[1..n] == t[f..l - 1];
    }
  }

  lemma {:induction false} DeletedIs(t: Text, f: nat, fc: nat, l: nat, tc: int)
    requires Positions(t, f, fc, l, tc)
    ensures Deleted(t, f, fc, l, tc) == t[..f - 1] + [t[f - 1][..fc] + Suffix(t[l - 1], tc)] + t[l..]
  {
  }

  /** What was cut fits between what was left: each cut line end completes its line. */
  lemma {:induction false} PiecesAre(t: Text, f: nat, fc: nat, l: nat, tc: int)
    requires Positions(t, f, fc, l, tc) && EndsInside(t, l, tc)
    ensures var x, pre, suf := Pieces(t, f, fc, l, tc, false), t[f - 1][..fc], Suffix(t[l - 1], tc);
            && (f == l ==> |x| == 1 && pre + x[0] + suf == t[f - 1])
            && (f < l ==> |x| == l - f + 1 && x[1..l - f] == t[f..l - 1]
                          && pre + x[0] == t[f - 1] && x[l - f] + suf == t[l - 1])
  {
    var x := Pieces(t, f, fc, l, tc, false);
    if f < l {
      assert x == [x[0]] + t[f..l - 1] + [x[l - f]];
    }
  }

  /** cut without a buffer name, del, and put at the start leave the file as it was. */
  method RoundTrip(ed: Editor, bufs: Buffers, fm: Mark, tlno: nat, tcno: int, lmode: bool)
    requires bufs.Valid() && ed.Valid() && ed.Coherent() && CutOk(ed.db, fm.lno, fm.cno, tlno, tcno, lmode)
    modifies ed, bufs
    ensures ed.Valid() && ed.Coherent() && ed.db == old(ed.db)
  {
    hide Editor.Valid, Editor.Coherent, Pieces, CutOk, DelOk, DelFails, DelResult, PutOk, PutText, LinesPut,
         CharsPut, CutSpec,
         DefaultBuffer, Reached;
    ghost var t := ed.db;
    CutDeletePut(t, fm.lno, fm.cno, tlno, tcno, lmode);
    CutLines(t, fm.lno, fm.cno, tlno, tcno, lmode);
    DefaultIsCut(bufs.Now(), None, false, Pieces(t, fm.lno, fm.cno, tlno, tcno, lmode), lmode);
    var err := bufs.Cut(ed, None, fm, tlno, tcno, lmode, NumNone);
    ghost var es;
    err, es := Del(ed, fm, tlno, tcno, lmode);
    var b := bufs.Select(None);
    var rp;
    err, rp, es := Put(ed, b.value, fm, false, 1);
  }

  lemma {:induction false} CutLines(t: Text, f: nat, fc: nat, l: nat, tc: int, lmode: bool)
    requires CutOk(t, f, fc, l, tc, lmode)
    ensures f != OOBLNO && l != OOBLNO
  {
  }
}
