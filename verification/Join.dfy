/** ex/ex_join.c: joining lines. */
module Join {
  import opened Store
  import opened Undo
  import opened Commands
  import opened EditorModule
  import opened Delete

  /** strchr also finds the terminating NUL of ".?!". */
  predicate EndsSentence(c: char) {
    c in ".?!" || c == '\0'
  }

  /** The line built so far, and the last character joined (none before the first text). */
  datatype Joint = Joint(line: Line, echar: Option<char>)

  /** The blanks put between the last character joined and the next text. */
  function Space(echar: char, p: Line, force: bool): Line
    requires p != ""
  {
    if force || IsBlank(echar) || p[0] == ')' then ""
    else if EndsSentence(echar) then "  " else " "
  }

  /** What joining one more line does. */
  function Add(j: Joint, p: Line, force: bool): Joint {
    if p == "" then j
    else if j.echar.None? || force then Joint(j.line + p, Some(p[|p| - 1]))
    else
      var q := if IsBlank(j.echar.value) || p[0] != ')' then SkipBlanks(p) else p;
      Joint(j.line + Space(j.echar.value, p, force) + q, Some(if q == "" then ' ' else q[|q| - 1]))
  }

  /** Where joining one more line leaves the cursor: on the last character of the first text; after that on
      the first blank put in, and with none on the last character of the line so far. */
  function AddColumn(j: Joint, col: nat, p: Line, force: bool): nat {
    if p == "" then col
    else if j.echar.None? then |p| - 1
    else if Space(j.echar.value, p, force) != "" then |j.line|
    else if j.line != "" then |j.line| - 1 else 0
  }

  /** The column a join leaves, from the one it found. */
  function JoinColumn(lines: seq<Line>, col: nat, force: bool): nat {
    if lines == [] then col
    else
      var init := lines[..|lines| - 1];
      AddColumn(JoinAll(init, force), JoinColumn(init, col, force), lines[|lines| - 1], force)
  }

  function JoinAll(lines: seq<Line>, force: bool): Joint {
    if lines == [] then Joint("", None)
    else Add(JoinAll(lines[..|lines| - 1], force), lines[|lines| - 1], force)
  }

  function Concat(lines: seq<Line>): Line {
    if lines == [] then "" else Concat(lines[..|lines| - 1]) + lines[|lines| - 1]
  }

  /** The characters that are not blanks, in order. */
  function Ink(p: Line): Line {
    if p == "" then "" else Ink(p[..|p| - 1]) + if IsBlank(p[|p| - 1]) then "" else [p[|p| - 1]]
  }

  lemma {:induction false} InkAdds(p: Line, q: Line)
    ensures Ink(p + q) == Ink(p) + Ink(q)
    decreases |q|
  {
    if q == "" {
      assert p + q == p;
    } else {
      var n := |q| - 1;
      assert (p + q)[..|p| + n] == p + q[..n];
      InkAdds(p, q[..n]);
    }
  }

  lemma {:induction false} InkOfSkip(p: Line)
    ensures Ink(SkipBlanks(p)) == Ink(p)
  {
    if p != "" && IsBlank(p[0]) {
      InkOfSkip(p[1..]);
      InkAdds([p[0]], p[1..]);
      assert [p[0]] + p[1..] == p && [p[0]][..0] == "";
    }
  }

  lemma {:induction false} InkOfSpaces()
    ensures Ink("") == "" && Ink(" ") == "" && Ink("  ") == ""
  {
    assert " "[..0] == "" && "  "[..1] == " ";
  }

  lemma {:induction false} AddKeepsInk(j: Joint, p: Line, force: bool)
    ensures Ink(Add(j, p, force).line) == Ink(j.line) + Ink(p)
  {
    hide Ink, SkipBlanks;
    InkOfSkip(p);
    InkOfSpaces();
    if p == "" {
    } else if j.echar.None? || force {
      InkAdds(j.line, p);
    } else {
      var space := Space(j.echar.value, p, force);
      var q := if IsBlank(j.echar.value) || p[0] != ')' then SkipBlanks(p) else p;
      InkAdds(j.line, space);
      InkAdds(j.line + space, q);
    }
  }

  /** Blanks aside, the joined line is the joined lines' text, in order. */
  lemma {:induction false} JoinConservesInk(lines: seq<Line>, force: bool)
    ensures Ink(JoinAll(lines, force).line) == Ink(Concat(lines))
    decreases |lines|
  {
    if lines != [] {
      var n := |lines| - 1;
      JoinConservesInk(lines[..n], force);
      AddKeepsInk(JoinAll(lines[..n], force), lines[n], force);
      InkAdds(Concat(lines[..n]), lines[n]);
    }
  }

  /** With force, blanks included. */
  lemma {:induction false} ForceConcatenates(lines: seq<Line>)
    ensures JoinAll(lines, true).line == Concat(lines)
    decreases |lines|
  {
    if lines != [] {
      ForceConcatenates(lines[..|lines| - 1]);
    }
  }

  /** The space reserved for a line, len + 2, is enough for what it adds. */
  lemma {:induction false} AddFits(j: Joint, p: Line, force: bool)
    ensures |Add(j, p, force).line| <= |j.line| + |p| + 2
    ensures p == "" ==> Add(j, p, force) == j
    ensures p != "" ==> Add(j, p, force).echar.Some?
  {
  }

  lemma {:induction false} TextSoFar(lines: seq<Line>, force: bool)
    ensures var j := JoinAll(lines, force); (j.echar.Some? ==> j.line != "") && (j.echar.None? ==> j.line == "")
    decreases |lines|
  {
    hide SkipBlanks;
    if lines != [] {
      TextSoFar(lines[..|lines| - 1], force);
    }
  }

  /** The character joined last is the last of the line, blanks being all alike. */
  lemma {:induction false} LastJoinedChar(lines: seq<Line>, force: bool)
    ensures var j := JoinAll(lines, force);
            j.echar.Some? ==> j.line != "" && (j.echar.value == j.line[|j.line| - 1]
                                               || (IsBlank(j.echar.value) && IsBlank(j.line[|j.line| - 1])))
    decreases |lines|
  {
    if lines != [] {
      var init, p := lines[..|lines| - 1], lines[|lines| - 1];
      LastJoinedChar(init, force);
      TextSoFar(init, force);
      var j := JoinAll(init, force);
      if j.echar.Some? && !force && p != "" { var k := SkippedSuffix(p); }
    }
  }

  /** A line without its leading blanks. */
  lemma {:induction false} SkippedSuffix(p: Line) returns (k: nat)
    ensures k <= |p| && SkipBlanks(p) == p[k..]
    ensures (forall i :: 0 <= i < k ==> p[i] == ' ' || p[i] == '\t') && (k < |p| ==> p[k] != ' ' && p[k] != '\t')
  {
    if p != "" && IsBlank(p[0]) {
      var n := SkippedSuffix(p[1..]);
      k := n + 1;
      assert forall i :: 1 <= i < |p| ==> p[i] == p[1..][i - 1];
    } else {
      k := 0;
    }
  }

  /** What one more line adds to a joined line: nothing but itself after a blank or before a closing parenthesis,
      two blanks after the end of a sentence (a NUL counts as one), one blank after anything else; and its own
      leading blanks go, except before the parenthesis. */
  lemma {:induction false} OneMoreJoined(lines: seq<Line>, p: Line) returns (k: nat)
    requires JoinAll(lines, false).line != "" && p != ""
    ensures k <= |p| && (forall i :: 0 <= i < k ==> p[i] == ' ' || p[i] == '\t')
    ensures k < |p| ==> p[k] != ' ' && p[k] != '\t'
    ensures var a := JoinAll(lines, false).line;
            var e := a[|a| - 1];
            JoinAll(lines + [p], false).line ==
            if e == ' ' || e == '\t' then a + p[k..]
            else if p[0] == ')' then a + p
            else if e == '.' || e == '?' || e == '!' || e == '\0' then a + "  " + p[k..]
            else a + " " + p[k..]
  {
    hide Add;
    k := SkippedSuffix(p);
    assert (lines + [p])[..|lines|] == lines;
    TextSoFar(lines, false);
    LastJoinedChar(lines, false);
    AddMeans(JoinAll(lines, false), p, p[k..]);
  }

  lemma {:induction false} AddMeans(j: Joint, p: Line, q: Line)
    requires j.echar.Some? && j.line != "" && p != "" && q == SkipBlanks(p)
    requires var e := j.line[|j.line| - 1]; j.echar.value == e || (IsBlank(j.echar.value) && IsBlank(e))
    ensures var a, e := j.line, j.line[|j.line| - 1];
            Add(j, p, false).line ==
            if e == ' ' || e == '\t' then a + q
            else if p[0] == ')' then a + p
            else if e == '.' || e == '?' || e == '!' || e == '\0' then a + "  " + q
            else a + " " + q
  {
    hide SkipBlanks;
    var a := j.line;
    assert a + "" == a;
  }

  /** And the first line that is not empty is joined as it is, force or not. */
  lemma {:induction false} FirstJoined(lines: seq<Line>, p: Line, force: bool)
    requires p != "" && forall i :: 0 <= i < |lines| ==> lines[i] == ""
    ensures JoinAll(lines, force).line == "" && JoinAll(lines + [p], force).line == p
    decreases |lines|
  {
    assert (lines + [p])[..|lines|] == lines;
    NothingJoined(lines, force);
    assert "" + p == p;
  }

  lemma {:induction false} NothingJoined(lines: seq<Line>, force: bool)
    requires forall i :: 0 <= i < |lines| ==> lines[i] == ""
    ensures JoinAll(lines, force) == Joint("", None)
    decreases |lines|
  {
    if lines != [] { NothingJoined(lines[..|lines| - 1], force); }
  }

  /** The last text joined settles the cursor: it is on the new line, and with blanks put in it is on the
      first of them; without, it stays one short of the text just joined. */
  lemma {:induction false} CursorAtJoint(lines: seq<Line>, col: nat, p: Line, force: bool)
    requires p != ""
    ensures var j, c, all := JoinAll(lines, force), JoinColumn(lines + [p], col, force), JoinAll(lines + [p], force).line;
            && c < |all| && j.line <= all
            && (j.echar.None? ==> all == p && c + 1 == |all|)
            && (j.echar.Some? ==>
                 && j.line != ""
                 && if !force && j.line[|j.line| - 1] !in [' ', '\t'] && p[0] != ')' then c == |j.line| && all[c] == ' '
                    else c + 1 == |j.line|)
  {
    hide SkipBlanks;
    LastJoinedChar(lines, force);
    assert (lines + [p])[..|lines|] == lines;
    TextSoFar(lines, force);
  }

  /** Empty lines leave the cursor alone. */
  lemma {:induction false} EmptyLinesKeepColumn(lines: seq<Line>, col: nat, force: bool)
    ensures JoinColumn(lines + [""], col, force) == JoinColumn(lines, col, force)
    ensures JoinAll(lines + [""], force) == JoinAll(lines, force)
  {
    assert (lines + [""])[..|lines|] == lines;
  }

  /** The loop over a line's leading blanks. */
  method StepOverBlanks(p0: Line) returns (p: Line)
    ensures p == SkipBlanks(p0)
  {
    p := p0;
    while p != "" && IsBlank(p[0])
      invariant SkipBlanks(p) == SkipBlanks(p0)
      decreases |p|
    {
      p := p[1..];
    }
  }

  /** What one pass of the accumulation loop adds to the buffer. */
  method JoinLine(bp: Line, first: bool, echar: char, p0: Line, force: bool)
    returns (bp': Line, echar': char, len: nat, extra: nat)
    requires p0 != ""
    ensures Joint(bp', Some(echar')) == Add(Joint(bp, if first then None else Some(echar)), p0, force)
    ensures len <= |p0|
    ensures first ==> |bp'| - (1 + extra) == |bp| + |p0| - 1
    ensures !first ==> |bp'| - len - (1 + extra) == if Space(echar, p0, force) != "" then |bp| else |bp| - 1
  {
    bp', extra := bp, 0;
    var p := p0;
    if !first && !force {
      if IsBlank(echar) {
        p := StepOverBlanks(p);
      } else if p[0] != ')' {
        if EndsSentence(echar) {
          bp' := bp' + " ";
          extra := 1;
        }
        bp' := bp' + " ";
        p := StepOverBlanks(p);
      }
    }
    assert bp' == bp + if first then "" else Space(echar, p0, force);
    len := |p|;
    if len != 0 {
      bp' := bp' + p;
      echar' := p[len - 1];
    } else {
      echar' := ' ';
    }
  }

  /** The lines a join takes: to the last address, or to the end of the file. */
  function LastJoined(t: Text, a2: nat): nat {
    if a2 <= |t| then a2 else |t|
  }

  /** The accumulation loop.  tlen is the space reserved, which clen never exceeds. */
  method Accumulate(ed: Editor, a1: nat, a2: nat, force: bool) returns (bp: Line, first: bool, last: nat)
    requires ed.Valid() && ed.Coherent() && 1 <= a1 <= |ed.db| && a1 <= a2
    modifies ed`cLno, ed`cLine, ed`at
    ensures ed.Valid() && ed.Coherent()
    ensures last == LastJoined(ed.db, a2) && a1 <= last
    ensures ed.at == Mark(old(ed.at.lno), JoinColumn(ed.db[a1 - 1..last], old(ed.at.cno), force))
    ensures bp == JoinAll(ed.db[a1 - 1..last], force).line
    ensures first ==> bp == "" && ed.db[a1 - 1] == ""
  {
    hide Editor.Valid, Editor.Coherent, Add, Space;
    ghost var col := ed.at.cno;
    var clen, tlen, echar, from := 0, 0, ' ', a1;
    bp, first, last := "", true, a2;
    assert ed.db[a1 - 1..a1 - 1] == [];
    while from <= a2
      invariant a1 <= from <= a2 + 1 && from <= |ed.db| + 1 && last == a2
      invariant ed.Valid() && ed.Coherent()
      invariant Joint(bp, if first then None else Some(echar)) == JoinAll(ed.db[a1 - 1..from - 1], force)
      invariant clen == |bp| <= tlen
      invariant ed.at == Mark(old(ed.at.lno), JoinColumn(ed.db[a1 - 1..from - 1], col, force))
      invariant !first ==> bp != ""
      invariant first ==> bp == "" && (from > a1 ==> ed.db[a1 - 1] == "")
    {
      var found, p := GetIfAny(ed, from);
      if !found {
        last := from - 1;
        break;
      }
      ghost var joined := Joint(bp, if first then None else Some(echar));
      NextJoined(ed.db, a1, from, col, force);
      AddFits(joined, p, force);
      // An empty line adds nothing.
      if |p| != 0 {
        tlen := tlen + |p| + 2;
        var len, extra;
        bp, echar, len, extra := JoinLine(bp, first, echar, p, force);
        clen := |bp|;
        ed.at := ed.at.(cno := if first then clen - (1 + extra) else clen - len - (1 + extra));
        first := false;
      }
      from := from + 1;
    }
  }

  lemma {:induction false} NextJoined(t: Text, a1: nat, from: nat, col: nat, force: bool)
    requires 1 <= a1 <= from <= |t|
    ensures JoinColumn(t[a1 - 1..from], col, force) ==
            AddColumn(JoinAll(t[a1 - 1..from - 1], force), JoinColumn(t[a1 - 1..from - 1], col, force), t[from - 1], force)
    ensures JoinAll(t[a1 - 1..from], force) == Add(JoinAll(t[a1 - 1..from - 1], force), t[from - 1], force)
  {
    var s := t[a1 - 1..from];
    assert s[..|s| - 1] == t[a1 - 1..from - 1];
  }

  /** db_get of a line that may not be there. */
  method GetIfAny(ed: Editor, lno: nat) returns (found: bool, p: Line)
    requires ed.Valid() && ed.Coherent() && 1 <= lno
    modifies ed`cLno, ed`cLine
    ensures ed.Valid() && ed.Coherent()
    ensures found <==> lno <= |ed.db|
    ensures found ==> p == ed.db[lno - 1]
  {
    hide Sorted, Editor.LogInv;
    found, p := ed.DbGet(lno, false);
  }

  /** db_exist. */
  method Exists(ed: Editor, lno: nat) returns (there: bool)
    requires ed.Valid() && ed.Coherent()
    modifies ed`cLno, ed`cLine
    ensures ed.Valid() && ed.Coherent()
    ensures there <==> 1 <= lno <= |ed.db|
  {
    hide Sorted, Editor.LogInv;
    there := ed.DbExist(lno);
  }

  /** ex_join, with one address (or none) standing for two lines. */
  method ExJoin(ed: Editor, a1: nat, a2: nat, one: bool, force: bool) returns (err: bool, ghost es: seq<Edit>)
    requires ed.Valid() && ed.Coherent() && 1 <= a1 <= a2
    modifies ed
    ensures ed.Valid() && ed.Coherent() && ed.noLog == old(ed.noLog)
    ensures Reached(old(ed.History()), ed.History(), es, ed.noLog)
    ensures err <==> a1 >= |old(ed.db)|
    ensures err ==> ed.at == old(ed.at)
    ensures var k := if one then a2 + 1 else a2;
            var n := if k <= |old(ed.db)| then k else |old(ed.db)|;
            if err then ed.db == old(ed.db)
            else && ed.at == Mark(a1, JoinColumn(old(ed.db)[a1 - 1..n], old(ed.at.cno), force))
                 && ed.db == old(ed.db)[..a1 - 1] + [JoinAll(old(ed.db)[a1 - 1..n], force).line] + old(ed.db)[n..]
  {
    hide Editor.Valid, Editor.Coherent, Reached, SetAt, JoinAll, JoinColumn;
    ghost var a, t := ed.History(), ed.db;
    ReachedSelf(a, ed.noLog);
    es := [];
    var more := Exists(ed, a1 + 1);
    if !more {
      return true, es;
    }
    var bp, first, last := Accumulate(ed, a1, if one then a2 + 1 else a2, force);
    ed.at := ed.at.(lno := a1);
    es := DeleteLines(ed, last, a1 + 1, a, es);
    JoinByEdits(t, a1, last, bp);
    if !first {
      es := SetStep(ed, a1, bp, a, es);
    }
    return false, es;
  }

  lemma {:induction false} JoinByEdits(t: Text, a1: nat, last: nat, bp: Line)
    requires 1 <= a1 <= last <= |t|
    ensures var u := t[..a1] + t[last..];
            && a1 <= |u|
            && SetAt(u, a1, bp) == t[..a1 - 1] + [bp] + t[last..]
            && (bp == t[a1 - 1] ==> u == t[..a1 - 1] + [bp] + t[last..])
  {
  }
}
