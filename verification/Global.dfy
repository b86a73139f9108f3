/** ex/ex_global.c and ex_load of ex/ex.c: commands run on every matching line, while they
    edit the file under the lines still to come. */
module Global {
  import opened Store
  import opened LogFacts
  import opened Undo
  import opened Commands
  import opened EditorModule
  import opened Delete
  import opened Cut
  import M = Move

  // ----- pending lines --------------------------------------------------------------

  function Span(a: nat, b: nat): seq<nat>
    decreases b - a
  {
    if a > b then [] else [a] + Span(a + 1, b)
  }

  /** The line numbers a range list stands for. */
  function Lines(rs: seq<Range>): seq<nat> {
    if rs == [] then [] else Span(rs[0].start, rs[0].stop) + Lines(rs[1..])
  }

  /** The ranges are in order from line lo on; each may be exhausted. */
  ghost predicate Ordered(rs: seq<Range>, lo: nat)
    decreases |rs|
  {
    rs == [] || (lo <= rs[0].start <= rs[0].stop + 1 && Ordered(rs[1..], rs[0].stop + 1))
  }

  function Minus(ls: seq<nat>, k: nat): seq<int> {
    if ls == [] then [] else [ls[0] - k] + Minus(ls[1..], k)
  }

  /** What a deletion does to ranges that lie beyond the line, exhausted ones included. */
  lemma {:induction false} DeleteShifts(rs: seq<Range>, lno: nat, lo: nat)
    requires 1 <= lno < lo && Ordered(rs, lo)
    ensures Ordered(RangesDelete(rs, lno), lo - 1)
    ensures Lines(RangesDelete(rs, lno)) == Minus(Lines(rs), 1)
    decreases |rs|
  {
    if rs != [] {
      var r := rs[0];
      DeleteShifts(rs[1..], lno, r.stop + 1) by { assert lno < r.stop + 1; }
      SpanShifts(r.start, r.stop);
      MinusSplit(Span(r.start, r.stop), Lines(rs[1..]), 1);
      assert RangesDelete(rs, lno)[1..] == RangesDelete(rs[1..], lno);
    }
  }

  lemma {:induction false} SpanShifts(a: nat, b: nat)
    requires 2 <= a <= b + 1
    ensures Span(a - 1, b - 1) == Minus(Span(a, b), 1)
    decreases b - a
  {
    if a <= b {
      SpanShifts(a + 1, b);
    }
  }

  lemma {:induction false} MinusSplit(xs: seq<nat>, ys: seq<nat>, k: nat)
    ensures Minus(xs + ys, k) == Minus(xs, k) + Minus(ys, k)
  {
    if xs == [] {
      assert xs + ys == ys;
    } else {
      assert (xs + ys)[1..] == xs[1..] + ys;
      MinusSplit(xs[1..], ys, k);
    }
  }

  /** What a move of line lno to the front does to such ranges: nothing. */
  lemma {:induction false} FrontMoveKeeps(rs: seq<Range>, lno: nat, lo: nat)
    requires 1 <= lno < lo && Ordered(rs, lo)
    ensures RangesDelete(RangesInsert(rs, 1), lno + 1) == rs
    decreases |rs|
  {
    if rs != [] {
      var r := rs[0];
      FrontMoveKeeps(rs[1..], lno, r.stop + 1);
      assert RangesInsert(rs, 1) == [Range(r.start + 1, r.stop + 1)] + RangesInsert(rs[1..], 1);
      assert RangesInsert(rs, 1)[1..] == RangesInsert(rs[1..], 1);
    }
  }

  // ----- matching lines ----------------------------------------------------------------

  /** A global command: its address range, the matcher, and whether it is v or g!. */
  datatype Spec = Spec(a1: nat, a2: nat, re: Line -> bool, invert: bool)
  {
    predicate Hit(t: Text, n: nat) {
      a1 <= n <= a2 && 1 <= n <= |t| && re(t[n - 1]) != invert
    }

    /** The matching lines after lo, up to hi. */
    function Hits(t: Text, lo: nat, hi: nat): seq<nat>
      decreases hi
    {
      if hi <= lo then [] else Hits(t, lo, hi - 1) + if Hit(t, hi) then [hi] else []
    }

    /** The first n lines without the matching ones ... */
    function Survivors(t: Text, n: nat): Text
      requires n <= |t|
    {
      if n == 0 then [] else Survivors(t, n - 1) + if Hit(t, n) then [] else [t[n - 1]]
    }

    /** ... and the matching ones, last first. */
    function Picked(t: Text, n: nat): Text
      requires n <= |t|
    {
      if n == 0 then [] else (if Hit(t, n) then [t[n - 1]] else []) + Picked(t, n - 1)
    }

    lemma {:induction false} HitsSplit(t: Text, lo: nat, mid: nat, hi: nat)
      requires lo <= mid <= hi
      ensures Hits(t, lo, hi) == Hits(t, lo, mid) + Hits(t, mid, hi)
      decreases hi
    {
      if hi > mid {
        HitsSplit(t, lo, mid, hi - 1);
      }
    }

    /** If the next match after c is line n, nothing in between matches. */
    lemma {:induction false} NextHit(t: Text, c: nat, hi: nat) returns (n: nat)
      requires c <= hi && Hits(t, c, hi) != []
      ensures c < n <= hi && Hit(t, n) && Hits(t, c, hi) == [n] + Hits(t, n, hi)
      ensures forall i :: c < i < n ==> !Hit(t, i)
      decreases hi
    {
      if Hits(t, c, hi - 1) == [] {
        n := hi;
        NoHits(t, c, hi - 1);
      } else {
        n := NextHit(t, c, hi - 1);
      }
    }

    lemma {:induction false} NoHits(t: Text, c: nat, hi: nat)
      requires c <= hi && Hits(t, c, hi) == []
      ensures forall i :: c < i <= hi ==> !Hit(t, i)
      decreases hi
    {
      if hi > c {
        NoHits(t, c, hi - 1);
      }
    }

    lemma {:induction false} SurvivorsSkip(t: Text, c: nat, n: nat)
      requires c <= n <= |t| && forall i :: c < i <= n ==> !Hit(t, i)
      ensures Survivors(t, n) == Survivors(t, c) + t[c..n] && Picked(t, n) == Picked(t, c)
      decreases n
    {
      if n > c {
        SurvivorsSkip(t, c, n - 1);
        assert t[c..n] == t[c..n - 1] + [t[n - 1]];
      }
    }
  }

  /** The lines a global takes: those of its range that match, or that do not for v, in order. */
  lemma {:induction false} HitsAre(g: Spec, t: Text, lo: nat, hi: nat, n: nat)
    ensures n in g.Hits(t, lo, hi) <==>
      && lo < n <= hi && g.a1 <= n <= g.a2 && 1 <= n <= |t|
      && (if g.invert then !g.re(t[n - 1]) else g.re(t[n - 1]))
    decreases hi
  {
    if hi > lo {
      HitsAre(g, t, lo, hi - 1, n);
      InBoth(g.Hits(t, lo, hi - 1), if g.Hit(t, hi) then [hi] else [], n);
    }
  }

  lemma {:induction false} InBoth(a: seq<nat>, b: seq<nat>, n: nat)
    ensures n in a + b <==> n in a || n in b
  {
  }

  lemma {:induction false} HitsAscend(g: Spec, t: Text, lo: nat, hi: nat)
    ensures forall i, j :: 0 <= i < j < |g.Hits(t, lo, hi)| ==> g.Hits(t, lo, hi)[i] < g.Hits(t, lo, hi)[j]
    ensures forall i :: 0 <= i < |g.Hits(t, lo, hi)| ==> g.Hits(t, lo, hi)[i] <= hi
    decreases hi
  {
    hide Spec.Hit;
    if hi > lo { HitsAscend(g, t, lo, hi - 1); }
  }

  // ----- setup ---------------------------------------------------------------------------

  lemma {:induction false} SpanSnoc(a: nat, b: nat)
    requires a <= b + 1
    ensures Span(a, b + 1) == Span(a, b) + [b + 1]
    decreases b - a
  {
    if a <= b {
      SpanSnoc(a + 1, b);
    }
  }

  lemma {:induction false} LinesGrow(rs: seq<Range>, lo: nat)
    requires rs != [] && Ordered(rs, lo)
    ensures var n := |rs| - 1;
            var ss := rs[n := Range(rs[n].start, rs[n].stop + 1)];
            Ordered(ss, lo) && Lines(ss) == Lines(rs) + [rs[n].stop + 1]
    decreases |rs|
  {
    var n := |rs| - 1;
    var ss := rs[n := Range(rs[n].start, rs[n].stop + 1)];
    if n == 0 {
      SpanSnoc(rs[0].start, rs[0].stop);
      assert Lines(rs[1..]) == [] && Lines(ss[1..]) == [];
    } else {
      LinesGrow(rs[1..], rs[0].stop + 1);
      assert ss[1..] == rs[1..][n - 1 := Range(rs[n].start, rs[n].stop + 1)];
    }
  }

  lemma {:induction false} LinesAppend(rs: seq<Range>, lo: nat, n: nat)
    requires Ordered(rs, lo) && lo <= n && (rs != [] ==> rs[|rs| - 1].stop < n)
    ensures Ordered(rs + [Range(n, n)], lo) && Lines(rs + [Range(n, n)]) == Lines(rs) + [n]
    decreases |rs|
  {
    if rs == [] {
      assert rs + [Range(n, n)] == [Range(n, n)] && [Range(n, n)][1..] == [];
      assert Span(n, n) == [n] + Span(n + 1, n);
    } else {
      LastStop(rs, lo);
      LinesAppend(rs[1..], rs[0].stop + 1, n);
      assert (rs + [Range(n, n)])[1..] == rs[1..] + [Range(n, n)];
    }
  }

  lemma {:induction false} LastStop(rs: seq<Range>, lo: nat)
    requires Ordered(rs, lo) && rs != []
    ensures rs[0].stop <= rs[|rs| - 1].stop
    decreases |rs|
  {
    if |rs| > 1 {
      LastStop(rs[1..], rs[0].stop + 1);
    }
  }

  /** Put line n, beyond all the ranges, onto them: extend the last one or start another. */
  method AddLine(rs: seq<Range>, n: nat) returns (ss: seq<Range>)
    requires Ordered(rs, 1) && 1 <= n && (rs != [] ==> rs[|rs| - 1].stop < n)
    ensures Ordered(ss, 1) && Lines(ss) == Lines(rs) + [n]
    ensures ss != [] && ss[|ss| - 1].stop == n
  {
    hide Ordered, Lines;
    if rs != [] && rs[|rs| - 1].stop == n - 1 {
      LinesGrow(rs, 1);
      ss := rs[|rs| - 1 := Range(rs[|rs| - 1].start, rs[|rs| - 1].stop + 1)];
    } else {
      LinesAppend(rs, 1, n);
      ss := rs + [Range(n, n)];
    }
  }

  /** The setup loop: the ranges are exactly the matching lines, adjacent ones merged. */
  method BuildRanges(ed: Editor, g: Spec) returns (rs: seq<Range>)
    requires ed.Valid() && ed.Coherent() && 1 <= g.a1 && g.a2 <= |ed.db|
    modifies ed`cLno, ed`cLine
    ensures ed.Valid() && ed.Coherent()
    ensures Ordered(rs, 1) && Lines(rs) == g.Hits(ed.db, 0, |ed.db|)
  {
    hide Editor.Valid, Editor.Coherent, Ordered, Lines, Spec.Hits;
    rs := [];
    NoRanges();
    NoHitsOutside(ed.db, g, 0, g.a1 - 1);
    var start := g.a1;
    while start <= g.a2
      invariant g.a1 <= start && (start <= g.a2 + 1 || start == g.a1)
      invariant ed.Valid() && ed.Coherent()
      invariant Ordered(rs, 1) && Lines(rs) == g.Hits(ed.db, 0, start - 1)
      invariant rs != [] ==> rs[|rs| - 1].stop < start
    {
      var p := GetLine(ed, start);
      HitsNext(ed.db, g, start);
      if g.re(p) != g.invert {
        rs := AddLine(rs, start);
      }
      start := start + 1;
    }
    RestOutside(ed.db, g, start - 1);
  }

  lemma {:induction false} HitsNext(t: Text, g: Spec, n: nat)
    requires g.a1 <= n <= g.a2 <= |t| && n >= 1
    ensures g.Hits(t, 0, n) == if g.re(t[n - 1]) != g.invert then g.Hits(t, 0, n - 1) + [n] else g.Hits(t, 0, n - 1)
  {
  }

  lemma {:induction false} RestOutside(t: Text, g: Spec, n: nat)
    requires g.a2 <= |t| && (n == g.a2 || (g.a2 <= n && n == g.a1 - 1))
    ensures g.Hits(t, 0, n) == g.Hits(t, 0, |t|)
  {
    hide Spec.Hits;
    if n <= |t| {
      NoHitsOutside(t, g, n, |t|);
      g.HitsSplit(t, 0, n, |t|);
    } else {
      NoHitsOutside(t, g, 0, |t|);
      NoHitsOutside(t, g, 0, n);
    }
  }

  lemma {:induction false} NoRanges()
    ensures Ordered([], 1) && Lines([]) == []
  {
  }

  lemma {:induction false} NoHitsOutside(t: Text, g: Spec, lo: nat, hi: nat)
    requires hi < g.a1 || lo >= g.a2 || g.a1 > g.a2
    ensures g.Hits(t, lo, hi) == []
    decreases hi
  {
    if hi > lo {
      NoHitsOutside(t, g, lo, hi - 1);
    }
  }

  /** mark_set outside the log. */
  method SetMark(ed: Editor, name: char, m: Mark)
    requires ed.Valid()
    modifies ed`marks
    ensures ed.Valid() && ed.marks == MarksSet(old(ed.marks), name, m, true)
  {
    ed.MarkSet(name, m, true);
  }

  method SetCmds(ed: Editor, cs: seq<ExCmd>)
    requires ed.Valid()
    modifies ed`cmds
    ensures ed.Valid() && ed.cmds == cs
  {
    ed.cmds := cs;
  }

  /** ex_g_setup: the previous context mark is set, and the command goes onto the stack with
      its pending lines.  oclen is the length of the command text. */
  method ExGSetup(ed: Editor, g: Spec, oclen: nat) returns (err: bool)
    requires ed.Valid() && ed.Coherent() && 1 <= g.a1 && g.a2 <= |ed.db|
    modifies ed`cLno, ed`cLine, ed`marks, ed`cmds
    ensures ed.Valid() && ed.Coherent()
    ensures err <==> ed.exGlobal
    ensures err ==> ed.cmds == old(ed.cmds) && ed.marks == old(ed.marks)
    ensures !err ==> ed.marks == MarksSet(old(ed.marks), ABSMARK1, ed.at, true)
    ensures !err ==> |ed.cmds| == |old(ed.cmds)| + 1 && ed.cmds[1..] == old(ed.cmds) && Pending(ed.cmds[0], g, ed.db, oclen)
  {
    hide Editor.Valid, Editor.Coherent, Ordered, Lines, MarksSet;
    if ed.exGlobal {
      return true;
    }
    SetMark(ed, ABSMARK1, ed.at);
    var rs := BuildRanges(ed, g);
    ghost var cs := ed.cmds;
    var c := ExCmd(if g.invert then GlobalV else Agv.Global, 0, if oclen == 0 then 1 else oclen, rs, OOBLNO);
    SetCmds(ed, [c] + ed.cmds);
    return false;
  }

  /** A global command before its first line. */
  ghost predicate Pending(c: ExCmd, g: Spec, t: Text, oclen: nat) {
    && c.agv == (if g.invert then GlobalV else Agv.Global) && c.clen == 0 && c.oclen == (if oclen == 0 then 1 else oclen)
    && Ordered(c.ranges, 1) && Lines(c.ranges) == g.Hits(t, 0, |t|)
  }

  // ----- ex_load -----------------------------------------------------------------------

  function DropExhausted(rs: seq<Range>): seq<Range> {
    if rs != [] && rs[0].start > rs[0].stop then DropExhausted(rs[1..]) else rs
  }

  /** The command stack after ex_load, and the line the loaded command runs on. */
  function Load(cs: seq<ExCmd>): (seq<ExCmd>, Option<nat>) {
    if |cs| <= 1 || cs[0].clen != 0 then (cs, None)
    else if cs[0].agv == NotAgv then Load(cs[1..])
    else
      var c, rs := cs[0], DropExhausted(cs[0].ranges);
      if rs == [] then Load(cs[1..])
      else
        ([c.(clen := c.oclen, rangeLno := rs[0].start, ranges := [Range(rs[0].start + 1, rs[0].stop)] + rs[1..])] + cs[1..],
         Some(rs[0].start))
  }

  /** Where a global command that is discarded leaves the cursor: on the line its last edit was at, or the
      last line, or line 1 of an empty file. */
  function FixedLine(t: Text, lno: nat): nat {
    if 1 <= lno <= |t| then lno else if t == [] then 1 else |t|
  }

  /** The line the cursor is on after ex_load. */
  function LoadLine(cs: seq<ExCmd>, t: Text, lno: nat): nat {
    if |cs| <= 1 || cs[0].clen != 0 then lno
    else if cs[0].agv == NotAgv then LoadLine(cs[1..], t, lno)
    else
      var rs := DropExhausted(cs[0].ranges);
      if rs != [] then rs[0].start
      else
        LoadLine(cs[1..], t,
                 if (cs[0].agv == Agv.Global || cs[0].agv == GlobalV) && cs[0].rangeLno != OOBLNO
                 then FixedLine(t, cs[0].rangeLno) else lno)
  }

  /** The cursor after ex_load, by what is on top of the stack: the base command, or one with text left, leaves
      it alone; a command with lines pending takes it to the first of them; a finished global leaves it on the line of
      its last edit, or on the last line if that is gone (line 1 of an empty file), and others leave it alone, before
      the next command has its turn. */
  lemma {:induction false} CursorAfterLoad(c: ExCmd, below: seq<ExCmd>, t: Text, lno: nat)
    ensures below == [] || c.clen != 0 ==> LoadLine([c] + below, t, lno) == lno
    ensures below != [] && c.clen == 0 && c.agv == NotAgv ==> LoadLine([c] + below, t, lno) == LoadLine(below, t, lno)
    ensures below != [] && c.clen == 0 && c.agv != NotAgv && (forall r :: r in c.ranges ==> r.start > r.stop) ==>
      LoadLine([c] + below, t, lno) ==
      LoadLine(below, t,
               if (c.agv != Agv.Global && c.agv != GlobalV) || c.rangeLno == 0 then lno
               else if c.rangeLno <= |t| then c.rangeLno
               else if |t| == 0 then 1 else |t|)
    ensures below != [] && c.clen == 0 && c.agv != NotAgv ==>
      forall i :: 0 <= i < |c.ranges| && c.ranges[i].start <= c.ranges[i].stop
                  && (forall j :: 0 <= j < i ==> c.ranges[j].start > c.ranges[j].stop) ==>
        LoadLine([c] + below, t, lno) == c.ranges[i].start
  {
    hide DropExhausted;
    assert ([c] + below)[1..] == below;
    DroppedMeans(c.ranges);
  }

  lemma {:induction false} DroppedMeans(rs: seq<Range>)
    ensures (forall r :: r in rs ==> r.start > r.stop) ==> DropExhausted(rs) == []
    ensures forall i ::
      0 <= i < |rs| && rs[i].start <= rs[i].stop && (forall j :: 0 <= j < i ==> rs[j].start > rs[j].stop)
      ==> DropExhausted(rs) == rs[i..]
  {
    if rs != [] && rs[0].start > rs[0].stop {
      DroppedMeans(rs[1..]);
      forall i | 0 <= i < |rs| && rs[i].start <= rs[i].stop && (forall j :: 0 <= j < i ==> rs[j].start > rs[j].stop)
        ensures DropExhausted(rs) == rs[i..]
      {
        assert rs[1..][i - 1] == rs[i] && rs[1..][i - 1..] == rs[i..];
      }
    }
  }

  /** ex_load: discard what is exhausted, then load the next pending line, if any. */
  method ExLoad(ed: Editor) returns (loaded: bool)
    requires ed.Valid() && ed.Coherent() && ed.cmds != []
    modifies ed`cmds, ed`at, ed`exGlobal, ed`cLno, ed`cLine, ed`cNlines
    ensures ed.Valid() && ed.Coherent() && ed.cmds != []
    ensures (ed.cmds, if loaded then Some(ed.at.lno) else None) == Load(old(ed.cmds))
    ensures ed.at.lno == LoadLine(old(ed.cmds), ed.db, old(ed.at.lno))
    ensures loaded ==> ed.exGlobal == (ed.cmds[0].agv == Agv.Global || ed.cmds[0].agv == GlobalV)
    ensures !loaded ==> !ed.exGlobal
  {
    hide Editor.Valid, Editor.Coherent;
    ed.exGlobal := false;
    while true
      invariant ed.Valid() && ed.Coherent() && ed.cmds != [] && !ed.exGlobal
      invariant Load(ed.cmds) == Load(old(ed.cmds))
      invariant LoadLine(ed.cmds, ed.db, ed.at.lno) == LoadLine(old(ed.cmds), ed.db, old(ed.at.lno))
      decreases |ed.cmds|
    {
      // Only the first structure is left, and it stays.
      if |ed.cmds| == 1 {
        return false;
      }
      var c := ed.cmds[0];
      if c.clen != 0 {
        return false;
      }
      if c.agv != NotAgv {
        // Ranges with no line left in them go.
        var rs := c.ranges;
        while rs != [] && rs[0].start > rs[0].stop
          invariant DropExhausted(rs) == DropExhausted(c.ranges)
          decreases |rs|
        {
          rs := rs[1..];
        }
        // The next pending line, if there is one, is the one to run on.
        if rs != [] {
          var rp := rs[0];
          var now := c.(clen := c.oclen, rangeLno := rp.start, ranges := [Range(rp.start + 1, rp.stop)] + rs[1..]);
          SetCmds(ed, [now] + ed.cmds[1..]);
          ed.at := ed.at.(lno := rp.start);
          ed.exGlobal := c.agv == Agv.Global || c.agv == GlobalV;
          return true;
        }
        // A finished global leaves the cursor where its last edit was.
        if (c.agv == Agv.Global || c.agv == GlobalV) && c.rangeLno != OOBLNO {
          FixLine(ed, c.rangeLno);
        }
      }
      SetCmds(ed, ed.cmds[1..]);
    }
  }

  method FixLine(ed: Editor, lno: nat)
    requires ed.Valid() && ed.Coherent() && lno != OOBLNO
    modifies ed`at, ed`cLno, ed`cLine, ed`cNlines
    ensures ed.Valid() && ed.Coherent() && ed.at == old(ed.at).(lno := FixedLine(ed.db, lno))
  {
    hide Sorted, Editor.LogInv;
    var there := ed.DbExist(lno);
    if there {
      ed.at := ed.at.(lno := lno);
    } else {
      var last := ed.DbLast();
      ed.at := ed.at.(lno := if last == 0 then 1 else last);
    }
  }

  // ----- draining ------------------------------------------------------------------------

  lemma {:induction false} DropKeepsLines(rs: seq<Range>, lo: nat)
    requires Ordered(rs, lo)
    ensures var ss := DropExhausted(rs);
            && Lines(ss) == Lines(rs) && Ordered(ss, lo)
            && (ss != [] ==> ss[0].start <= ss[0].stop)
    decreases |rs|
  {
    if rs != [] && rs[0].start > rs[0].stop {
      assert Span(rs[0].start, rs[0].stop) == [];
      DropKeepsLines(rs[1..], rs[0].stop + 1);
      var ss := DropExhausted(rs);
      assert ss == DropExhausted(rs[1..]);
      OrderedFrom(ss, rs[0].stop + 1, lo);
    }
  }

  lemma {:induction false} OrderedFrom(rs: seq<Range>, hi: nat, lo: nat)
    requires Ordered(rs, hi) && lo <= hi
    ensures Ordered(rs, lo)
  {
  }

  /** A global command on top of others is loaded for its first pending line; out of lines, it is
      discarded, and it is the turn of the others. */
  lemma {:induction false} LoadTakesFirst(c: ExCmd, below: seq<ExCmd>, lo: nat)
    requires c.agv != NotAgv && c.clen == 0 && Ordered(c.ranges, lo) && below != []
    ensures var (cs, line) := Load([c] + below);
            if Lines(c.ranges) == [] then (cs, line) == Load(below) && 0 < |cs| <= |below|
            else
              && line == Some(Lines(c.ranges)[0]) && lo <= Lines(c.ranges)[0]
              && |cs| == |below| + 1 && cs[1..] == below
              && cs[0] == c.(clen := c.oclen, rangeLno := Lines(c.ranges)[0], ranges := cs[0].ranges)
              && Ordered(cs[0].ranges, Lines(c.ranges)[0] + 1) && Lines(cs[0].ranges) == Lines(c.ranges)[1..]
  {
    hide Ordered, Lines, DropExhausted;
    DropKeepsLines(c.ranges, lo);
    assert ([c] + below)[1..] == below;
    LoadShrinks(below);
    FirstLine(DropExhausted(c.ranges), lo);
  }

  lemma {:induction false} LoadShrinks(cs: seq<ExCmd>)
    requires cs != []
    ensures 0 < |Load(cs).0| <= |cs|
    decreases |cs|
  {
    hide DropExhausted;
    if |cs| > 1 { LoadShrinks(cs[1..]); }
  }

  lemma {:induction false} LinesCons(r: Range, rest: seq<Range>, lo: nat)
    ensures Lines([r] + rest) == Span(r.start, r.stop) + Lines(rest)
    ensures Ordered([r] + rest, lo) <==> lo <= r.start <= r.stop + 1 && Ordered(rest, r.stop + 1)
  {
    assert ([r] + rest)[1..] == rest;
  }

  lemma {:induction false} FirstLine(rs: seq<Range>, lo: nat)
    requires Ordered(rs, lo) && (rs != [] ==> rs[0].start <= rs[0].stop)
    ensures Lines(rs) == [] <==> rs == []
    ensures rs != [] ==>
      var ss := [Range(rs[0].start + 1, rs[0].stop)] + rs[1..];
      lo <= rs[0].start && Lines(rs) == [rs[0].start] + Lines(ss) && Lines(rs)[1..] == Lines(ss) && Ordered(ss, rs[0].start + 1)
  {
    if rs != [] {
      hide Ordered, Lines;
      FirstLineOf(rs[0], rs[1..], lo);
      assert rs == [rs[0]] + rs[1..];
    }
  }

  lemma {:induction false} FirstLineOf(r: Range, rest: seq<Range>, lo: nat)
    requires Ordered([r] + rest, lo) && r.start <= r.stop
    ensures var ss := [Range(r.start + 1, r.stop)] + rest;
            && lo <= r.start && Lines([r] + rest) == [r.start] + Lines(ss) && Lines([r] + rest)[1..] == Lines(ss)
            && Ordered(ss, r.start + 1)
  {
    hide Ordered, Lines;
    var s := Range(r.start + 1, r.stop);
    LinesCons(r, rest, lo);
    LinesCons(s, rest, r.start + 1);
    assert ([r.start] + Span(s.start, s.stop)) + Lines(rest) == [r.start] + (Span(s.start, s.stop) + Lines(rest));
  }

  /** What deleting lines ls of a file, first to last, does to the commands under the global one: the lines
      before have gone when the next goes. */
  function UnderDeletes(cs: seq<ExCmd>, ls: seq<nat>): (r: seq<ExCmd>)
    ensures |r| == |cs|
  {
    if ls == [] then cs
    else
      var k := |ls| - 1;
      var r := UnderDeletes(cs, ls[..k]);
      if ls[k] > k then CmdsInsDel(r, true, ls[k] - k) else r
  }

  /** The state between two lines of :g/re/d -- lines through c of the original file t are
      dealt with, k of them deleted. */
  ghost predicate Deleting(g: Spec, t: Text, c: nat, k: nat, db: Text, cs: seq<ExCmd>, below: seq<ExCmd>) {
    && k <= c <= |t| && k == |g.Hits(t, 0, c)|
    && db == g.Survivors(t, c) + t[c..] && |g.Survivors(t, c)| == c - k
    && cs != [] && cs[1..] == UnderDeletes(below, g.Hits(t, 0, c)) && Tracked(cs[0]) && cs[0].clen == 0
    && Ordered(cs[0].ranges, c - k + 1) && Lines(cs[0].ranges) == Minus(g.Hits(t, c, |t|), k)
  }

  /** Deleting the loaded line takes the state on to the next one. */
  lemma {:induction false} DeletingStep(g: Spec, t: Text, c: nat, k: nat, db: Text, cs: seq<ExCmd>, below: seq<ExCmd>)
    returns (n: nat)
    requires Deleting(g, t, c, k, db, cs, below) && below != [] && Lines(cs[0].ranges) != []
    ensures var (ds, line) := Load(cs);
            && c < n <= |t| && line == Some(n - k) && ds != []
            && 1 <= n - k <= |db|
            && Deleting(g, t, n, k + 1, DeleteAt(db, n - k), CmdsInsDel([ds[0].(clen := 0)] + ds[1..], true, n - k),
                        below)
  {
    hide DeleteAt, Ordered, Lines, Load, RangesDelete, Minus, UnderDeletes, CmdsInsDel, Spec.Survivors, Spec.Hits,
         Spec.Hit;
    assert cs == [cs[0]] + cs[1..];
    LoadTakesFirst(cs[0], cs[1..], c - k + 1);
    n := NextPending(g, t, c, k);
    var ds := Load(cs).0;
    DeleteShifts(ds[0].ranges, n - k, n - k + 1);
    g.SurvivorsSkip(t, c, n - 1);
    SurvivorsNext(g, t, c, n);
    DeleteNext(g.Survivors(t, c), t, c, n);
    MinusTwice(g.Hits(t, n, |t|), k);
    HitsTo(g, t, c, n);
    UnderDeletesNext(below, g.Hits(t, 0, c), n);
    AdjustedTop(ds[0].(clen := 0), ds[1..], true, n - k);
  }

  lemma {:induction false} UnderDeletesNext(cs: seq<ExCmd>, ls: seq<nat>, n: nat)
    requires n > |ls|
    ensures UnderDeletes(cs, ls + [n]) == CmdsInsDel(UnderDeletes(cs, ls), true, n - |ls|)
  {
    assert (ls + [n])[..|ls|] == ls;
  }

  lemma {:induction false} AdjustedTop(c: ExCmd, cs: seq<ExCmd>, del: bool, lno: nat)
    requires lno >= 1
    ensures var r := CmdsInsDel([c] + cs, del, lno);
            r != [] && r[0] == CmdInsDel(c, del, lno) && r[1..] == CmdsInsDel(cs, del, lno)
  {
  }

  lemma {:induction false} HitsTo(g: Spec, t: Text, c: nat, n: nat)
    requires c < n <= |t| && g.Hit(t, n) && forall i :: c < i < n ==> !g.Hit(t, i)
    ensures g.Hits(t, 0, n) == g.Hits(t, 0, c) + [n]
  {
    NoneHit(g, t, c, n - 1);
    g.HitsSplit(t, 0, c, n);
  }

  lemma {:induction false} NoneHit(g: Spec, t: Text, c: nat, hi: nat)
    requires c <= hi && forall i :: c < i <= hi ==> !g.Hit(t, i)
    ensures g.Hits(t, c, hi) == []
    decreases hi
  {
    if hi > c { NoneHit(g, t, c, hi - 1); }
  }

  lemma {:induction false} NextPending(g: Spec, t: Text, c: nat, k: nat) returns (n: nat)
    requires c <= |t| && Minus(g.Hits(t, c, |t|), k) != []
    ensures c < n <= |t| && g.Hit(t, n) && forall i :: c < i < n ==> !g.Hit(t, i)
    ensures var m := Minus(g.Hits(t, c, |t|), k);
            m[0] == n - k && m[1..] == Minus(g.Hits(t, n, |t|), k)
  {
    n := g.NextHit(t, c, |t|);
    assert ([n] + g.Hits(t, n, |t|))[1..] == g.Hits(t, n, |t|);
  }

  lemma {:induction false} SurvivorsNext(g: Spec, t: Text, c: nat, n: nat)
    requires c < n <= |t| && g.Hit(t, n) && g.Survivors(t, n - 1) == g.Survivors(t, c) + t[c..n - 1]
    ensures g.Survivors(t, n) == g.Survivors(t, c) + t[c..n - 1]
    ensures |g.Survivors(t, n)| == |g.Survivors(t, c)| + n - 1 - c
  {
  }

  lemma {:induction false} DeleteNext(s: Text, t: Text, c: nat, n: nat)
    requires c < n <= |t|
    ensures var l := |s| + n - c; DeleteAt(s + t[c..], l) == (s + t[c..n - 1]) + t[n..] && l <= |s + t[c..]|
  {
  }

  lemma {:induction false} MinusTwice(ls: seq<nat>, k: nat)
    requires forall i :: 0 <= i < |Minus(ls, k)| ==> Minus(ls, k)[i] >= 0
    ensures Minus(Minus(ls, k), 1) == Minus(ls, k + 1)
  {
    if ls != [] {
      assert Minus(ls, k)[0] >= 0;
      assert Minus(ls, k)[1..] == Minus(ls[1..], k);
      MinusTwice(ls[1..], k);
    }
  }

  /** ex_delete of a line range, cutting it into the unnamed buffer first. The cursor goes to the first
      line after it, or to the last line, which is line 0 when the file is now empty. */
  method ExDelete(ed: Editor, bufs: Buffers, a1: nat, a2: nat) returns (ghost es: seq<Edit>)
    requires bufs.Valid() && ed.Valid() && ed.Coherent() && 1 <= a1 <= a2 <= |ed.db|
    modifies ed, bufs
    ensures bufs.Valid() && ed.Valid() && ed.Coherent() && ed.noLog == old(ed.noLog)
    ensures ed.db == WithoutLines(old(ed.db), a1, a2)
    ensures a1 == a2 ==> ed.cmds == CmdsInsDel(old(ed.cmds), true, a1)
    ensures Reached(old(ed.History()), ed.History(), es, ed.noLog) && Deletes(es)
    ensures a1 == a2 ==> es == [DeleteLine(a1, old(ed.db[a1 - 1]))]
    ensures DefaultBuffer(bufs.Now()).Some? && DefaultBuffer(bufs.Now()).value.text == old(ed.db)[a1 - 1..a2]
    ensures ed.at.lno == if a1 > |ed.db| then |ed.db| else a1
  {
    hide Editor.Valid, Editor.Coherent, WithoutLines, Rotated, FilledNamed, Filled, DefaultBuffer, Reached, Deletes;
    ghost var t := ed.db;
    DefaultIsCut(bufs.Now(), None, false, Pieces(t, a1, 0, a2, 0, true), true);
    var err := bufs.Cut(ed, None, Mark(a1, 0), a2, 0, true, NumNone);
    err, es := Del(ed, Mark(a1, 0), a2, 0, true);
    ed.at := ed.at.(lno := a1);
    var last := DbLastLine(ed);
    if a1 > last {
      ed.at := ed.at.(lno := last);
    }
  }

  /** The command loop between two commands: load the next line, and let the parser take the command, if it is
      not one of the depth that were there before. */
  method TakeNext(ed: Editor, depth: nat, ghost a: Journal, ghost body: Log) returns (ours: bool)
    requires ed.Valid() && ed.Coherent() && ed.cmds != [] && Spelled(a, ed.History(), body, ed.noLog)
    modifies ed`cmds, ed`at, ed`exGlobal, ed`cLno, ed`cLine, ed`cNlines
    ensures ed.Valid() && ed.Coherent() && Spelled(a, ed.History(), body, ed.noLog)
    ensures var (cs, line) := Load(old(ed.cmds));
            && cs != [] && (line.Some? ==> ed.at.lno == line.value)
            && (ours <==> line.Some? && |cs| > depth)
            && ed.cmds == if ours then [cs[0].(clen := 0)] + cs[1..] else cs
  {
    hide Editor.Valid, Editor.Coherent, Load, LoadLine, Spelled;
    ghost var h := ed.History();
    ours := ExLoad(ed);
    ours := ours && |ed.cmds| > depth;
    if ours {
      SetCmds(ed, [ed.cmds[0].(clen := 0)] + ed.cmds[1..]);
    }
    SpelledDoc(a, h, ed.History(), body, ed.noLog);
  }

  /** :g/re/d deletes exactly the lines that matched when the command was given, and leaves the commands
      that were there before with the next of them loaded. */
  method GlobalDelete(ed: Editor, bufs: Buffers, g: Spec, oclen: nat) returns (err: bool, ghost body: Log)
    requires bufs.Valid() && ed.Valid() && ed.Coherent() && 1 <= g.a1 && g.a2 <= |ed.db| && ed.cmds != []
    modifies ed, bufs
    ensures bufs.Valid() && ed.Valid() && ed.Coherent() && ed.noLog == old(ed.noLog)
    ensures err == old(ed.exGlobal)
    ensures ed.db == if err then old(ed.db) else g.Survivors(old(ed.db), |old(ed.db)|)
    ensures ed.cmds == if err then old(ed.cmds)
                       else Load(UnderDeletes(old(ed.cmds), g.Hits(old(ed.db), 0, |old(ed.db)|))).0
    ensures Spelled(old(ed.History()), ed.History(), body, ed.noLog)
    ensures !err && g.Hits(old(ed.db), 0, |old(ed.db)|) != [] ==> body != []
  {
    hide Editor.Valid, Editor.Coherent, Deleting, Load, Pending, MarksSet, Spec.Survivors, Spec.Hits, DeleteAt, WithoutLines,
         Spelled, Reached, Deletes, LogOf, DefaultBuffer, CmdsInsDel, UnderDeletes, Buffers.Valid, Lines, InsertAt;
    ghost var a, t, below, c, k := ed.History(), ed.db, ed.cmds, 0, 0;
    var depth := |ed.cmds|;
    SpelledSelf(a, ed.noLog);
    body := [];
    err := ExGSetup(ed, g, oclen);
    SpelledDoc(a, a, ed.History(), body, ed.noLog);
    if err {
      return;
    }
    DeletingStarts(g, t, ed.cmds, below, oclen);
    while true
      invariant bufs.Valid() && ed.Valid() && ed.Coherent() && ed.noLog == old(ed.noLog)
      invariant Deleting(g, t, c, k, ed.db, ed.cmds, below)
      invariant k <= c <= |t| && (c > 0 ==> body != [])
      invariant Spelled(a, ed.History(), body, ed.noLog)
      decreases |t| - c
    {
      var ours;
      ours, body, c := DeleteTurn(ed, bufs, depth, g, t, c, k, below, a, body);
      if !ours {
        return;
      }
      k := k + 1;
      DeletingIs(g, t, c, k, ed.db, ed.cmds, below);
    }
  }

  /** One turn: the next line is loaded and deleted, or the work is done. */
  method DeleteTurn(ed: Editor, bufs: Buffers, depth: nat, ghost g: Spec, ghost t: Text, ghost c: nat, ghost k: nat,
                    ghost below: seq<ExCmd>, ghost a: Journal, ghost body0: Log)
    returns (ours: bool, ghost body: Log, ghost n: nat)
    requires bufs.Valid() && ed.Valid() && ed.Coherent() && below != [] && depth == |below|
    requires Deleting(g, t, c, k, ed.db, ed.cmds, below) && Spelled(a, ed.History(), body0, ed.noLog)
    modifies ed, bufs
    ensures bufs.Valid() && ed.Valid() && ed.Coherent() && ed.noLog == old(ed.noLog)
    ensures Spelled(a, ed.History(), body, ed.noLog)
    ensures if ours then c < n <= |t| && Deleting(g, t, n, k + 1, ed.db, ed.cmds, below) && body != []
            else
              && body == body0 && ed.db == g.Survivors(t, |t|)
              && ed.cmds == Load(UnderDeletes(below, g.Hits(t, 0, |t|))).0 && (c == 0 ==> g.Hits(t, 0, |t|) == [])
  {
    hide *;
    DeletingLoads(g, t, c, k, ed.db, ed.cmds, below);
    ghost var cs := ed.cmds;
    body, n := body0, c;
    ours := TakeNext(ed, depth, a, body);
    if ours {
      body, n := DeleteLoaded(ed, bufs, g, t, c, k, cs, below, a, body);
    }
  }

  /** The command is ex_delete on the loaded line. */
  method DeleteLoaded(ed: Editor, bufs: Buffers, ghost g: Spec, ghost t: Text, ghost c: nat, ghost k: nat,
                      ghost cs: seq<ExCmd>, ghost below: seq<ExCmd>, ghost a: Journal, ghost body0: Log)
    returns (ghost body: Log, ghost n: nat)
    requires bufs.Valid() && ed.Valid() && ed.Coherent() && below != [] && cs != [] && Lines(cs[0].ranges) != []
    requires Deleting(g, t, c, k, ed.db, cs, below) && Spelled(a, ed.History(), body0, ed.noLog)
    requires var (ds, line) := Load(cs);
             ds != [] && (line.Some? ==> line.value == ed.at.lno) && ed.cmds == [ds[0].(clen := 0)] + ds[1..]
    modifies ed, bufs
    ensures bufs.Valid() && ed.Valid() && ed.Coherent() && ed.noLog == old(ed.noLog)
    ensures Spelled(a, ed.History(), body, ed.noLog) && body != []
    ensures c < n <= |t| && Deleting(g, t, n, k + 1, ed.db, ed.cmds, below)
  {
    hide Editor.Valid, Editor.Coherent, Deleting, Load, Spec.Survivors, Spec.Hits, DeleteAt, WithoutLines, Spelled, Reached,
         Deletes, LogOf, DefaultBuffer, CmdsInsDel, UnderDeletes, Buffers.Valid, Lines, InsertAt;
    n := DeletingStep(g, t, c, k, ed.db, cs, below);
    ghost var db, b := ed.db, ed.History();
    ghost var es := ExDelete(ed, bufs, ed.at.lno, ed.at.lno);
    body := MoreSpelled(a, b, ed.History(), body0, es, ed.noLog);
    OneLine(db, n - k);
  }

  /** Given from the command line, it leaves the stack as it was. */
  lemma {:induction false} BaseStays(base: ExCmd, ls: seq<nat>)
    requires base.agv == NotAgv
    ensures Load(UnderDeletes([base], ls)).0 == [base] && Load(UnderMoves([base], ls)).0 == [base]
  {
    BaseUntouched(base, ls);
  }

  lemma {:induction false} BaseUntouched(base: ExCmd, ls: seq<nat>)
    requires base.agv == NotAgv
    ensures UnderDeletes([base], ls) == [base] && UnderMoves([base], ls) == [base]
  {
    if ls != [] { BaseUntouched(base, ls[..|ls| - 1]); }
  }

  lemma {:induction false} MoreSpelled(a: Journal, b: Journal, c: Journal, body: Log, es: seq<Edit>, noLog: bool)
    returns (more: Log)
    requires Spelled(a, b, body, noLog) && Reached(b, c, es, noLog) && Deletes(es)
    ensures Spelled(a, c, more, noLog) && (es != [] ==> more != [])
  {
    hide Spelled, Reached, LogOf;
    NoSets(b.doc, es);
    ReachedSpelled(b, c, es, noLog);
    SpelledTrans(a, b, c, body, LogOf(b.doc, es), noLog);
    more := body + LogOf(b.doc, es);
  }

  /** The command is one group of the log, for log_cursor is not called while it runs: the next command
      closes it, and one undo gives back the file. */
  method GlobalDeleteUndone(ed: Editor, bufs: Buffers, g: Spec, oclen: nat)
    requires bufs.Valid() && ed.Valid() && ed.Coherent() && 1 <= g.a1 && g.a2 <= |ed.db|
    requires ed.cmds != []
    requires !ed.noLog && !ed.exGlobal && ed.lCursor.lno != OOBLNO && g.Hits(ed.db, 0, |ed.db|) != []
    modifies ed, bufs
    ensures ed.Valid() && ed.db == old(ed.db) && ed.done == old(ed.done)
  {
    hide Editor.Valid, Editor.Coherent, Spec.Survivors, Spec.Hits, Spelled, Undoable, Journal.Undone, Journal.Closed;
    ghost var a := ed.History();
    var err;
    ghost var body;
    err, body := GlobalDelete(ed, bufs, g, oclen);
    UndoSpelled(a, ed.History(), body, ed.at);
    ClosedIsNotEmpty(a, ed.History(), body, ed.at);
    ed.LogCursor();
    UndoStops(ed.History());
    var rp;
    err, rp := ed.LogBackward();
  }

  lemma {:induction false} ClosedIsNotEmpty(a: Journal, b: Journal, body: Log, at: Mark)
    requires Spelled(a, b, body, false) && body != []
    ensures b.Closed(at).done != []
  {
  }

  lemma {:induction false} OneLine(t: Text, l: nat)
    requires 1 <= l <= |t|
    ensures WithoutLines(t, l, l) == DeleteAt(t, l)
  {
  }

  lemma {:induction false} DeletingIs(g: Spec, t: Text, c: nat, k: nat, db: Text, cs: seq<ExCmd>, below: seq<ExCmd>)
    requires Deleting(g, t, c, k, db, cs, below)
    ensures k <= c <= |t|
  {
  }

  lemma {:induction false} DeletingStarts(g: Spec, t: Text, cs: seq<ExCmd>, below: seq<ExCmd>, oclen: nat)
    requires cs != [] && cs[1..] == below && Pending(cs[0], g, t, oclen)
    ensures Deleting(g, t, 0, 0, t, cs, below)
  {
    hide Ordered;
    assert [] + t[0..] == t;
    MinusNothing(g.Hits(t, 0, |t|));
  }

  lemma {:induction false} MinusNothing(ls: seq<nat>)
    ensures Minus(ls, 0) == ls
  {
    if ls != [] {
      MinusNothing(ls[1..]);
    }
  }

  /** ex_load finds a line of the global exactly when one is pending; when none is, the work is done. */
  lemma {:induction false} DeletingLoads(g: Spec, t: Text, c: nat, k: nat, db: Text, cs: seq<ExCmd>, below: seq<ExCmd>)
    requires Deleting(g, t, c, k, db, cs, below) && below != []
    ensures cs != []
    ensures var (ds, line) := Load(cs);
            if line.Some? && |ds| > |below| then Lines(cs[0].ranges) != []
            else
              && ds == Load(UnderDeletes(below, g.Hits(t, 0, |t|))).0 && db == g.Survivors(t, |t|)
              && (c == 0 ==> g.Hits(t, 0, |t|) == [])
  {
    hide Ordered, Lines, Load, UnderDeletes, Spec.Hits;
    MinusNothing(g.Hits(t, c, |t|));
    assert cs == [cs[0]] + cs[1..];
    LoadTakesFirst(cs[0], cs[1..], c - k + 1);
    if Lines(cs[0].ranges) == [] {
      NothingPending(g, t, c, k);
      NoneHit(g, t, c, |t|);
      g.HitsSplit(t, 0, c, |t|);
      assert g.Hits(t, 0, c) + [] == g.Hits(t, 0, c);
      g.SurvivorsSkip(t, c, |t|);
      assert t[c..|t|] == t[c..];
    }
  }

  lemma {:induction false} NothingPending(g: Spec, t: Text, c: nat, k: nat)
    requires c <= |t| && Minus(g.Hits(t, c, |t|), k) == []
    ensures forall i :: c < i <= |t| ==> !g.Hit(t, i)
  {
    g.NoHits(t, c, |t|);
  }

  // ----- :g/re/m0 -----------------------------------------------------------------------

  /** What moving lines ls of a file to the front, first to last, does to the commands under the global one. */
  function UnderMoves(cs: seq<ExCmd>, ls: seq<nat>): (r: seq<ExCmd>)
    ensures |r| == |cs|
  {
    if ls == [] then cs
    else CmdsInsDel(CmdsInsDel(UnderMoves(cs, ls[..|ls| - 1]), false, 1), true, ls[|ls| - 1] + 1)
  }

  /** The state between two lines of :g/re/m0 -- lines through c of t are dealt with; the
      pending lines keep their numbers. */
  ghost predicate Moving(g: Spec, t: Text, c: nat, db: Text, cs: seq<ExCmd>, below: seq<ExCmd>) {
    && c <= |t|
    && db == g.Picked(t, c) + g.Survivors(t, c) + t[c..] && |g.Picked(t, c)| + |g.Survivors(t, c)| == c
    && cs != [] && cs[1..] == UnderMoves(below, g.Hits(t, 0, c)) && Tracked(cs[0]) && cs[0].clen == 0
    && Ordered(cs[0].ranges, c + 1) && Lines(cs[0].ranges) == g.Hits(t, c, |t|)
  }

  lemma {:induction false} MovingStarts(g: Spec, t: Text, cs: seq<ExCmd>, below: seq<ExCmd>, oclen: nat)
    requires cs != [] && cs[1..] == below && Pending(cs[0], g, t, oclen)
    ensures Moving(g, t, 0, t, cs, below)
  {
    hide Ordered;
    assert [] + [] + t[0..] == t;
  }

  lemma {:induction false} MovingLoads(g: Spec, t: Text, c: nat, db: Text, cs: seq<ExCmd>, below: seq<ExCmd>)
    requires Moving(g, t, c, db, cs, below) && below != []
    ensures cs != []
    ensures var (ds, line) := Load(cs);
            if line.Some? && |ds| > |below| then Lines(cs[0].ranges) != []
            else
              && ds == Load(UnderMoves(below, g.Hits(t, 0, |t|))).0 && db == g.Picked(t, |t|) + g.Survivors(t, |t|)
              && (c == 0 ==> g.Hits(t, 0, |t|) == [])
  {
    hide Ordered, Lines, Load, UnderMoves, Spec.Hits;
    assert cs == [cs[0]] + cs[1..];
    LoadTakesFirst(cs[0], cs[1..], c + 1);
    if Lines(cs[0].ranges) == [] {
      g.HitsSplit(t, 0, c, |t|);
      assert g.Hits(t, 0, c) + [] == g.Hits(t, 0, c);
      g.NoHits(t, c, |t|);
      g.SurvivorsSkip(t, c, |t|);
      assert t[c..|t|] == t[c..];
      assert g.Picked(t, c) + g.Survivors(t, c) + t[c..] == g.Picked(t, c) + (g.Survivors(t, c) + t[c..]);
    }
  }

  /** Moving the loaded line to the front takes the state on: the insertion and the deletion
      leave the pending lines where they were. */
  lemma {:induction false} MovingStep(g: Spec, t: Text, c: nat, db: Text, cs: seq<ExCmd>, below: seq<ExCmd>)
    returns (n: nat)
    requires Moving(g, t, c, db, cs, below) && below != [] && Lines(cs[0].ranges) != []
    ensures var (ds, line) := Load(cs);
            && c < n <= |t| && line == Some(n) && ds != [] && n <= |db|
            && Moving(g, t, n, M.Moved(db, n, n, 0), M.CmdsUp([ds[0].(clen := 0)] + ds[1..], n, 0, 1), below)
  {
    hide Ordered, Lines, Load, RangesDelete, RangesInsert, UnderMoves, CmdsInsDel, Spec.Survivors, Spec.Picked,
         Spec.Hits, Spec.Hit, M.Moved, M.CmdsUp;
    assert cs == [cs[0]] + cs[1..];
    LoadTakesFirst(cs[0], cs[1..], c + 1);
    n := g.NextHit(t, c, |t|);
    assert ([n] + g.Hits(t, n, |t|))[1..] == g.Hits(t, n, |t|);
    var ds := Load(cs).0;
    var top := ds[0].(clen := 0);
    MovedStack(top, ds[1..], n);
    HitsTo(g, t, c, n);
    UnderMovesNext(below, g.Hits(t, 0, c), n);
    g.SurvivorsSkip(t, c, n - 1);
    PickedNext(g, t, n);
    MoveNext(g.Picked(t, c), g.Survivors(t, c), t, c, n);
  }

  lemma {:induction false} MovedStack(top: ExCmd, cs: seq<ExCmd>, n: nat)
    requires n >= 1 && Tracked(top) && Ordered(top.ranges, n + 1)
    ensures var r := M.CmdsUp([top] + cs, n, 0, 1);
            && r != [] && r[0] == top.(rangeLno := n + 1)
            && r[1..] == CmdsInsDel(CmdsInsDel(cs, false, 1), true, n + 1)
  {
    hide Ordered, RangesDelete, RangesInsert, CmdsInsDel, M.CmdsUp;
    FrontMoveKeeps(top.ranges, n, n + 1);
    CmdsUpOne([top] + cs, n);
    AdjustedTop(top, cs, false, 1);
    var once := CmdsInsDel([top] + cs, false, 1);
    assert once == [once[0]] + once[1..];
    AdjustedTop(once[0], once[1..], true, n + 1);
  }

  lemma {:induction false} UnderMovesNext(cs: seq<ExCmd>, ls: seq<nat>, n: nat)
    ensures UnderMoves(cs, ls + [n]) == CmdsInsDel(CmdsInsDel(UnderMoves(cs, ls), false, 1), true, n + 1)
  {
    hide CmdsInsDel;
    assert (ls + [n])[..|ls|] == ls;
  }

  lemma {:induction false} CmdsUpOne(cs: seq<ExCmd>, n: nat)
    requires n >= 1
    ensures M.CmdsUp(cs, n, 0, 1) == CmdsInsDel(CmdsInsDel(cs, false, 1), true, n + 1)
  {
    assert M.CmdsUp(cs, n, 0, 0) == cs;
  }

  lemma {:induction false} PickedNext(g: Spec, t: Text, n: nat)
    requires 1 <= n <= |t| && g.Hit(t, n)
    ensures g.Picked(t, n) == [t[n - 1]] + g.Picked(t, n - 1) && g.Survivors(t, n) == g.Survivors(t, n - 1)
  {
  }

  lemma {:induction false} MoveNext(r: Text, s: Text, t: Text, c: nat, n: nat)
    requires c < n <= |t| && |r| + |s| == c
    ensures M.Moved(r + s + t[c..], n, n, 0) == ([t[n - 1]] + r) + (s + t[c..n - 1]) + t[n..]
  {
    var u := r + s + t[c..];
    assert u[..n - 1] == r + (s + t[c..n - 1]) && u[n - 1..n] == [t[n - 1]] && u[n..] == t[n..];
    assert u[..0] == [] && u[0..n - 1] == u[..n - 1];
  }

  /** :g/re/m0 puts the matching lines first, in reverse order, and then the others, in
      order, and leaves the commands that were there before with the next of them loaded. */
  method GlobalMoveToFront(ed: Editor, g: Spec, oclen: nat) returns (err: bool, ghost body: Log)
    requires ed.Valid() && ed.Coherent() && 1 <= g.a1 && g.a2 <= |ed.db| && ed.cmds != []
    modifies ed
    ensures ed.Valid() && ed.Coherent() && ed.noLog == old(ed.noLog)
    ensures err == old(ed.exGlobal)
    ensures ed.db == if err then old(ed.db)
                     else g.Picked(old(ed.db), |old(ed.db)|) + g.Survivors(old(ed.db), |old(ed.db)|)
    ensures ed.cmds == if err then old(ed.cmds)
                       else Load(UnderMoves(old(ed.cmds), g.Hits(old(ed.db), 0, |old(ed.db)|))).0
    ensures Spelled(old(ed.History()), ed.History(), body, ed.noLog)
    ensures !err && g.Hits(old(ed.db), 0, |old(ed.db)|) != [] ==> body != []
  {
    hide Editor.Valid, Editor.Coherent, Moving, Load, Pending, MarksSet, Spec.Survivors, Spec.Picked, Spec.Hits,
         M.Moved, M.CmdsUp, M.WentUp, M.WentDown, Spelled, UnderMoves;
    ghost var a, t, below, c := ed.History(), ed.db, ed.cmds, 0;
    var depth := |ed.cmds|;
    SpelledSelf(a, ed.noLog);
    body := [];
    err := ExGSetup(ed, g, oclen);
    SpelledDoc(a, a, ed.History(), body, ed.noLog);
    if err {
      return;
    }
    MovingStarts(g, t, ed.cmds, below, oclen);
    while true
      invariant ed.Valid() && ed.Coherent() && ed.noLog == old(ed.noLog)
      invariant Moving(g, t, c, ed.db, ed.cmds, below)
      invariant c <= |t| && (c > 0 ==> body != [])
      invariant Spelled(a, ed.History(), body, ed.noLog)
      decreases |t| - c
    {
      var ours;
      ours, body, c := MoveTurn(ed, depth, g, t, c, below, a, body);
      if !ours {
        return;
      }
    }
  }

  /** One turn: the next line is loaded and moved, or the work is done. */
  method MoveTurn(ed: Editor, depth: nat, ghost g: Spec, ghost t: Text, ghost c: nat, ghost below: seq<ExCmd>,
                  ghost a: Journal, ghost body0: Log)
    returns (ours: bool, ghost body: Log, ghost n: nat)
    requires ed.Valid() && ed.Coherent() && below != [] && depth == |below| && c <= |t|
    requires Moving(g, t, c, ed.db, ed.cmds, below) && Spelled(a, ed.History(), body0, ed.noLog)
    modifies ed
    ensures ed.Valid() && ed.Coherent() && ed.noLog == old(ed.noLog)
    ensures Spelled(a, ed.History(), body, ed.noLog)
    ensures if ours then c < n <= |t| && Moving(g, t, n, ed.db, ed.cmds, below) && body != []
            else
              && body == body0 && ed.db == g.Picked(t, |t|) + g.Survivors(t, |t|)
              && ed.cmds == Load(UnderMoves(below, g.Hits(t, 0, |t|))).0 && (c == 0 ==> g.Hits(t, 0, |t|) == [])
  {
    hide Editor.Valid, Editor.Coherent, Moving, Load, Spec.Survivors, Spec.Picked, Spec.Hits, M.Moved, M.CmdsUp, M.WentUp,
         M.WentDown, M.BlockBehind, Spelled, UnderMoves, Lines;
    ghost var cs := ed.cmds;
    MovingLoads(g, t, c, ed.db, cs, below);
    body, n := body0, c;
    ours := TakeNext(ed, depth, a, body);
    if ours {
      // The command is ex_move of the loaded line to line 0.
      n := MovingStep(g, t, c, ed.db, cs, below);
      ghost var b := ed.History();
      var failed;
      ghost var more;
      ghost var mid;
      ghost var turns;
      failed, more, mid, turns := M.ExMove(ed, ed.at.lno, ed.at.lno, 0);
      SpelledTrans(a, b, ed.History(), body, more, ed.noLog);
      body := body + more;
    }
  }

  /** And one undo puts every line back. */
  method GlobalMoveUndone(ed: Editor, g: Spec, oclen: nat)
    requires ed.Valid() && ed.Coherent() && 1 <= g.a1 && g.a2 <= |ed.db|
    requires ed.cmds != []
    requires !ed.noLog && !ed.exGlobal && ed.lCursor.lno != OOBLNO && g.Hits(ed.db, 0, |ed.db|) != []
    modifies ed
    ensures ed.Valid() && ed.db == old(ed.db) && ed.done == old(ed.done)
  {
    hide Editor.Valid, Editor.Coherent, Spec.Survivors, Spec.Picked, Spec.Hits, Spelled, Undoable, Journal.Undone,
         Journal.Closed;
    ghost var a := ed.History();
    var err;
    ghost var body;
    err, body := GlobalMoveToFront(ed, g, oclen);
    UndoSpelled(a, ed.History(), body, ed.at);
    ClosedIsNotEmpty(a, ed.History(), body, ed.at);
    ed.LogCursor();
    UndoStops(ed.History());
    var rp;
    err, rp := ed.LogBackward();
  }

  function Reversed(t: Text): Text {
    if t == [] then [] else [t[|t| - 1]] + Reversed(t[..|t| - 1])
  }

  /** So :g/^/m0 reverses any file. */
  lemma {:induction false} MatchAllReverses(g: Spec, t: Text, n: nat)
    requires g.a1 <= 1 && n <= g.a2 && n <= |t| && forall i :: 0 <= i < n ==> g.re(t[i]) != g.invert
    ensures g.Picked(t, n) == Reversed(t[..n]) && g.Survivors(t, n) == []
  {
    if n > 0 {
      MatchAllReverses(g, t, n - 1);
      assert t[..n][..n - 1] == t[..n - 1];
    }
  }

  /** Line i from the top is line i from the bottom. */
  lemma {:induction false} ReversedAt(t: Text, i: nat)
    requires i < |t|
    ensures |Reversed(t)| == |t| && Reversed(t)[i] == t[|t| - 1 - i]
    decreases |t|
  {
    if |t| > 1 {
      ReversedAt(t[..|t| - 1], if i > 0 then i - 1 else 0);
    }
  }

  lemma {:induction false} OneMore(p: Text, q: Text, r: Text, x: Line)
    requires multiset(p) + multiset(q) == multiset(r)
    ensures multiset([x] + p) + multiset(q) == multiset(r + [x])
    ensures multiset(p) + multiset(q + [x]) == multiset(r + [x])
  {
    assert multiset([x] + p) == multiset{x} + multiset(p);
    assert multiset(q + [x]) == multiset(q) + multiset{x};
    assert multiset(r + [x]) == multiset(r) + multiset{x};
  }

  lemma {:induction false} SplitNext(g: Spec, t: Text, n: nat)
    requires n <= |t|
    ensures n == 0 ==> g.Picked(t, n) == [] && g.Survivors(t, n) == []
    ensures n > 0 ==>
      if g.Hit(t, n) then g.Picked(t, n) == [t[n - 1]] + g.Picked(t, n - 1) && g.Survivors(t, n) == g.Survivors(t, n - 1)
      else g.Picked(t, n) == g.Picked(t, n - 1) && g.Survivors(t, n) == g.Survivors(t, n - 1) + [t[n - 1]]
  {
  }

  /** The two results split the file between them: each line is in one of them, as often as
      it was in the file. */
  lemma {:induction false} NothingLost(g: Spec, t: Text, n: nat)
    requires n <= |t|
    ensures multiset(g.Picked(t, n)) + multiset(g.Survivors(t, n)) == multiset(t[..n])
  {
    hide Spec.Picked, Spec.Survivors, Spec.Hit;
    SplitNext(g, t, n);
    if n > 0 {
      NothingLost(g, t, n - 1);
      assert t[..n] == t[..n - 1] + [t[n - 1]];
      OneMore(g.Picked(t, n - 1), g.Survivors(t, n - 1), t[..n - 1], t[n - 1]);
    }
  }
}
