/** The shape of the log over any run: what keeps it a log of groups, and what the two scans need of it. */
module Stages {
  import opened Store
  import opened LogFacts
  import opened Undo

  datatype Op = Do(e: Edit) | UserMark(name: char, m: Mark) | Close(at: Mark) | Back | Forward

  /** The log machine; log_backward and log_forward fail, changing nothing, at the ends. */
  function LogStep(j: Journal, op: Op): Journal {
    match op
    case Do(e) => j.Edited(e)
    case UserMark(name, m) => j.(doc := DocMark(j.doc, name, m, true))
    case Close(at) => j.Closed(at)
    case Back => if j.done == [] then j else j.Undone()
    case Forward => if j.undone == [] then j else j.Redone()
  }

  function LogRun(j: Journal, ops: seq<Op>): Journal
    decreases |ops|
  {
    if ops == [] then j else LogRun(LogStep(j, ops[0]), ops[1..])
  }

  function Fresh(t: Text): Journal {
    Journal(Doc(t, [], []), [], [], Mark(1, 0))
  }

  /** Edits name existing lines; a redo that has anything to redo has an END ahead of it. */
  ghost predicate Enabled(j: Journal, op: Op) {
    match op
    case Do(e) => e.Ok(j.doc.text)
    case Forward => j.undone == [] || HasEnd(j.undone)
    case _ => true
  }

  ghost predicate EnabledRun(j: Journal, ops: seq<Op>)
    decreases |ops|
  {
    ops == [] || (Enabled(j, ops[0]) && EnabledRun(LogStep(j, ops[0]), ops[1..]))
  }

  // ----- the stages of a log ----------------------------------------------------------

  /** Between groups; in a group; between groups with the cursor out of band; past parsing. */
  datatype Stage = Shut | Open | Lost | Broken

  /** All the caller needs to look at: what is called, and whether the cursor is on line 0. */
  function NextStage(st: Stage, op: Op): Stage {
    match op
    case Do(_) => if st.Lost? || st.Broken? then Broken else Open
    case Close(at) => if st.Lost? || st.Broken? then Broken else if at.lno == OOBLNO then Lost else Shut
    case Back => if st.Open? then Lost else st
    case _ => st
  }

  ghost predicate InStage(j: Journal, st: Stage) {
    match st
    case Shut => Replayable(j) && j.cursor.lno != OOBLNO
    case Open => Replayable(j) && j.cursor.lno == OOBLNO
    case Lost => Astray(j)
    case Broken => !Parses(j)
  }

  lemma {:induction false} DoBreaks(j: Journal, e: Edit)
    requires Astray(j)
    ensures !Parses(j.Edited(e))
  {
    hide PhaseFrom, Fits, Net, Edit.Records, Edit.Apply;
    RecordsStart(j.doc, e);
    AstrayBreaks(j, e.Records(j.doc));
  }

  lemma {:induction false} CloseBreaks(j: Journal, at: Mark)
    requires Astray(j)
    ensures !Parses(j.Closed(at))
  {
    hide PhaseFrom, Fits, Net;
    AstrayBreaks(j, [CursorEnd(at)]);
  }

  lemma {:induction false} EditedIsOpen(j: Journal, e: Edit)
    ensures j.Edited(e).cursor.lno == OOBLNO
  {
  }

  lemma {:induction false} ReplaysKeepCursor(j: Journal)
    ensures j.Undone().cursor == j.cursor && j.Redone().cursor == j.cursor
  {
  }

  /** One step of the log is one step of the stages. */
  lemma {:induction false} StepStages(j: Journal, st: Stage, op: Op)
    requires InStage(j, st) && st != Broken && Enabled(j, op)
    ensures InStage(LogStep(j, op), NextStage(st, op))
  {
    hide Replayable, Astray, Parses, Edit.Apply, Edit.Records, Journal.Edited, Journal.Undone, Journal.Redone, HasEnd;
    ReplaysKeepCursor(j);
    match op
    case Do(e) =>
      EditedIsOpen(j, e);
      if st == Lost { DoBreaks(j, e); } else { EditKeepsReplayable(j, e); }
    case UserMark(name, m) => MarkKeepsStage(j, st, DocMark(j.doc, name, m, true));
    case Close(at) => if st == Lost { CloseBreaks(j, at); } else { CloseExactly(j, at); ClosedCursor(j, at); }
    case Back =>
      if j.done == [] {
        NotOpen(j);
      } else if st == Lost {
        AstrayReplays(j);
      } else {
        UndoneReplayable(j);
      }
    case Forward =>
      if j.undone != [] {
        if st == Lost { AstrayReplays(j); } else { RedoneReplayable(j); }
      }
  }

  lemma {:induction false} ClosedCursor(j: Journal, at: Mark)
    ensures j.Closed(at).cursor == at
  {
  }

  lemma {:induction false} NotOpen(j: Journal)
    requires j.done == []
    ensures Replayable(j) ==> j.cursor.lno != OOBLNO
  {
  }

  lemma {:induction false} MarkKeepsStage(j: Journal, st: Stage, d: Doc)
    requires d.text == j.doc.text && InStage(j, st)
    ensures InStage(j.(doc := d), st)
  {
    hide PhaseFrom, Fits, Net;
  }

  /** Every undo finds its way in a log that parses, and every redo but that of a group that was
      never closed, which there is none of before the log goes astray. */
  lemma {:induction false} StageReplays(j: Journal, st: Stage)
    requires InStage(j, st) && st != Broken
    ensures Undoable(j) && (Enabled(j, Forward) ==> Redoable(j)) && (st != Lost ==> Enabled(j, Forward))
  {
    hide PhaseFrom, Fits, Net, GroupStart, GroupLength;
    if st == Lost {
      AstrayReplays(j);
    } else {
      ReplayableBothWays(j);
    }
  }

  /** Joining the steps: after an undo, an edit keeps the log well formed exactly when no group was
      open at the undo. */
  lemma {:induction false} EditAfterUndo(j: Journal, e: Edit)
    requires Replayable(j) && j.done != [] && e.Ok(j.Undone().doc.text)
    ensures Replayable(j.Undone().Edited(e)) <==> j.cursor.lno != OOBLNO
    ensures Parses(j.Undone().Edited(e)) <==> j.cursor.lno != OOBLNO
  {
    hide Replayable, Astray, Parses, Edit.Apply, Edit.Records, Journal.Edited, Journal.Undone;
    UndoneReplayable(j);
    if j.cursor.lno == OOBLNO {
      DoBreaks(j.Undone(), e);
    } else {
      EditKeepsReplayable(j.Undone(), e);
    }
    ReplayableParses(j.Undone().Edited(e));
  }

  lemma {:induction false} ReplayableParses(j: Journal)
    ensures Replayable(j) || Astray(j) ==> Parses(j)
  {
    hide PhaseFrom, Fits, Net;
    assert j.done + [] == j.done;
  }

  /** And after a close, exactly when the cursor was on a line. */
  lemma {:induction false} EditAfterClose(j: Journal, at: Mark, e: Edit)
    requires Replayable(j) && e.Ok(j.doc.text)
    ensures Replayable(j.Closed(at).Edited(e)) <==> at.lno != OOBLNO
    ensures Parses(j.Closed(at).Edited(e)) <==> at.lno != OOBLNO
  {
    hide Replayable, Astray, Parses, Edit.Apply, Edit.Records, Journal.Edited;
    CloseExactly(j, at);
    if at.lno == OOBLNO {
      DoBreaks(j.Closed(at), e);
    } else {
      EditKeepsReplayable(j.Closed(at), e);
    }
    ReplayableParses(j.Closed(at).Edited(e));
  }

  function StageRun(st: Stage, ops: seq<Op>): Stage
    decreases |ops|
  {
    if ops == [] then st else StageRun(NextStage(st, ops[0]), ops[1..])
  }

  lemma {:induction false} BrokenStays(ops: seq<Op>)
    ensures StageRun(Broken, ops) == Broken
    decreases |ops|
  {
    if ops != [] { BrokenStays(ops[1..]); }
  }

  lemma {:induction false} RunStages(j: Journal, st: Stage, ops: seq<Op>)
    requires InStage(j, st) && st != Broken && EnabledRun(j, ops) && StageRun(st, ops) != Broken
    ensures InStage(LogRun(j, ops), StageRun(st, ops))
    decreases |ops|
  {
    hide InStage, Enabled, LogStep, NextStage;
    if ops != [] {
      BrokenStays(ops[1..]);
      StepStages(j, st, ops[0]);
      RunStages(LogStep(j, ops[0]), NextStage(st, ops[0]), ops[1..]);
    }
  }

  lemma {:induction false} FreshIsShut(t: Text)
    ensures InStage(Fresh(t), Shut)
  {
    assert Fresh(t).done + Fresh(t).undone == [];
  }

  /** Over any run the log parses as groups of INIT, changes, END, every RESET_B followed by
      its RESET_F, and log_backward and log_forward stay within a group and never fail, up to the
      first edit or close after the log has gone astray; with that one, and only then, it no longer
      parses. It goes astray when a group is closed with the cursor on line 0 or undone while open. */
  lemma {:induction false} LogParsesExactly(t: Text, ops: seq<Op>, op: Op)
    requires EnabledRun(Fresh(t), ops) && StageRun(Shut, ops) != Broken
    requires Enabled(LogRun(Fresh(t), ops), op)
    ensures var j, st := LogRun(Fresh(t), ops), StageRun(Shut, ops);
            && Parses(j) && Undoable(j) && (st != Lost ==> Replayable(j) && Redoable(j))
            && (Parses(LogStep(j, op)) <==> NextStage(st, op) != Broken)
  {
    hide EnabledRun, LogRun, StageRun, LogStep, NextStage, Enabled, Replayable, Astray, Parses, Undoable, Redoable;
    var j, st := LogRun(Fresh(t), ops), StageRun(Shut, ops);
    FreshIsShut(t);
    RunStages(Fresh(t), Shut, ops);
    StepStages(j, st, op);
    StageReplays(j, st);
    ReplayableParses(j);
    ReplayableParses(LogStep(j, op));
  }

  // ----- the scans, over any run ----------------------------------------------------------------

  /** Redo after undo finds its way exactly when the group undone was closed; a group undone while open has
      no END, and log_forward runs past it. */
  lemma {:induction false} RedoAfterUndo(j: Journal)
    requires Replayable(j) && j.done != []
    ensures Redoable(j.Undone()) <==> j.cursor.lno != OOBLNO
  {
    hide PhaseFrom, Fits, Net, UndoAll, GroupStart, GroupLength, RedoLength, Undoable, Redoable;
    UndoneReplayable(j);
    if j.cursor.lno == OOBLNO {
      NoEndAhead(j.done);
      assert j.Undone().undone == j.done[GroupStart(j.done)..];
    } else {
      ReplayableBothWays(j.Undone());
    }
  }

  lemma {:induction false} NoEndAhead(d: Log)
    requires d != [] && PhaseOf(d) == Changed
    ensures var u := d[GroupStart(d)..]; u != [] && forall j: Journal :: j.undone == u ==> !Redoable(j)
  {
    hide PhaseFrom, GroupStart, GroupLength, Fits, Net, RedoLength;
    var k := GroupStart(d);
    GroupBehind(d);
    GroupStartIsLast(d);
    var u := d[k..];
    assert d[..k] + u == d;
    assert forall i :: 1 <= i < |u| ==> u[i] == d[k + i];
    if HasEnd(u) {
      EndCloses(d[..k], u);
    } else {
      StartsWithChange(u);
      GroupLengthIsFirst(u);
    }
  }

  /** A group that has its END is all there is up to the next INIT. */
  lemma {:induction false} EndCloses(d: Log, u: Log)
    requires PhaseOf(d) == Between && PhaseOf(d + u) != Bad && u != [] && HasEnd(u)
    requires forall i :: 1 <= i < |u| ==> !u[i].CursorInit?
    ensures PhaseOf(d + u) == Between
  {
    hide PhaseFrom, GroupLength, RedoLength;
    GroupAhead(d, u);
    var g := GroupLength(u);
    assert d + u == (d + u[..g]) + u[g..];
    if g < |u| { FirstIsInit(d + u[..g], u[g..]); } else { assert u[..g] == u; }
  }

  /** Every INIT has a counted change after it. */
  ghost predicate Paired(log: Log) {
    forall i :: 0 <= i < |log| && log[i].CursorInit? ==> i + 1 < |log| && SetsDidopBack(log[i + 1])
  }

  /** What every run keeps, whatever was closed or undone when, and whatever deletions saw. */
  ghost predicate Kept(j: Journal) {
    && Paired(j.done) && Paired(j.undone)
    && Fits(j.done, |j.doc.text|) && Fits(j.undone, |j.doc.text| + Net(j.undone))
  }

  ghost predicate HasInit(log: Log) {
    exists i :: 0 <= i < |log| && log[i].CursorInit?
  }

  /** On such a log undo finds its way exactly when there is nothing to undo or an INIT below; the scan never
      names a line that is not there. */
  lemma {:induction false} UndoExactly(j: Journal)
    requires Kept(j)
    ensures Undoable(j) <==> j.done == [] || HasInit(j.done)
    ensures StopBack(j.done, false).Some? <==> HasInit(j.done)
    ensures Fits(Walked(j.done), |j.doc.text|)
  {
    hide Fits, StopBack, GroupStart, Net;
    FitsSplit(j.done[..BackTo(j.done)], Walked(j.done), |j.doc.text|);
    assert j.done[..BackTo(j.done)] + Walked(j.done) == j.done;
    GroupStartIsLast(j.done);
    var k := GroupStart(j.done);
    if HasInit(j.done) {
      assert j.done[k].CursorInit?;
      FitsSplit(j.done[..k], j.done[k..], |j.doc.text|);
      assert j.done[..k] + j.done[k..] == j.done;
      UndoStops(j);
    } else {
      StopBackNone(j.done, false);
    }
  }

  /** So after an edit on a log gone astray, undo works exactly when there was a group before: without one it
      runs off the log. */
  lemma {:induction false} UndoAfterAstray(j: Journal, e: Edit, at: Mark)
    requires Astray(j) && Kept(j) && e.Ok(j.doc.text)
    ensures Undoable(j.Edited(e).Closed(at)) <==> j.done != []
    ensures StopBack(j.Edited(e).Closed(at).done, false).Some? <==> j.done != []
  {
    hide PhaseFrom, Fits, Net, Edit.Records, Edit.Apply, Kept, Undoable, StopBack, Enabled;
    var k := j.Edited(e).Closed(at);
    DoKeeps(j, e);
    CloseKeeps(j.Edited(e), at);
    UndoExactly(k);
    EditChanges(j.doc, e);
    assert k.done == j.done + e.Records(j.doc) + [CursorEnd(at)];
    if j.done != [] {
      StartIsInit(j.done);
      assert k.done[GroupStart(j.done)].CursorInit?;
    }
  }

  lemma {:induction false} PairedJoins(a: Log, b: Log)
    requires Paired(a) && Paired(b)
    ensures Paired(a + b)
  {
  }

  lemma {:induction false} NoInits(recs: Log)
    requires forall i :: 0 <= i < |recs| ==> !recs[i].CursorInit?
    ensures Paired(recs)
  {
  }

  lemma {:induction false} DoKeeps(j: Journal, e: Edit)
    requires Kept(j) && e.Ok(j.doc.text)
    ensures Kept(j.Edited(e))
  {
    hide Fits, Net, PhaseFrom, Edit.Records, Edit.Apply;
    var recs, n := e.Records(j.doc), |e.Apply(j.doc).text|;
    EditRecords(j.doc, e, Started);
    EditChanges(j.doc, e);
    RecordsStart(j.doc, e);
    OpenedFits(j);
    FitsMore(j.Opened(), |j.doc.text|, n - Net(recs));
    FitsSplit(j.Opened(), recs, n);
    OpenedPairs(j, recs);
    NothingFits(n);
  }

  lemma {:induction false} NothingFits(n: int)
    ensures Fits([], n) && Net([]) == 0
  {
  }

  lemma {:induction false} OpenedFits(j: Journal)
    requires Fits(j.done, |j.doc.text|)
    ensures Fits(j.Opened(), |j.doc.text|)
  {
    hide Fits, Net;
    var c := CursorInit(j.cursor);
    Single(c, Between, |j.doc.text|);
    FitsSplit(j.done, [c], |j.doc.text|);
  }

  lemma {:induction false} OpenedPairs(j: Journal, recs: Log)
    requires Paired(j.done) && AllChanges(recs) && recs != [] && SetsDidopBack(recs[0])
    ensures Paired(j.Opened() + recs)
  {
    NoInits(recs);
    if j.cursor.lno != OOBLNO {
      var tail := [CursorInit(j.cursor)] + recs;
      assert j.Opened() + recs == j.done + tail;
      assert Paired(tail) by { assert forall i :: 1 <= i < |tail| ==> tail[i] == recs[i - 1]; }
      PairedJoins(j.done, tail);
    } else {
      PairedJoins(j.done, recs);
    }
  }

  lemma {:induction false} CloseKeeps(j: Journal, at: Mark)
    requires Kept(j)
    ensures Kept(j.Closed(at))
  {
    hide Fits, Net;
    var c := CursorEnd(at);
    Single(c, Between, |j.doc.text|);
    FitsSplit(j.done, [c], |j.doc.text|);
    NothingFits(|j.doc.text|);
    NoInits([c]);
    PairedJoins(j.done, [c]);
  }

  lemma {:induction false} BackKeeps(j: Journal)
    requires Kept(j) && HasInit(j.done)
    ensures Kept(j.Undone())
  {
    hide Fits, Net, UndoAll, GroupStart, Paired;
    GroupStartIsLast(j.done);
    var k, n := GroupStart(j.done), |j.doc.text|;
    BackPairs(j.done, k, j.undone);
    BackFits(j.done, k, j.undone, n);
    UndoAllCount(j.doc, j.done[k..]);
  }

  lemma {:induction false} BackFits(done: Log, k: nat, undone: Log, n: int)
    requires k <= |done| && Fits(done, n) && Fits(undone, n + Net(undone))
    ensures var a, g := done[..k], done[k..]; var m := n - Net(g);
            Fits(g, n) && Fits(a, m) && Fits(g + undone, m + Net(g + undone))
  {
    hide Fits, Net;
    var a, g := done[..k], done[k..];
    assert a + g == done;
    FitsSplit(a, g, n);
    FitsSplit(g, undone, n + Net(undone));
  }

  lemma {:induction false} BackPairs(done: Log, k: nat, undone: Log)
    requires Paired(done) && Paired(undone) && k < |done| && done[k].CursorInit?
    ensures Paired(done[..k]) && Paired(done[k..] + undone)
  {
    CutPairs(done, k);
    PairedJoins(done[k..], undone);
  }

  lemma {:induction false} CutPairs(log: Log, k: nat)
    requires Paired(log) && k <= |log|
    requires k < |log| ==> !SetsDidopBack(log[k]) || (k > 0 && !log[k - 1].CursorInit?)
    ensures Paired(log[..k]) && Paired(log[k..])
  {
    assert forall i :: 0 <= i < |log| - k ==> log[k..][i] == log[k + i];
  }

  lemma {:induction false} ForwardKeeps(j: Journal)
    requires Kept(j) && Redoable(j) && j.undone != []
    ensures Kept(j.Redone())
  {
    hide Fits, Net, RedoAll, RedoLength;
    var k, n := RedoLength(j.undone), |j.doc.text|;
    var g, u := j.undone[..k], j.undone[k..];
    assert g + u == j.undone;
    FitsSplit(g, u, n + Net(j.undone));
    FitsSplit(j.done, g, n + Net(g));
    RedoAllCount(j.doc, g);
    CutPairs(j.undone, k);
    PairedJoins(j.done, g);
  }

  /** The calls of a session: edits of lines that are there, undo with an INIT below or nothing at all, and
      redo that finds its way. */
  ghost predicate Safe(j: Journal, op: Op) {
    match op
    case Do(e) => e.Ok(j.doc.text)
    case Back => j.done == [] || HasInit(j.done)
    case Forward => Redoable(j)
    case _ => true
  }

  ghost predicate SafeRun(j: Journal, ops: seq<Op>)
    decreases |ops|
  {
    ops == [] || (Safe(j, ops[0]) && SafeRun(LogStep(j, ops[0]), ops[1..]))
  }

  lemma {:induction false} StepKeeps(j: Journal, op: Op)
    requires Kept(j) && Safe(j, op)
    ensures Kept(LogStep(j, op))
  {
    hide Kept, Redoable, HasInit, Journal.Edited, Journal.Closed, Journal.Undone, Journal.Redone;
    match op
    case Do(e) => DoKeeps(j, e);
    case UserMark(name, m) => MarkKeeps(j, DocMark(j.doc, name, m, true));
    case Close(at) => CloseKeeps(j, at);
    case Back => if j.done != [] { BackKeeps(j); }
    case Forward => if j.undone != [] { ForwardKeeps(j); }
  }

  lemma {:induction false} MarkKeeps(j: Journal, d: Doc)
    requires Kept(j) && d.text == j.doc.text
    ensures Kept(j.(doc := d))
  {
  }

  lemma {:induction false} RunKeeps(j: Journal, ops: seq<Op>)
    requires Kept(j) && SafeRun(j, ops)
    ensures Kept(LogRun(j, ops))
    decreases |ops|
  {
    hide Kept, Safe, LogStep;
    if ops != [] {
      StepKeeps(j, ops[0]);
      RunKeeps(LogStep(j, ops[0]), ops[1..]);
    }
  }

  /** After any session undo works exactly when there is nothing to undo or an INIT below, never meets a line
      that is not there, and otherwise runs off the log. */
  lemma {:induction false} UndoNeverLost(t: Text, ops: seq<Op>)
    requires SafeRun(Fresh(t), ops)
    ensures var j := LogRun(Fresh(t), ops);
            && (Undoable(j) <==> j.done == [] || HasInit(j.done))
            && (StopBack(j.done, false).Some? <==> HasInit(j.done))
            && Fits(Walked(j.done), |j.doc.text|)
  {
    hide LogRun, SafeRun, Undoable, StopBack, HasInit, BackTo, Walked;
    NothingFits(|t|);
    RunKeeps(Fresh(t), ops);
    UndoExactly(LogRun(Fresh(t), ops));
  }
}
