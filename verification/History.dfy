/** The whole log, over any run: a tape of texts on which undo and redo move a position. */
module History {
  import opened Store
  import opened LogFacts
  import opened Undo
  import opened Stages

  /** INIT, a stretch of changes, END. */
  datatype Item = Begin | Change | Finish

  /** The simple machine.  texts[i] is the text between items i - 1 and i; the file is at texts[pos], and
      inBand says that the next change begins a group. */
  datatype Tape = Tape(items: seq<Item>, texts: seq<Text>, pos: nat, inBand: bool)
  {
    ghost predicate Whole() {
      |texts| == |items| + 1 && pos <= |items|
    }
  }

  /** The Begin that undo goes back to. */
  function UndoTo(items: seq<Item>, pos: nat): (k: Option<nat>)
    requires pos <= |items|
    ensures k.Some? ==> k.value < pos && items[k.value].Begin? && forall i :: k.value < i < pos ==> !items[i].Begin?
    ensures k.None? ==> forall i :: 0 <= i < pos ==> !items[i].Begin?
  {
    if pos == 0 then None
    else if items[pos - 1].Begin? then Some(pos - 1)
    else UndoTo(items, pos - 1)
  }

  /** Behind the Finish of the next Change. */
  function NextEnd(items: seq<Item>, i: nat): (q: Option<nat>)
    ensures q.Some? ==> i + 1 < q.value <= |items| && items[q.value - 2].Change? && items[q.value - 1].Finish?
                        && forall k :: i <= k < q.value - 2 ==> !items[k].Change?
    decreases |items| - i
  {
    if i >= |items| then None
    else if items[i].Change? then if i + 1 < |items| && items[i + 1].Finish? then Some(i + 2) else None
    else NextEnd(items, i + 1)
  }

  /** Where redo goes; a Change right at the position is not redone as a whole. */
  function RedoTo(items: seq<Item>, pos: nat): Option<nat> {
    if pos < |items| && items[pos].Change? then None else NextEnd(items, pos)
  }

  function Padded(texts: seq<Text>, pad: Text): (r: seq<Text>)
    ensures |r| == |texts|
    ensures forall i :: 0 <= i < |texts| ==> r[i] == texts[i] + pad
  {
    seq(|texts|, i requires 0 <= i < |texts| => texts[i] + pad)
  }

  /** A change put on a tape's end: in a stretch of changes, or after something else. */
  function Changed(s: Tape, now: Text): (r: Tape)
    requires s.Whole() && s.pos == |s.items|
    ensures r.Whole() && r.pos == |r.items|
  {
    if s.items != [] && s.items[s.pos - 1].Change? then s.(texts := s.texts[s.pos := now], inBand := false)
    else Tape(s.items + [Change], s.texts + [now], s.pos + 1, false)
  }

  function Begun(s: Tape): (r: Tape)
    requires s.Whole() && s.pos == |s.items|
    ensures r.Whole() && r.pos == |r.items|
  {
    if s.inBand then Tape(s.items + [Begin], s.texts + [s.texts[s.pos]], s.pos + 1, false) else s
  }

  /** What is ahead is dropped by whatever writes. */
  function Kept(s: Tape): (r: Tape)
    requires s.Whole()
    ensures r.Whole() && r.pos == |r.items|
  {
    s.(items := s.items[..s.pos], texts := s.texts[..s.pos + 1])
  }

  /** Setting line 1 of an empty file leaves a blank line under every earlier text. */
  ghost function TapeStep(s: Tape, op: Op): (r: Tape)
    requires s.Whole()
    ensures r.Whole()
  {
    match op
    case Do(e) =>
      var kept, cur := Kept(s), s.texts[s.pos];
      var base := if SetsEmpty(cur, e) then kept.(texts := Padded(kept.texts, [""])) else kept;
      Changed(Begun(base), e.Apply(Doc(cur, [], [])).text)
    case UserMark(_, _) => s
    case Close(at) =>
      if s.inBand then s.(inBand := at.lno != OOBLNO)
      else Tape(s.items[..s.pos] + [Finish], s.texts[..s.pos + 1] + [s.texts[s.pos]], s.pos + 1, at.lno != OOBLNO)
    case Back => (match UndoTo(s.items, s.pos) case Some(k) => s.(pos := k) case None => s)
    case Forward => (match RedoTo(s.items, s.pos) case Some(q) => s.(pos := q) case None => s)
  }

  predicate CanUndo(s: Tape)
    requires s.Whole()
  {
    s.pos == 0 || UndoTo(s.items, s.pos).Some?
  }

  predicate CanRedo(s: Tape)
    requires s.Whole()
  {
    s.pos == |s.items| || RedoTo(s.items, s.pos).Some?
  }

  /** Edits name existing lines and read them right; undo and redo have nowhere to go or have their group. */
  ghost predicate Allowed(s: Tape, op: Op)
    requires s.Whole()
  {
    match op
    case Do(e) => e.Ok(s.texts[s.pos]) && Faithful(s.texts[s.pos], e)
    case Back => CanUndo(s)
    case Forward => CanRedo(s)
    case _ => true
  }

  // ----- the relation between the two ------------------------------------------------

  /** Where the changes at a log's end start. */
  function ChangesFrom(log: Log): (k: nat)
    ensures k <= |log| && forall i :: k <= i < |log| ==> log[i].IsChange()
    ensures k > 0 ==> !log[k - 1].IsChange()
  {
    if log == [] || !log[|log| - 1].IsChange() then |log| else ChangesFrom(log[..|log| - 1])
  }

  /** The log has these items, and leads from each text to the next. */
  ghost predicate Spells(items: seq<Item>, texts: seq<Text>, log: Log)
    decreases |items|
  {
    && |texts| == |items| + 1
    && if items == [] then log == []
       else
         var n, m := |items| - 1, |log| - 1;
         && log != []
         && match items[n]
            case Begin => log[m].CursorInit? && texts[n] == texts[n + 1] && Spells(items[..n], texts[..n + 1], log[..m])
            case Finish => log[m].CursorEnd? && texts[n] == texts[n + 1] && Spells(items[..n], texts[..n + 1], log[..m])
            case Change =>
              var k := ChangesFrom(log);
              && k < |log| && SetsDidopBack(log[k]) && SetsDidopForward(log[m])
              && Linked(texts[n], log[k..], texts[n + 1]) && Spells(items[..n], texts[..n + 1], log[..k])
  }

  /** A Begin comes after a Finish, and a Change after it; after a Change comes a Finish. */
  ghost predicate Grammar(items: seq<Item>) {
    && (forall i :: 0 <= i < |items| && items[i].Begin? ==> i + 1 < |items| && items[i + 1].Change?)
    && (forall i :: 0 < i < |items| && items[i].Begin? ==> items[i - 1].Finish?)
    && (forall i :: 0 < i < |items| && items[i - 1].Change? ==> items[i].Finish?)
  }

  ghost predicate Related(j: Journal, s: Tape) {
    && s.Whole() && Grammar(s.items) && j.doc.text == s.texts[s.pos] && (s.inBand <==> j.cursor.lno != OOBLNO)
    && (s.pos == 0 || s.items[s.pos - 1].Finish? || (s.items[s.pos - 1].Change? && s.pos == |s.items| && !s.inBand))
    && Spells(s.items[..s.pos], s.texts[..s.pos + 1], j.done)
    && Spells(s.items[s.pos..], s.texts[s.pos..], j.undone)
  }

  // ----- laws of it --------------------------------------------------------------------------

  lemma {:induction false} SpellsNothing(t: Text)
    ensures Spells([], [t], [])
  {
  }

  lemma {:induction false} SpellsMark(items: seq<Item>, texts: seq<Text>, log: Log, x: Item, r: Record)
    requires Spells(items, texts, log) && ((x.Begin? && r.CursorInit?) || (x.Finish? && r.CursorEnd?))
    ensures Spells(items + [x], texts + [texts[|items|]], log + [r])
  {
    var n := |items|;
    assert (items + [x])[..n] == items && (texts + [texts[n]])[..n + 1] == texts && (log + [r])[..|log|] == log;
  }

  lemma {:induction false} LastKind(items: seq<Item>, texts: seq<Text>, log: Log)
    requires Spells(items, texts, log)
    ensures items == [] <==> log == []
    ensures items != [] ==> (items[|items| - 1].Change? <==> log[|log| - 1].IsChange())
  {
  }

  lemma {:induction false} ChangesStart(log: Log, recs: Log)
    requires recs != [] && AllChanges(recs)
    ensures ChangesFrom(log + recs) == ChangesFrom(log)
    decreases |recs|
  {
    var n := |recs| - 1;
    assert (log + recs)[..|log| + n] == log + recs[..n];
    if n > 0 { ChangesStart(log, recs[..n]); } else { assert log + recs[..0] == log; }
  }

  lemma {:induction false} SpellsChange(items: seq<Item>, texts: seq<Text>, log: Log, recs: Log, now: Text)
    requires Spells(items, texts, log) && (items == [] || !items[|items| - 1].Change?)
    requires recs != [] && AllChanges(recs) && SetsDidopBack(recs[0]) && SetsDidopForward(recs[|recs| - 1])
    requires Linked(texts[|items|], recs, now)
    ensures Spells(items + [Change], texts + [now], log + recs)
  {
    hide Linked;
    var n := |items|;
    LastKind(items, texts, log);
    ChangesStart(log, recs);
    assert (items + [Change])[..n] == items && (texts + [now])[..n + 1] == texts;
    assert (log + recs)[..|log|] == log && (log + recs)[|log|..] == recs;
  }

  lemma {:induction false} SpellsMore(items: seq<Item>, texts: seq<Text>, log: Log, recs: Log, now: Text)
    requires Spells(items, texts, log) && items != [] && items[|items| - 1].Change?
    requires recs != [] && AllChanges(recs) && SetsDidopForward(recs[|recs| - 1])
    requires Linked(texts[|items|], recs, now)
    ensures Spells(items, texts[|items| := now], log + recs)
  {
    hide Linked;
    var n, k := |items| - 1, ChangesFrom(log);
    ChangesStart(log, recs);
    LinkedTrans(texts[n], log[k..], texts[n + 1], recs, now);
    assert texts[n + 1 := now][..n + 1] == texts[..n + 1];
    assert (log + recs)[..k] == log[..k] && (log + recs)[k..] == log[k..] + recs;
  }

  lemma {:induction false} PaddedSpells(items: seq<Item>, texts: seq<Text>, log: Log, pad: Text)
    requires Spells(items, texts, log)
    ensures Spells(items, Padded(texts, pad), log)
    decreases |items|
  {
    if items != [] {
      hide Linked;
      var n, m := |items| - 1, |log| - 1;
      assert Padded(texts, pad)[..n + 1] == Padded(texts[..n + 1], pad);
      match items[n]
      case Change =>
        var k := ChangesFrom(log);
        LinkedPad(texts[n], log[k..], texts[n + 1], pad);
        PaddedSpells(items[..n], texts[..n + 1], log[..k], pad);
      case Begin => PaddedSpells(items[..n], texts[..n + 1], log[..m], pad);
      case Finish => PaddedSpells(items[..n], texts[..n + 1], log[..m], pad);
    }
  }

  /** The last item, taken off. */
  lemma {:induction false} LastPiece(items: seq<Item>, texts: seq<Text>, log: Log) returns (p: nat)
    requires Spells(items, texts, log) && items != []
    ensures p < |log| && |texts| == |items| + 1 && Spells(items[..|items| - 1], texts[..|items|], log[..p])
    ensures var n, y := |items| - 1, log[p..];
            if items[n].Change?
            then && (n == 0 || !items[n - 1].Change?) && AllChanges(y) && SetsDidopBack(y[0]) && SetsDidopForward(y[|y| - 1])
                 && Linked(texts[n], y, texts[n + 1])
            else && |y| == 1 && texts[n] == texts[n + 1]
                 && if items[n].Begin? then y[0].CursorInit? else y[0].CursorEnd?
  {
    hide Linked;
    var n := |items| - 1;
    p := if items[n].Change? then ChangesFrom(log) else |log| - 1;
    LastKind(items[..n], texts[..n + 1], log[..p]);
  }

  /** And put on again. */
  lemma {:induction false} SpellsPiece(items: seq<Item>, texts: seq<Text>, log: Log, x: Item, y: Log, t: Text)
    requires Spells(items, texts, log)
    requires if x.Change?
             then && (items == [] || !items[|items| - 1].Change?) && y != [] && AllChanges(y)
                  && SetsDidopBack(y[0]) && SetsDidopForward(y[|y| - 1]) && Linked(texts[|items|], y, t)
             else && |y| == 1 && t == texts[|items|] && if x.Begin? then y[0].CursorInit? else y[0].CursorEnd?
    ensures Spells(items + [x], texts + [t], log + y)
  {
    hide Linked, Spells;
    if x.Change? {
      SpellsChange(items, texts, log, y, t);
    } else {
      assert y == [y[0]];
      SpellsMark(items, texts, log, x, y[0]);
    }
  }

  /** Two logs one after the other, if the seam is not in a stretch of changes. */
  lemma {:induction false} SpellsJoin(a: seq<Item>, ta: seq<Text>, x: Log, b: seq<Item>, tb: seq<Text>, y: Log)
    requires Spells(a, ta, x) && Spells(b, tb, y) && ta[|a|] == tb[0]
    requires a == [] || b == [] || !a[|a| - 1].Change?
    ensures Spells(a + b, ta + tb[1..], x + y)
    decreases |b|
  {
    if b == [] {
      SpellsNone(tb, y);
      assert a + b == a && ta + tb[1..] == ta && x + y == x;
    } else {
      JoinMore(a, ta, x, b, tb, y);
    }
  }

  lemma {:induction false} SpellsNone(texts: seq<Text>, log: Log)
    requires Spells([], texts, log)
    ensures |texts| == 1 && log == []
  {
  }

  lemma {:induction false} JoinMore(a: seq<Item>, ta: seq<Text>, x: Log, b: seq<Item>, tb: seq<Text>, y: Log)
    requires Spells(a, ta, x) && Spells(b, tb, y) && ta[|a|] == tb[0] && b != []
    requires a == [] || !a[|a| - 1].Change?
    ensures Spells(a + b, ta + tb[1..], x + y)
    decreases |b|, 0
  {
    hide Linked, Spells, AllChanges;
    var n := |b| - 1;
    var p := LastPiece(b, tb, y);
    TextCount(a, ta, x);
    SpellsJoin(a, ta, x, b[..n], tb[..n + 1], y[..p]);
    assert a + b == (a + b[..n]) + [b[n]] && x + y == (x + y[..p]) + y[p..];
    assert ta + tb[1..] == (ta + tb[..n + 1][1..]) + [tb[n + 1]];
    assert (ta + tb[..n + 1][1..])[|a + b[..n]|] == tb[n];
    SpellsPiece(a + b[..n], ta + tb[..n + 1][1..], x + y[..p], b[n], y[p..], tb[n + 1]);
  }

  lemma {:induction false} TextCount(items: seq<Item>, texts: seq<Text>, log: Log)
    requires Spells(items, texts, log)
    ensures |texts| == |items| + 1
  {
  }

  /** Any point between two items cuts the log in two. */
  lemma {:induction false} SpellsCut(items: seq<Item>, texts: seq<Text>, log: Log, i: nat) returns (m: nat)
    requires Spells(items, texts, log) && i <= |items|
    ensures m <= |log| && |texts| == |items| + 1
    ensures Spells(items[..i], texts[..i + 1], log[..m]) && Spells(items[i..], texts[i..], log[m..])
    ensures Linked(texts[i], log[m..], texts[|items|])
    decreases |items|
  {
    hide Linked, Spells, AllChanges;
    TextCount(items, texts, log);
    if i == |items| {
      m := |log|;
      assert items[..i] == items && texts[..i + 1] == texts && log[..m] == log;
      assert items[i..] == [] && texts[i..] == [texts[i]] && log[m..] == [];
      SpellsNothing(texts[i]);
      LinkedQuiet(texts[i], []);
    } else {
      var n := |items| - 1;
      var p := LastPiece(items, texts, log);
      m := SpellsCut(items[..n], texts[..n + 1], log[..p], i);
      assert items[..n][..i] == items[..i] && texts[..n + 1][..i + 1] == texts[..i + 1] && log[..p][..m] == log[..m];
      var a, ta, x, y := items[..n][i..], texts[..n + 1][i..], log[..p][m..], log[p..];
      assert items[i..] == a + [items[n]] && texts[i..] == ta + [texts[n + 1]] && log[m..] == x + y;
      SpellsPiece(a, ta, x, items[n], y, texts[n + 1]);
      if !items[n].Change? { LinkedQuiet(texts[n], y); }
      LinkedTrans(texts[i], x, texts[n], y, texts[n + 1]);
    }
  }

  lemma {:induction false} NoBegins(items: seq<Item>, texts: seq<Text>, log: Log)
    requires Spells(items, texts, log) && forall i :: 0 <= i < |items| ==> !items[i].Begin?
    ensures forall i :: 0 <= i < |log| ==> !log[i].CursorInit?
    decreases |items|
  {
    if items != [] {
      hide Linked;
      var n := |items| - 1;
      var p := if items[n].Change? then ChangesFrom(log) else |log| - 1;
      NoBegins(items[..n], texts[..n + 1], log[..p]);
      assert forall i :: 0 <= i < p ==> log[i] == log[..p][i];
    }
  }

  lemma {:induction false} NoChanges(items: seq<Item>, texts: seq<Text>, log: Log)
    requires Spells(items, texts, log) && forall i :: 0 <= i < |items| ==> !items[i].Change?
    ensures |log| == |items| && forall i :: 0 <= i < |log| ==> !log[i].IsChange()
    decreases |items|
  {
    if items != [] {
      hide Linked;
      var n := |items| - 1;
      var m := |log| - 1;
      NoChanges(items[..n], texts[..n + 1], log[..m]);
      assert forall i :: 0 <= i < m ==> log[i] == log[..m][i];
    }
  }

  /** One item is one record, or one stretch of changes. */
  lemma {:induction false} OneItem(x: Item, texts: seq<Text>, log: Log)
    requires Spells([x], texts, log)
    ensures match x
            case Begin => |log| == 1 && log[0].CursorInit?
            case Finish => |log| == 1 && log[0].CursorEnd?
            case Change => log != [] && AllChanges(log) && SetsDidopBack(log[0]) && SetsDidopForward(log[|log| - 1])
  {
    hide Linked;
    assert [x][..0] == [];
  }

  /** The first item is where the log starts. */
  lemma {:induction false} FirstItem(items: seq<Item>, texts: seq<Text>, log: Log) returns (m: nat)
    requires Spells(items, texts, log) && items != []
    ensures 0 < m <= |log| && Spells([items[0]], texts[..2], log[..m]) && Spells(items[1..], texts[1..], log[m..])
    ensures Linked(texts[1], log[m..], texts[|items|])
    ensures log[0].CursorInit? <==> items[0].Begin?
    ensures log[0].IsChange() <==> items[0].Change?
    ensures items[0].Begin? ==> m == 1
    ensures items[0].Change? ==> SetsDidopBack(log[0])
  {
    hide Linked;
    m := SpellsCut(items, texts, log, 1);
    assert items[..1] == [items[0]];
    OneItem(items[0], texts[..2], log[..m]);
  }

  // ----- one step ---------------------------------------------------------------------

  /** A tape at its end, and the log below l_cur. */
  ghost predicate Ended(s: Tape, log: Log) {
    && s.Whole() && s.pos == |s.items| && Grammar(s.items) && Spells(s.items, s.texts, log)
    && (s.pos == 0 || s.items[s.pos - 1].Finish? || (s.items[s.pos - 1].Change? && !s.inBand))
  }

  lemma {:induction false} EndedRelated(j: Journal, s: Tape)
    requires Ended(s, j.done) && j.undone == [] && j.doc.text == s.texts[s.pos] && (s.inBand <==> j.cursor.lno != OOBLNO)
    ensures Related(j, s)
  {
    hide Spells;
    assert s.items[..s.pos] == s.items && s.texts[..s.pos + 1] == s.texts;
    assert s.items[s.pos..] == [] && s.texts[s.pos..] == [s.texts[s.pos]];
    SpellsNothing(s.texts[s.pos]);
  }

  lemma {:induction false} KeptEnded(j: Journal, s: Tape)
    requires Related(j, s)
    ensures Ended(Kept(s), j.done) && Kept(s).texts[s.pos] == s.texts[s.pos] && Kept(s).inBand == s.inBand
  {
    hide Spells;
    GrammarCut(s.items, s.pos);
  }

  lemma {:induction false} GrammarCut(items: seq<Item>, i: nat)
    requires Grammar(items) && i <= |items| && (i == 0 || !items[i - 1].Begin?)
    ensures Grammar(items[..i])
  {
  }

  lemma {:induction false} PaddedEnded(s: Tape, log: Log, pad: Text)
    requires Ended(s, log)
    ensures Ended(s.(texts := Padded(s.texts, pad)), log)
  {
    hide Spells;
    PaddedSpells(s.items, s.texts, log, pad);
  }

  lemma {:induction false} WriteTape(s: Tape, log: Log, c: Mark, recs: Log, now: Text)
    requires Ended(s, log) && recs != [] && AllChanges(recs) && SetsDidopBack(recs[0]) && SetsDidopForward(recs[|recs| - 1])
    requires Linked(s.texts[s.pos], recs, now)
    ensures var r := Changed(Begun(s), now);
            && Ended(r, (if s.inBand then log + [CursorInit(c)] else log) + recs) && r.texts[r.pos] == now && !r.inBand
  {
    hide Linked, Spells, AllChanges, Grammar;
    var b := Begun(s);
    GrammarGrows(s.items);
    if s.inBand {
      SpellsMark(s.items, s.texts, log, Begin, CursorInit(c));
      SpellsChange(b.items, b.texts, log + [CursorInit(c)], recs, now);
    } else if s.items != [] && s.items[s.pos - 1].Change? {
      SpellsMore(s.items, s.texts, log, recs, now);
    } else {
      SpellsChange(s.items, s.texts, log, recs, now);
    }
  }

  lemma {:induction false} GrammarGrows(items: seq<Item>)
    requires Grammar(items) && (items == [] || !items[|items| - 1].Begin?)
    ensures items == [] || items[|items| - 1].Finish? ==> Grammar(items + [Change]) && Grammar(items + [Begin] + [Change])
  {
  }

  lemma {:induction false} ApplyText(d: Doc, e: Edit)
    ensures e.Apply(Doc(d.text, [], [])).text == e.Apply(d).text
  {
  }

  lemma {:induction false} DoStep(j: Journal, s: Tape, e: Edit)
    requires Related(j, s) && Allowed(s, Do(e))
    ensures Related(LogStep(j, Do(e)), TapeStep(s, Do(e)))
  {
    hide Linked, Spells, Edit.Records, Edit.Apply, Grammar, AllChanges;
    var cur, recs, kept := s.texts[s.pos], e.Records(j.doc), Kept(s);
    KeptEnded(j, s);
    PaddedEnded(kept, j.done, [""]);
    var base := if SetsEmpty(cur, e) then kept.(texts := Padded(kept.texts, [""])) else kept;
    ApplyText(j.doc, e);
    EditLinked(j.doc, e);
    FaithfulRecorded(cur, e);
    EditChanges(j.doc, e);
    RecordsStart(j.doc, e);
    assert SetsEmpty(cur, e) ==> cur + [""] == [""];
    WriteTape(base, j.done, j.cursor, recs, e.Apply(j.doc).text);
    EndedRelated(j.Edited(e), TapeStep(s, Do(e)));
  }

  lemma {:induction false} CloseStep(j: Journal, s: Tape, at: Mark)
    requires Related(j, s)
    ensures Related(LogStep(j, Close(at)), TapeStep(s, Close(at)))
  {
    hide Linked, Spells, Grammar;
    if !s.inBand {
      KeptEnded(j, s);
      var k := Kept(s);
      SpellsMark(k.items, k.texts, j.done, Finish, CursorEnd(at));
      GrammarFinish(k.items);
      EndedRelated(j.Closed(at), TapeStep(s, Close(at)));
    }
  }

  lemma {:induction false} GrammarFinish(items: seq<Item>)
    requires Grammar(items)
    ensures Grammar(items + [Finish])
  {
  }

  /** The Begin undo goes to is the last INIT below l_cur, and a change comes after it. */
  lemma {:induction false} UndoTarget(items: seq<Item>, texts: seq<Text>, log: Log, k: nat) returns (m: nat)
    requires Spells(items, texts, log) && k + 1 < |items| && items[k].Begin? && items[k + 1].Change?
    requires forall i :: k < i < |items| ==> !items[i].Begin?
    ensures m + 1 < |log| && GroupStart(log) == m && log[m].CursorInit? && SetsDidopBack(log[m + 1]) && |texts| == |items| + 1
    ensures Spells(items[..k], texts[..k + 1], log[..m]) && Spells(items[k..], texts[k..], log[m..])
    ensures Linked(texts[k], log[m..], texts[|items|])
  {
    hide Linked, Spells, GroupStart;
    m := SpellsCut(items, texts, log, k);
    var first := FirstItem(items[k..], texts[k..], log[m..]);
    var rest := log[m..][1..];
    assert items[k..][1..] == items[k + 1..] && texts[k..][1..] == texts[k + 1..];
    NoBegins(items[k + 1..], texts[k + 1..], rest);
    var second := FirstItem(items[k + 1..], texts[k + 1..], rest);
    assert forall i :: m < i < |log| ==> log[i] == rest[i - m - 1];
    LastInitIs(log, m);
  }

  lemma {:induction false} Turned<T>(x: seq<T>, k: nat, p: nat)
    requires k <= p <= |x|
    ensures x[..p][..k] == x[..k] && x[..p][k..] + x[p..] == x[k..]
  {
  }

  lemma {:induction false} TurnedTexts<T>(x: seq<T>, k: nat, p: nat)
    requires k < p < |x|
    ensures x[..p + 1][..k + 1] == x[..k + 1] && x[..p + 1][k..] + x[p..][1..] == x[k..]
    ensures x[..p + 1][k] == x[k] && x[..p + 1][k..][p - k] == x[p] && x[p..][0] == x[p] && x[..p + 1][p] == x[p] && x[k..][0] == x[k]
  {
  }

  lemma {:induction false} BackStep(j: Journal, s: Tape)
    requires Related(j, s) && UndoTo(s.items, s.pos).Some?
    ensures Undoable(j) && Related(j.Undone(), s.(pos := UndoTo(s.items, s.pos).value))
  {
    hide Linked, Spells, GroupStart, UndoAll, Fits;
    var k, p := UndoTo(s.items, s.pos).value, s.pos;
    var items, texts := s.items[..p], s.texts[..p + 1];
    var m := UndoTarget(items, texts, j.done, k);
    LinkedUndo(texts[k], j.done[m..], j.doc);
    LinkedFits(texts[k], j.done[m..], j.doc.text);
    Turned(s.items, k, p);
    TurnedTexts(s.texts, k, p);
    SpellsJoin(items[k..], texts[k..], j.done[m..], s.items[p..], s.texts[p..], j.undone);
  }

  /** What redo goes over is what it needs: no change first, then a stretch of changes and an END. */
  lemma {:induction false} RedoTarget(items: seq<Item>, texts: seq<Text>, log: Log, q: nat) returns (m: nat)
    requires Spells(items, texts, log) && 1 < q <= |items| && items[q - 2].Change? && items[q - 1].Finish?
    requires forall i :: 0 <= i < q - 2 ==> !items[i].Change?
    ensures 0 < m <= |log| && RedoLength(log) == m && log[m - 1].CursorEnd? && |texts| == |items| + 1
    ensures m > 1 && SetsDidopForward(log[m - 2]) && (q > 2 ==> !log[0].IsChange() && m > 2)
    ensures Spells(items[..q], texts[..q + 1], log[..m]) && Spells(items[q..], texts[q..], log[m..])
    ensures Linked(texts[0], log[..m], texts[q])
  {
    hide Linked, Spells, RedoLength, AllChanges;
    m := SpellsCut(items, texts, log, q);
    var part, ts, g := items[..q], texts[..q + 1], log[..m];
    var e := LastPiece(part, ts, g);
    assert part[..q - 1] == items[..q - 1] && ts[..q] == texts[..q];
    var c := LastPiece(items[..q - 1], texts[..q], g[..e]);
    assert items[..q - 1][..q - 2] == items[..q - 2] && texts[..q][..q - 1] == texts[..q - 1] && g[..e][..c] == g[..c];
    NoChanges(items[..q - 2], texts[..q - 1], g[..c]);
    assert part[q - 1].Finish? && g[e..][0] == g[e];
    RedoOver(g[..c], g[..e][c..], g[e], log[m..]);
    assert log == g[..c] + g[..e][c..] + [g[e]] + log[m..];
    var z := SpellsCut(part, ts, g, 0);
    SpellsNone(ts[..1], g[..z]);
    assert part[..0] == [];
    assert g[z..] == g;
  }

  lemma {:induction false} RedoOver(x: Log, y: Log, e: Record, more: Log)
    requires forall i :: 0 <= i < |x| ==> !x[i].IsChange()
    requires y != [] && AllChanges(y) && e.CursorEnd?
    ensures RedoLength(x + y + [e] + more) == |x| + |y| + 1
    decreases |x|
  {
    var u := x + y + [e] + more;
    if x == [] {
      FirstEndIs(u, |y|);
    } else {
      assert u[1..] == x[1..] + y + [e] + more;
      RedoOver(x[1..], y, e, more);
    }
  }

  lemma {:induction false} Stretches<T>(x: seq<T>, p: nat, q: nat)
    requires p <= q <= |x|
    ensures x[p..][q - p..] == x[q..] && x[..p] + x[p..][..q - p] == x[..q]
  {
  }

  lemma {:induction false} Stretches1<T>(x: seq<T>, p: nat, q: nat)
    requires p <= q < |x|
    ensures x[p..][q - p..] == x[q..] && x[..p + 1] + x[p..][..q - p + 1][1..] == x[..q + 1]
    ensures x[p..][0] == x[p] && x[p..][q - p] == x[q] && x[..p + 1][p] == x[p] && x[p..][..q - p + 1][0] == x[p]
  {
  }

  lemma {:induction false} ForwardStep(j: Journal, s: Tape)
    requires Related(j, s) && s.pos < |s.items| && RedoTo(s.items, s.pos).Some?
    ensures Redoable(j) && j.undone != [] && Related(j.Redone(), s.(pos := RedoTo(s.items, s.pos).value))
  {
    hide Linked, Spells, RedoLength, RedoAll, Fits, Net, Redoable;
    var q, p := RedoTo(s.items, s.pos).value, s.pos;
    var items, texts := s.items[p..], s.texts[p..];
    var m := RedoTarget(items, texts, j.undone, q - p);
    var g := j.undone[..m];
    Stretches(s.items, p, q);
    Stretches1(s.texts, p, q);
    LinkedRedo(j.doc, g, s.texts[q]);
    SpellsJoin(s.items[..p], s.texts[..p + 1], j.done, items[..q - p], texts[..q - p + 1], g);
    CanBeRedone(j, s.texts[q]);
  }

  lemma {:induction false} CanBeRedone(j: Journal, t: Text)
    requires var m := RedoLength(j.undone);
             && m > 2 && !j.undone[0].IsChange() && j.undone[m - 1].CursorEnd? && SetsDidopForward(j.undone[m - 2])
             && Linked(j.doc.text, j.undone[..m], t)
    ensures Redoable(j) && j.undone != []
  {
    hide Linked, RedoLength, Fits, Net;
    LinkedFits(j.doc.text, j.undone[..RedoLength(j.undone)], t);
  }

  /** Every edit, mark, close, undo and redo keeps the log and the tape in step. */
  lemma {:induction false} StepRelated(j: Journal, s: Tape, op: Op)
    requires Related(j, s) && Allowed(s, op)
    ensures Related(LogStep(j, op), TapeStep(s, op))
  {
    hide Spells, Grammar, Undoable, Redoable, UndoTo, RedoTo, Journal.Undone, Journal.Redone;
    match op
    case Do(e) => DoStep(j, s, e);
    case UserMark(_, _) =>
    case Close(at) => CloseStep(j, s, at);
    case Back => if s.pos == 0 { NothingBelow(j, s); } else { SomethingBelow(j, s); BackStep(j, s); }
    case Forward => if s.pos == |s.items| { NothingAhead(j, s); } else { ForwardStep(j, s); }
  }

  lemma {:induction false} NothingBelow(j: Journal, s: Tape)
    requires Related(j, s) && s.pos == 0
    ensures j.done == [] && UndoTo(s.items, s.pos) == None
  {
    hide Grammar;
    assert s.items[..0] == [];
  }

  lemma {:induction false} SomethingBelow(j: Journal, s: Tape)
    requires Related(j, s) && s.pos > 0
    ensures j.done != []
  {
    hide Grammar;
    LastKind(s.items[..s.pos], s.texts[..s.pos + 1], j.done);
  }

  lemma {:induction false} NothingAhead(j: Journal, s: Tape)
    requires Related(j, s) && s.pos == |s.items|
    ensures j.undone == [] && RedoTo(s.items, s.pos) == None
  {
    hide Grammar;
    assert s.items[s.pos..] == [];
  }

  lemma {:induction false} CannotUndo(j: Journal, s: Tape)
    requires Related(j, s) && s.pos > 0 && UndoTo(s.items, s.pos).None?
    ensures !Undoable(j)
  {
    hide Spells, Grammar, Fits, GroupStart;
    SomethingBelow(j, s);
    NoBegins(s.items[..s.pos], s.texts[..s.pos + 1], j.done);
  }

  /** With no redo in reach, whatever changes there are go on to the end of the tape. */
  lemma {:induction false} NoNextEnd(items: seq<Item>, i: nat) returns (c: nat)
    requires Grammar(items) && i <= |items| && NextEnd(items, i).None?
    ensures i <= c <= |items| && (forall k :: i <= k < c ==> !items[k].Change?)
    ensures c < |items| ==> c == |items| - 1 && items[c].Change?
    decreases |items| - i
  {
    if i == |items| || items[i].Change? { c := i; } else { c := NoNextEnd(items, i + 1); }
  }

  lemma {:induction false} CannotRedo(j: Journal, s: Tape)
    requires Related(j, s) && s.pos < |s.items| && RedoTo(s.items, s.pos).None?
    ensures !Redoable(j)
  {
    hide Spells, Grammar, Fits, RedoLength, Linked;
    var p := s.pos;
    var items, texts := s.items[p..], s.texts[p..];
    TextCount(items, texts, j.undone);
    var first := FirstItem(items, texts, j.undone);
    if !items[0].Change? {
      var c := NoNextEnd(s.items, p);
      var m := SpellsCut(items, texts, j.undone, c - p);
      NoChanges(items[..c - p], texts[..c - p + 1], j.undone[..m]);
      if c < |s.items| {
        assert items[c - p..] == [items[c - p]];
        NotAnEnd(items[c - p], texts[c - p..], j.undone[m..]);
      } else {
        SpellsNone(texts[c - p..], j.undone[m..]) by { assert items[c - p..] == []; }
      }
      NeverRedone(j, m);
    }
  }

  lemma {:induction false} NotAnEnd(x: Item, texts: seq<Text>, log: Log)
    requires Spells([x], texts, log) && !x.Finish?
    ensures forall i :: 0 <= i < |log| ==> !log[i].CursorEnd?
  {
    hide Spells;
    OneItem(x, texts, log);
  }

  lemma {:induction false} NeverRedone(j: Journal, m: nat)
    requires j.undone != [] && m <= |j.undone|
    requires forall i :: 0 <= i < m ==> !j.undone[..m][i].IsChange()
    requires forall i :: 0 <= i < |j.undone| - m ==> !j.undone[m..][i].CursorEnd?
    ensures !Redoable(j)
  {
    hide RedoLength, Fits;
    var k := RedoLength(j.undone);
    if k > 2 {
      assert k - 2 < m ==> j.undone[..m][k - 2] == j.undone[k - 2];
      assert k - 1 >= m ==> j.undone[m..][k - 1 - m] == j.undone[k - 1];
    }
  }

  /** The guards of the tape are what the two scans need. */
  lemma {:induction false} GuardsExact(j: Journal, s: Tape)
    requires Related(j, s)
    ensures Undoable(j) <==> CanUndo(s)
    ensures Redoable(j) <==> CanRedo(s)
  {
    hide Spells, Grammar, UndoTo, RedoTo, Journal.Undone, Journal.Redone, Fits, GroupStart, RedoLength;
    if s.pos == 0 {
      NothingBelow(j, s);
    } else if UndoTo(s.items, s.pos).Some? {
      BackStep(j, s);
    } else {
      CannotUndo(j, s);
    }
    if s.pos == |s.items| {
      NothingAhead(j, s);
    } else if RedoTo(s.items, s.pos).Some? {
      ForwardStep(j, s);
    } else {
      CannotRedo(j, s);
    }
  }

  // ----- all runs ------------------------------------------------------------------------

  ghost function TapeRun(s: Tape, ops: seq<Op>): (r: Tape)
    requires s.Whole()
    ensures r.Whole()
    decreases |ops|
  {
    if ops == [] then s else TapeRun(TapeStep(s, ops[0]), ops[1..])
  }

  ghost predicate AllowedRun(s: Tape, ops: seq<Op>)
    requires s.Whole()
    decreases |ops|
  {
    ops == [] || (Allowed(s, ops[0]) && AllowedRun(TapeStep(s, ops[0]), ops[1..]))
  }

  lemma {:induction false} RunRelated(j: Journal, s: Tape, ops: seq<Op>)
    requires Related(j, s) && AllowedRun(s, ops)
    ensures Related(LogRun(j, ops), TapeRun(s, ops))
    decreases |ops|
  {
    hide Spells, Grammar, Allowed, LogStep, TapeStep;
    if ops != [] {
      StepRelated(j, s, ops[0]);
      RunRelated(LogStep(j, ops[0]), TapeStep(s, ops[0]), ops[1..]);
    }
  }

  function NewTape(t: Text): (s: Tape)
    ensures s.Whole()
  {
    Tape([], [t], 0, true)
  }

  lemma {:induction false} NewRelated(t: Text)
    ensures Related(Fresh(t), NewTape(t))
  {
    assert [t][..1] == [t] && [t][0..] == [t];
  }

  /** After any run of edits, marks, closes, undos and redos on a new file the text is the one the tape has at
      its position, and undo and redo find their way exactly when the tape has a place for them to go. Groups
      closed with the cursor on line 0 and groups undone while open are among them. */
  lemma {:induction false} HistoryNavigates(t: Text, ops: seq<Op>)
    requires AllowedRun(NewTape(t), ops)
    ensures var j, s := LogRun(Fresh(t), ops), TapeRun(NewTape(t), ops);
            && j.doc.text == s.texts[s.pos]
            && (Undoable(j) <==> CanUndo(s)) && (Redoable(j) <==> CanRedo(s))
            && (j.done == [] <==> s.pos == 0) && (j.undone == [] <==> s.pos == |s.items|)
  {
    hide Spells, Grammar, LogRun, TapeRun, AllowedRun, NewTape, Undoable, Redoable, CanUndo, CanRedo, RedoTo, UndoTo;
    NewRelated(t);
    RunRelated(Fresh(t), NewTape(t), ops);
    var j, s := LogRun(Fresh(t), ops), TapeRun(NewTape(t), ops);
    GuardsExact(j, s);
    LastKind(s.items[..s.pos], s.texts[..s.pos + 1], j.done);
    LastKind(s.items[s.pos..], s.texts[s.pos..], j.undone);
  }

  // ----- a deletion that logs stale bytes -------------------------------------------------------

  /** A log below that undo does not reach makes no difference. */
  lemma {:induction false} StepAbove(f: Log, j: Journal, op: Op)
    requires op.Back? ==> HasInit(j.done)
    ensures var r := LogStep(j, op); LogStep(j.(done := f + j.done), op) == r.(done := f + r.done)
  {
    hide UndoAll, RedoAll, GroupStart, RedoLength, Edit.Apply, Edit.Records, DocMark;
    var g := j.(done := f + j.done);
    match op
    case Do(e) => EditAbove(f, j, e);
    case UserMark(_, _) =>
    case Close(at) => assert (f + j.done) + [CursorEnd(at)] == f + (j.done + [CursorEnd(at)]);
    case Back => BackAbove(f, j);
    case Forward =>
      var k := RedoLength(j.undone);
      assert (f + j.done) + j.undone[..k] == f + (j.done + j.undone[..k]);
  }

  lemma {:induction false} EditAbove(f: Log, j: Journal, e: Edit)
    ensures var r := j.Edited(e); j.(done := f + j.done).Edited(e) == r.(done := f + r.done)
  {
    hide Edit.Apply, Edit.Records;
    var recs, init := e.Records(j.doc), [CursorInit(j.cursor)];
    assert (f + j.done) + init == f + (j.done + init);
    assert ((f + j.done) + init) + recs == f + ((j.done + init) + recs);
    assert (f + j.done) + recs == f + (j.done + recs);
  }

  lemma {:induction false} BackAbove(f: Log, j: Journal)
    requires HasInit(j.done)
    ensures var r := j.Undone(); j.done != [] && j.(done := f + j.done).Undone() == r.(done := f + r.done)
  {
    hide UndoAll, GroupStart;
    GroupStartIsLast(j.done);
    var k, all := GroupStart(j.done), f + j.done;
    assert forall i :: |f| <= i < |all| ==> all[i] == j.done[i - |f|];
    LastInitIs(all, |f| + k);
    assert all[|f| + k..] == j.done[k..] && all[..|f| + k] == f + j.done[..k];
  }

  /** Undo always has a Begin of this tape to go to. */
  ghost predicate AboveRun(s: Tape, ops: seq<Op>)
    requires s.Whole()
    decreases |ops|
  {
    || ops == []
    || (Allowed(s, ops[0]) && (ops[0].Back? ==> UndoTo(s.items, s.pos).Some?)
        && AboveRun(TapeStep(s, ops[0]), ops[1..]))
  }

  lemma {:induction false} BeginBelow(j: Journal, s: Tape)
    requires Related(j, s) && UndoTo(s.items, s.pos).Some?
    ensures HasInit(j.done)
  {
    hide Spells, Linked, GroupStart;
    var k := UndoTo(s.items, s.pos).value;
    var m := UndoTarget(s.items[..s.pos], s.texts[..s.pos + 1], j.done, k);
  }

  lemma {:induction false} RunAbove(f: Log, j: Journal, s: Tape, ops: seq<Op>)
    requires Related(j, s) && AboveRun(s, ops)
    ensures var r := LogRun(j, ops);
            Related(r, TapeRun(s, ops)) && LogRun(j.(done := f + j.done), ops) == r.(done := f + r.done)
    decreases |ops|
  {
    hide Spells, Grammar, Allowed, LogStep, TapeStep, UndoTo, HasInit;
    if ops != [] {
      if ops[0].Back? { BeginBelow(j, s); }
      StepRelated(j, s, ops[0]);
      StepAbove(f, j, ops[0]);
      RunAbove(f, LogStep(j, ops[0]), TapeStep(s, ops[0]), ops[1..]);
    }
  }

  /** The text a deletion took the file to have. */
  function Believed(j: Journal, e: Edit): Journal
    requires e.DeleteLine? && e.Ok(j.doc.text)
  {
    j.(doc := j.doc.(text := j.doc.text[e.lno - 1 := e.seen]), done := [], undone := [])
  }

  /** From any log whatever, a deletion that logs other bytes than the line's begins a tape of its own: it starts at
      the text with those bytes in the line, which undoing the deletion gives back, and everything after the
      deletion goes on it, as long as no undo goes further back. */
  lemma {:induction false} StaleNavigates(j: Journal, e: Edit, ops: seq<Op>)
    requires e.DeleteLine? && e.Ok(j.doc.text)
    requires AboveRun(TapeStep(BelievedTape(j, e), Do(e)), ops)
    ensures var k, s := LogRun(j.Edited(e), ops), TapeRun(TapeStep(BelievedTape(j, e), Do(e)), ops);
            && k.doc.text == s.texts[s.pos] && j.done <= k.done
            && (k.done == j.done <==> s.pos == 0) && (k.undone == [] <==> s.pos == |s.items|)
  {
    hide Spells, Grammar, LogRun, TapeRun, AboveRun, Linked;
    var b, s0 := Believed(j, e), BelievedTape(j, e);
    BelievedRelated(j, e);
    StepRelated(b, s0, Do(e));
    SameDeletion(j, e);
    var s1 := TapeStep(s0, Do(e));
    RunAbove(j.done, b.Edited(e), s1, ops);
    var r, s := LogRun(b.Edited(e), ops), TapeRun(s1, ops);
    LastKind(s.items[..s.pos], s.texts[..s.pos + 1], r.done);
    LastKind(s.items[s.pos..], s.texts[s.pos..], r.undone);
  }

  function BelievedTape(j: Journal, e: Edit): (s: Tape)
    requires e.DeleteLine? && e.Ok(j.doc.text)
    ensures s.Whole()
  {
    Tape([], [Believed(j, e).doc.text], 0, j.cursor.lno != OOBLNO)
  }

  lemma {:induction false} BelievedRelated(j: Journal, e: Edit)
    requires e.DeleteLine? && e.Ok(j.doc.text)
    ensures Related(Believed(j, e), BelievedTape(j, e)) && Allowed(BelievedTape(j, e), Do(e))
  {
    var t := Believed(j, e).doc.text;
    assert [t][..1] == [t] && [t][0..] == [t];
  }

  /** Taken to be what it is not or not, the line is gone, and the records are the same. */
  lemma {:induction false} SameDeletion(j: Journal, e: Edit)
    requires e.DeleteLine? && e.Ok(j.doc.text)
    ensures var b := Believed(j, e).Edited(e); j.Edited(e) == b.(done := j.done + b.done)
  {
    hide MarksDelete, CmdsInsDel, MarkRecords;
    var b, l := Believed(j, e), e.lno;
    assert DeleteAt(b.doc.text, l) == DeleteAt(j.doc.text, l);
    assert j.done + ([] + [CursorInit(j.cursor)] + e.Records(j.doc)) ==
           (j.done + [CursorInit(j.cursor)]) + e.Records(j.doc);
    assert [] + e.Records(j.doc) == e.Records(j.doc);
  }

  /** Redo right after undo is the identity on the text and the log exactly when what was undone is one Begin,
      one Change and one Finish. */
  lemma {:induction false} RedoUndoesUndo(j: Journal, s: Tape)
    requires Related(j, s) && UndoTo(s.items, s.pos).Some?
    ensures var k := UndoTo(s.items, s.pos).value;
            && (TapeStep(TapeStep(s, Back), Forward) == s <==> s.pos == k + 3)
            && (s.pos == k + 3 ==>
                 var r := LogStep(LogStep(j, Back), Forward);
                 r == j.(doc := r.doc) && r.doc.text == j.doc.text)
  {
    hide Spells, GroupStart, UndoAll, RedoAll, Undoable, Redoable, RedoLength;
    var k := UndoTo(s.items, s.pos).value;
    assert s.items[k + 1].Change?;
    assert k + 2 < |s.items| ==> s.items[k + 2].Finish? && NextEnd(s.items, k + 1) == Some(k + 3);
    SomethingBelow(j, s);
    if s.pos == k + 3 {
      BackStep(j, s);
      ForwardStep(j.Undone(), s.(pos := k));
      WholeGroupAhead(j, s, k);
    }
  }

  lemma {:induction false} WholeGroupAhead(j: Journal, s: Tape, k: nat)
    requires Related(j, s) && s.pos == k + 3 && UndoTo(s.items, s.pos) == Some(k)
    ensures var u := j.Undone(); RedoLength(u.undone) == |j.done| - |u.done| && u.done + u.undone[..RedoLength(u.undone)] == j.done
    ensures j.Undone().undone[RedoLength(j.Undone().undone)..] == j.undone && j.Undone().undone != []
  {
    hide Spells, Linked, GroupStart, UndoAll, AllChanges, RedoLength;
    var items, texts := s.items[..s.pos], s.texts[..s.pos + 1];
    var m := UndoTarget(items, texts, j.done, k);
    var x, tx, g := items[k..], texts[k..], j.done[m..];
    TextCount(x, tx, g);
    var e := LastPiece(x, tx, g);
    assert x[..|x| - 1] == x[..2] && tx[..|x|] == tx[..3];
    var c := LastPiece(x[..2], tx[..3], g[..e]);
    assert x[..2][..1] == [x[0]];
    OneItem(x[0], tx[..3][..2], g[..e][..c]);
    RedoOver(g[..e][..c], g[..e][c..], g[e], j.undone);
    assert x[2].Finish? && g[e..][0] == g[e];
    assert g + j.undone == g[..e][..c] + g[..e][c..] + [g[e]] + j.undone;
    assert (g + j.undone)[..|g|] == g && (g + j.undone)[|g|..] == j.undone;
    assert j.done[..m] + g == j.done;
  }

  function Count(items: seq<Item>, x: Item): nat {
    if items == [] then 0 else Count(items[..|items| - 1], x) + if items[|items| - 1] == x then 1 else 0
  }

  lemma {:induction false} CountNone(items: seq<Item>, x: Item)
    requires forall i :: 0 <= i < |items| ==> items[i] != x
    ensures Count(items, x) == 0
  {
    if items != [] { CountNone(items[..|items| - 1], x); }
  }

  lemma {:induction false} CountSplit(a: seq<Item>, b: seq<Item>, x: Item)
    ensures Count(a + b, x) == Count(a, x) + Count(b, x)
    decreases |b|
  {
    if b == [] {
      assert a + b == a;
    } else {
      assert (a + b)[..|a + b| - 1] == a + b[..|b| - 1];
      CountSplit(a, b[..|b| - 1], x);
    }
  }

  lemma {:induction false} CountFirst(items: seq<Item>, x: Item)
    requires items != [] && items[0] == x && forall i :: 1 <= i < |items| ==> items[i] != x
    ensures Count(items, x) == 1
  {
    CountSplit([items[0]], items[1..], x);
    CountNone(items[1..], x);
    assert [items[0]] + items[1..] == items && [items[0]][..0] == [];
  }

  /** The text before any group below is as many undos away as groups begin from there on ... */
  lemma {:induction false} UndosReach(j: Journal, s: Tape, i: nat)
    requires Related(j, s) && i < s.pos && s.items[i].Begin?
    ensures LogRun(j, seq(Count(s.items[i..s.pos], Begin), _ => Back)).doc.text == s.texts[i]
    decreases s.pos
  {
    hide Spells, Grammar, Count, UndoTo, LogStep, UndoAll;
    var k := UndoTo(s.items, s.pos).value;
    StepRelated(j, s, Back);
    var n := Count(s.items[i..s.pos], Begin);
    assert s.items[i..s.pos] == s.items[i..k] + s.items[k..s.pos];
    CountSplit(s.items[i..k], s.items[k..s.pos], Begin);
    CountFirst(s.items[k..s.pos], Begin);
    if k == i {
      CountNone(s.items[i..k], Begin);
      OneStep(j, Back);
      assert seq(n, _ => Back) == [Back];
    } else {
      UndosReach(LogStep(j, Back), s.(pos := k), i);
      MoreSteps(j, Back, n);
    }
  }

  lemma {:induction false} OneStep(j: Journal, op: Op)
    ensures LogRun(j, [op]) == LogStep(j, op)
  {
    hide LogStep;
    assert [op][1..] == [];
  }

  lemma {:induction false} MoreSteps(j: Journal, op: Op, n: nat)
    requires n > 0
    ensures LogRun(j, seq(n, _ => op)) == LogRun(LogStep(j, op), seq(n - 1, _ => op))
  {
    hide LogStep;
    assert seq(n, _ => op)[1..] == seq(n - 1, _ => op);
  }

  /** ... and the text after any group ahead as many redos as there are groups up to it, if each of them was closed
      once and not written on. */
  lemma {:induction false} RedosReach(j: Journal, s: Tape, q: nat)
    requires Related(j, s) && s.pos + 1 < q <= |s.items| && s.items[q - 2].Change? && s.items[q - 1].Finish?
    requires forall i :: s.pos <= i < q && s.items[i].Change? ==> i > s.pos && s.items[i - 1].Begin?
    ensures LogRun(j, seq(Count(s.items[s.pos..q], Change), _ => Forward)).doc.text == s.texts[q]
    decreases q - s.pos
  {
    hide Spells, Count, LogStep, RedoAll, Grammar;
    NextEndFound(s.items, s.pos, q);
    var r := RedoTo(s.items, s.pos).value;
    StepRelated(j, s, Forward);
    var n := Count(s.items[s.pos..q], Change);
    CountGroup(s.items, s.pos, r, q);
    if r == q {
      OneStep(j, Forward);
      assert seq(n, _ => Forward) == [Forward];
    } else {
      RedosReach(LogStep(j, Forward), s.(pos := r), q);
      MoreSteps(j, Forward, n);
    }
  }

  lemma {:induction false} CountGroup(items: seq<Item>, p: nat, r: nat, q: nat)
    requires p <= r - 2 && r <= q <= |items| && items[r - 2].Change? && !items[r - 1].Change?
    requires forall i :: p <= i < r - 2 ==> !items[i].Change?
    ensures Count(items[p..q], Change) == 1 + Count(items[r..q], Change) && Count(items[q..q], Change) == 0
  {
    hide Count;
    assert items[p..q] == items[p..r - 2] + (items[r - 2..r] + items[r..q]);
    CountSplit(items[p..r - 2], items[r - 2..r] + items[r..q], Change);
    CountSplit(items[r - 2..r], items[r..q], Change);
    CountNone(items[p..r - 2], Change);
    CountFirst(items[r - 2..r], Change);
    CountNone(items[q..q], Change);
  }

  lemma {:induction false} NextEndFound(items: seq<Item>, i: nat, q: nat)
    requires Grammar(items) && i + 1 < q <= |items| && items[q - 2].Change? && items[q - 1].Finish?
    ensures NextEnd(items, i).Some? && NextEnd(items, i).value <= q
    decreases q - i
  {
    if !items[i].Change? { NextEndFound(items, i + 1, q); }
  }
}
