/** common/search.c: forward and backward search over an abstract matcher. */
module Search {
  import opened Store

  /** Whether a match starts at a column of a line; columns run up to the line's length. */
  type Matcher = (Line, nat) -> bool

  /** SEARCH_FILE, SEARCH_INCR, SEARCH_EOL, and the wrapscan option. */
  datatype Flags = Flags(file: bool, incr: bool, eol: bool, wrapscan: bool)

  // ----- what is searched for ----------------------------------------------------------------

  ghost predicate Hit(t: Text, m: Matcher, p: Mark) {
    1 <= p.lno <= |t| && p.cno <= |t[p.lno - 1]| && m(t[p.lno - 1], p.cno)
  }

  predicate Before(p: Mark, q: Mark) {
    p.lno < q.lno || (p.lno == q.lno && p.cno <= q.cno)
  }

  function LineLength(t: Text, lno: nat): nat {
    if 1 <= lno <= |t| then |t[lno - 1]| else 0
  }

  /** The column an incremental search starts at. */
  function BackOne(cno: nat): nat {
    if cno != 0 then cno - 1 else 0
  }

  /** The positions after the cursor: on its own line only when it does not stand at the end. */
  predicate Ahead(t: Text, fm: Mark, f: Flags, p: Mark) {
    f.file || p.lno > fm.lno
    || (p.lno == fm.lno &&
        if f.incr then p.cno >= BackOne(fm.cno) && (LineLength(t, fm.lno) == 0 || BackOne(fm.cno) != LineLength(t, fm.lno))
        else fm.cno + 1 < LineLength(t, fm.lno) && p.cno > fm.cno)
  }

  /** The first hit after the cursor or, with wrapscan and none, the first from line 1 through the
      cursor's line. */
  ghost predicate FirstForward(t: Text, m: Matcher, fm: Mark, f: Flags, p: Mark) {
    && Hit(t, m, p)
    && (if Ahead(t, fm, f, p)
        then forall q :: Hit(t, m, q) && Ahead(t, fm, f, q) ==> Before(p, q)
        else
          && f.wrapscan && p.lno <= fm.lno
          && (forall q :: Hit(t, m, q) ==> !Ahead(t, fm, f, q))
          && (forall q :: Hit(t, m, q) ==> Before(p, q)))
  }

  ghost predicate NoneForward(t: Text, m: Matcher, fm: Mark, f: Flags) {
    forall q :: Hit(t, m, q) ==> !Ahead(t, fm, f, q) && !(f.wrapscan && q.lno <= fm.lno)
  }

  /** regexec from a column on: the least start there is. */
  function RegExec(m: Matcher, l: Line, from: nat): (r: Option<nat>)
    ensures r.Some? ==> from <= r.value <= |l| && m(l, r.value) && forall k :: from <= k < r.value ==> !m(l, k)
    ensures r.None? ==> forall k :: from <= k <= |l| ==> !m(l, k)
    decreases |l| - from
  {
    if from > |l| then None
    else if m(l, from) then Some(from)
    else RegExec(m, l, from + 1)
  }

  // ----- forward ----------------------------------------------------------------------------------

  /** What the forward search knows on reaching a line: no hit it wants lies before it. */
  ghost predicate Sought(t: Text, m: Matcher, fm: Mark, f: Flags, lno: nat, coff: nat, wrapped: bool) {
    if wrapped then
      && f.wrapscan && coff == 0
      && forall q :: Hit(t, m, q) ==> !Ahead(t, fm, f, q) && lno <= q.lno
    else
      && (forall q :: Hit(t, m, q) && Ahead(t, fm, f, q) ==> Before(Mark(lno, coff), q))
      && (coff != 0 ==> lno == fm.lno && !f.file)
      && (f.file || lno >= fm.lno)
      && (lno == fm.lno && !f.file ==>
            if f.incr then coff == BackOne(fm.cno) else coff == fm.cno + 1 < LineLength(t, lno))
  }

  lemma {:induction false} LineGone(t: Text, m: Matcher, fm: Mark, f: Flags, lno: nat, coff: nat, wrapped: bool)
    requires 1 <= lno <= |t| && Sought(t, m, fm, f, lno, coff, wrapped)
    requires (|t[lno - 1]| != 0 && coff == |t[lno - 1]|) || RegExec(m, t[lno - 1], coff).None?
    ensures Sought(t, m, fm, f, lno + 1, 0, wrapped)
  {
  }

  lemma {:induction false} Wrapped(t: Text, m: Matcher, fm: Mark, f: Flags, lno: nat, coff: nat)
    requires f.wrapscan && lno > |t| && Sought(t, m, fm, f, lno, coff, false)
    ensures Sought(t, m, fm, f, 1, 0, true)
  {
  }

  lemma {:induction false} NothingForward(t: Text, m: Matcher, fm: Mark, f: Flags, lno: nat, coff: nat, wrapped: bool)
    requires Sought(t, m, fm, f, lno, coff, wrapped) && (lno > |t| || (wrapped && lno > fm.lno))
    requires wrapped || !f.wrapscan
    ensures NoneForward(t, m, fm, f)
  {
  }

  lemma {:induction false} FoundForward(t: Text, m: Matcher, fm: Mark, f: Flags, lno: nat, coff: nat, wrapped: bool)
    requires 1 <= lno <= |t| && Sought(t, m, fm, f, lno, coff, wrapped) && (wrapped ==> lno <= fm.lno)
    requires !(|t[lno - 1]| != 0 && coff == |t[lno - 1]|) && RegExec(m, t[lno - 1], coff).Some?
    ensures FirstForward(t, m, fm, f, Mark(lno, RegExec(m, t[lno - 1], coff).value))
  {
    var p := Mark(lno, RegExec(m, t[lno - 1], coff).value);
    assert Hit(t, m, p);
  }

  lemma {:induction false} FirstExcludesNone(t: Text, m: Matcher, fm: Mark, f: Flags, p: Mark)
    requires FirstForward(t, m, fm, f, p)
    ensures !NoneForward(t, m, fm, f)
  {
    assert Hit(t, m, p);
  }

  /** f_search; the result is nothing when it fails. */
  method FSearch(t: Text, m: Matcher, fm: Mark, f: Flags) returns (r: Option<Mark>)
    requires t != [] && !f.file ==> 1 <= fm.lno <= |t|
    ensures r.Some? ==> exists p ::
              && FirstForward(t, m, fm, f, p) && r.value.lno == p.lno
              && (f.eol || p.cno < |t[p.lno - 1]| ==> r.value.cno == p.cno)
              && (!f.eol && p.cno >= |t[p.lno - 1]| ==>
                   if |t[p.lno - 1]| == 0 then r.value.cno == 0 else r.value.cno + 1 == |t[p.lno - 1]|)
    ensures r.None? <==> NoneForward(t, m, fm, f)
  {
    hide FirstForward, NoneForward, RegExec, Ahead;
    var lno: nat, coff: nat, wrapped := 1, 0, false;
    if t == [] {
      NoHits(m, fm, f);
      return None;
    }
    StartForward(t, m, fm, f);
    if !f.file {
      var len := |t[fm.lno - 1]|;
      lno := fm.lno;
      if f.incr {
        coff := fm.cno;
        if coff != 0 { coff := coff - 1; }
      } else if fm.cno + 1 >= len {
        coff := 0;
        lno := fm.lno + 1;
        if lno > |t| {
          if !f.wrapscan {
            NothingForward(t, m, fm, f, lno, coff, false);
            return None;
          }
          Wrapped(t, m, fm, f, lno, coff);
          lno := 1;
          wrapped := true;
        }
      } else {
        coff := fm.cno + 1;
      }
    }
    while true
      invariant 1 <= lno <= |t| + 1
      invariant Sought(t, m, fm, f, lno, coff, wrapped)
      decreases !wrapped, |t| + 1 - lno
    {
      if (wrapped && lno > fm.lno) || lno > |t| {
        if wrapped || !f.wrapscan {
          NothingForward(t, m, fm, f, lno, coff, wrapped);
          return None;
        }
        Wrapped(t, m, fm, f, lno, coff);
        lno := 0;
        wrapped := true;
      } else {
        var l := t[lno - 1];
        if |l| != 0 && coff == |l| {
          LineGone(t, m, fm, f, lno, coff, wrapped);
        } else {
          var so := RegExec(m, l, coff);
          if so.Some? {
            FoundForward(t, m, fm, f, lno, coff, wrapped);
            FirstExcludesNone(t, m, fm, f, Mark(lno, so.value));
            return Some(if !f.eol && so.value >= |l| then Mark(lno, if |l| != 0 then |l| - 1 else 0) else Mark(lno, so.value));
          }
          LineGone(t, m, fm, f, lno, coff, wrapped);
        }
      }
      lno, coff := lno + 1, 0;
    }
  }

  /** A plain search finds the nearest start after the cursor, none on the cursor's line when the cursor is at its
      end; or else, wrapping round, the first of the file, which is not after the cursor's line. */
  lemma {:induction false} NextAfterCursor(t: Text, m: Matcher, fm: Mark, f: Flags, p: Mark, q: Mark)
    requires FirstForward(t, m, fm, f, p) && !f.file && !f.incr && 1 <= fm.lno <= |t| && Hit(t, m, q)
    ensures p.lno > fm.lno || (p.lno == fm.lno && p.cno > fm.cno) || (f.wrapscan && p.lno <= fm.lno)
    ensures (p.lno > fm.lno || (p.lno == fm.lno && p.cno > fm.cno && fm.cno + 1 < |t[fm.lno - 1]|)) ==>
              (q.lno > fm.lno || (q.lno == fm.lno && q.cno > fm.cno && fm.cno + 1 < |t[fm.lno - 1]|)) ==>
              p.lno < q.lno || (p.lno == q.lno && p.cno <= q.cno)
    ensures !(p.lno > fm.lno || (p.lno == fm.lno && p.cno > fm.cno && fm.cno + 1 < |t[fm.lno - 1]|)) ==>
              && q.lno <= fm.lno && (p.lno < q.lno || (p.lno == q.lno && p.cno <= q.cno))
              && !(q.lno == fm.lno && q.cno > fm.cno && fm.cno + 1 < |t[fm.lno - 1]|)
  {
  }

  /** A search of the whole file finds its first start; an incremental one looks from one column before the
      cursor on. */
  lemma {:induction false} FromTheStart(t: Text, m: Matcher, fm: Mark, f: Flags, p: Mark, q: Mark)
    requires FirstForward(t, m, fm, f, p) && Hit(t, m, q)
    ensures f.file ==> p.lno < q.lno || (p.lno == q.lno && p.cno <= q.cno)
    ensures !f.file && f.incr && q.lno == fm.lno && fm.cno <= q.cno + 1 && fm.cno <= |t[q.lno - 1]| ==>
              p.lno == fm.lno && fm.cno <= p.cno + 1 && p.cno <= q.cno
  {
  }

  lemma {:induction false} NoHits(m: Matcher, fm: Mark, f: Flags)
    ensures NoneForward([], m, fm, f)
  {
  }

  lemma {:induction false} StartForward(t: Text, m: Matcher, fm: Mark, f: Flags)
    requires t != [] && (f.file || 1 <= fm.lno <= |t|)
    ensures f.file ==> Sought(t, m, fm, f, 1, 0, false)
    ensures !f.file && f.incr ==> Sought(t, m, fm, f, fm.lno, BackOne(fm.cno), false)
    ensures !f.file && !f.incr ==>
              if fm.cno + 1 >= LineLength(t, fm.lno) then Sought(t, m, fm, f, fm.lno + 1, 0, false)
              else Sought(t, m, fm, f, fm.lno, fm.cno + 1, false)
  {
  }

  // ----- backward -------------------------------------------------------------------------------------

  /** The positions before the cursor; an incremental search takes in the cursor itself. */
  predicate Back(fm: Mark, f: Flags, p: Mark) {
    p.lno < fm.lno || (p.lno == fm.lno && p.cno < (if f.incr then fm.cno + 1 else fm.cno))
  }

  /** A start the search may stop at: a limit of zero is none. */
  ghost predicate Acceptable(t: Text, m: Matcher, coff: nat, p: Mark) {
    Hit(t, m, p) && (coff != 0 ==> p.cno < coff)
  }

  /** The start the walk along a line ends at: the last acceptable one, except that a start at the end
      of the line is not looked for when there is one at the last character. */
  ghost predicate LastOnLine(t: Text, m: Matcher, coff: nat, p: Mark) {
    var len := LineLength(t, p.lno);
    && Acceptable(t, m, coff, p)
    && (forall k: nat :: Acceptable(t, m, coff, Mark(p.lno, k)) ==> k <= p.cno || (k == len && p.cno + 1 == len))
    && (p.cno == len && len > 0 ==> !Acceptable(t, m, coff, Mark(p.lno, len - 1)))
  }

  /** The limit on a line before the wrap. */
  function Limit(fm: Mark, f: Flags, lno: nat): nat {
    if lno != fm.lno then 0 else if f.incr then fm.cno + 1 else fm.cno
  }

  /** The last acceptable start on the nearest line before the cursor or, with wrapscan and none, on the
      last line at or after the cursor's that has one. */
  ghost predicate LastBackward(t: Text, m: Matcher, fm: Mark, f: Flags, p: Mark) {
    if Back(fm, f, p) then
      && LastOnLine(t, m, Limit(fm, f, p.lno), p)
      && forall q :: Hit(t, m, q) && Back(fm, f, q) ==> q.lno <= p.lno
    else
      && f.wrapscan && p.lno >= fm.lno && LastOnLine(t, m, 0, p)
      && (forall q :: Hit(t, m, q) ==> !Back(fm, f, q) && q.lno <= p.lno)
  }

  ghost predicate NoneBackward(t: Text, m: Matcher, fm: Mark, f: Flags) {
    forall q :: Hit(t, m, q) ==> !Back(fm, f, q) && !(f.wrapscan && q.lno >= fm.lno)
  }

  /** What the backward search knows on reaching a line. */
  ghost predicate SoughtBack(t: Text, m: Matcher, fm: Mark, f: Flags, lno: nat, coff: nat, wrapped: bool) {
    if wrapped then
      && f.wrapscan && coff == 0
      && forall q :: Hit(t, m, q) ==> !Back(fm, f, q) && q.lno <= lno
    else
      && lno <= fm.lno
      && (forall q :: Hit(t, m, q) && Back(fm, f, q) ==> q.lno <= lno)
      && coff == Limit(fm, f, lno)
      && (lno == fm.lno ==> coff != 0)
  }

  lemma {:induction false} StartBackward(t: Text, m: Matcher, fm: Mark, f: Flags)
    requires fm.lno >= 1
    ensures if f.incr || fm.cno != 0 then SoughtBack(t, m, fm, f, fm.lno, if f.incr then fm.cno + 1 else fm.cno, false)
            else SoughtBack(t, m, fm, f, fm.lno - 1, 0, false)
  {
  }

  lemma {:induction false} LineGoneBack(t: Text, m: Matcher, fm: Mark, f: Flags, lno: nat, coff: nat, wrapped: bool)
    requires 1 <= lno <= |t| && SoughtBack(t, m, fm, f, lno, coff, wrapped)
    requires var so := RegExec(m, t[lno - 1], 0); so.None? || (coff != 0 && so.value >= coff)
    ensures SoughtBack(t, m, fm, f, lno - 1, 0, wrapped)
  {
  }

  lemma {:induction false} WrappedBack(t: Text, m: Matcher, fm: Mark, f: Flags, coff: nat)
    requires f.wrapscan && SoughtBack(t, m, fm, f, 0, coff, false)
    ensures SoughtBack(t, m, fm, f, |t|, 0, true)
  {
  }

  lemma {:induction false} NothingBackward(t: Text, m: Matcher, fm: Mark, f: Flags, lno: nat, coff: nat, wrapped: bool)
    requires SoughtBack(t, m, fm, f, lno, coff, wrapped) && (lno == 0 || (wrapped && lno < fm.lno))
    requires wrapped || !f.wrapscan
    ensures NoneBackward(t, m, fm, f)
  {
  }

  lemma {:induction false} FoundBackward(t: Text, m: Matcher, fm: Mark, f: Flags, lno: nat, coff: nat, wrapped: bool, k: nat)
    requires 1 <= lno <= |t| && SoughtBack(t, m, fm, f, lno, coff, wrapped) && (wrapped ==> lno >= fm.lno)
    requires LastOnLine(t, m, coff, Mark(lno, k))
    ensures LastBackward(t, m, fm, f, Mark(lno, k))
    ensures !NoneBackward(t, m, fm, f)
  {
    assert Hit(t, m, Mark(lno, k));
  }

  /** A plain backward search finds a start before the cursor, on the nearest line that has one; or else, wrapping
      round, one on the last line that has any, which is not before the cursor's. */
  lemma {:induction false} NextBeforeCursor(t: Text, m: Matcher, fm: Mark, f: Flags, p: Mark, q: Mark)
    requires LastBackward(t, m, fm, f, p) && !f.incr && 1 <= fm.lno <= |t| && Hit(t, m, q)
    ensures m(t[p.lno - 1], p.cno)
    ensures p.lno < fm.lno || (p.lno == fm.lno && p.cno < fm.cno) || (f.wrapscan && p.lno >= fm.lno)
    ensures (p.lno < fm.lno || (p.lno == fm.lno && p.cno < fm.cno)) ==>
              && (q.lno < fm.lno || (q.lno == fm.lno && q.cno < fm.cno) ==> q.lno <= p.lno)
              && (q.lno == p.lno && q.cno < |t[p.lno - 1]| && (p.lno == fm.lno ==> q.cno < fm.cno) ==> q.cno <= p.cno)
    ensures !(p.lno < fm.lno || (p.lno == fm.lno && p.cno < fm.cno)) ==>
              && !(q.lno < fm.lno || (q.lno == fm.lno && q.cno < fm.cno)) && q.lno <= p.lno
              && (q.lno == p.lno && q.cno < |t[p.lno - 1]| ==> q.cno <= p.cno)
  {
    assert Mark(q.lno, q.cno) == q;
  }

  /** An incremental backward search takes in the cursor. */
  lemma {:induction false} AtTheCursor(t: Text, m: Matcher, fm: Mark, f: Flags, p: Mark, q: Mark)
    requires LastBackward(t, m, fm, f, p) && f.incr && Hit(t, m, q) && q.lno == fm.lno && q.cno <= fm.cno
    ensures p.lno == fm.lno && p.cno <= fm.cno && (q.cno < |t[q.lno - 1]| ==> q.cno <= p.cno)
  {
    assert Mark(q.lno, q.cno) == q;
  }

  /** So the cursor goes to the last acceptable start, but with SEARCH_EOL exactly when it is not the
      case that one starts at the last character and one at the end of the line. */
  lemma {:induction false} LastIsLast(t: Text, m: Matcher, f: Flags, coff: nat, p: Mark, last: Mark)
    requires LastOnLine(t, m, coff, p)
    requires last.lno == p.lno && Acceptable(t, m, coff, last)
    requires forall k: nat :: Acceptable(t, m, coff, Mark(p.lno, k)) ==> k <= last.cno
    ensures var len := LineLength(t, p.lno);
            var end := if len == 0 then 0 else len - 1;
            (if f.eol || p.cno < len then p.cno else end) == (if f.eol || last.cno < len then last.cno else end) <==>
            !(f.eol && last.cno == LineLength(t, p.lno) > 0 && Acceptable(t, m, coff, Mark(p.lno, last.cno - 1)))
  {
    assert Mark(p.lno, last.cno) == last && Mark(p.lno, p.cno) == p;
  }

  /** The walk along the line from its first match. */
  method StepAlong(t: Text, m: Matcher, lno: nat, coff: nat, first: nat) returns (last: nat)
    requires 1 <= lno <= |t| && RegExec(m, t[lno - 1], 0) == Some(first) && (coff != 0 ==> first < coff)
    ensures LastOnLine(t, m, coff, Mark(lno, last))
  {
    var l := t[lno - 1];
    var so := first;
    while true
      invariant so <= |l| && Acceptable(t, m, coff, Mark(lno, so))
      invariant so == |l| > 0 ==> !m(l, |l| - 1)
      decreases |l| - so
    {
      last := so;
      so := so + 1;
      if so >= |l| { break; }
      var next := RegExec(m, l, so);
      if next.None? { break; }
      so := next.value;
      if coff != 0 && so >= coff { break; }
    }
  }

  /** b_search; the result is nothing when it fails. */
  method BSearch(t: Text, m: Matcher, fm: Mark, f: Flags) returns (r: Option<Mark>)
    requires t != [] ==> 1 <= fm.lno <= |t|
    ensures r.Some? ==> exists p ::
              && LastBackward(t, m, fm, f, p) && r.value.lno == p.lno
              && (f.eol || p.cno < |t[p.lno - 1]| ==> r.value.cno == p.cno)
              && (!f.eol && p.cno >= |t[p.lno - 1]| ==>
                   if |t[p.lno - 1]| == 0 then r.value.cno == 0 else r.value.cno + 1 == |t[p.lno - 1]|)
    ensures r.None? <==> NoneBackward(t, m, fm, f)
  {
    hide LastBackward, NoneBackward, SoughtBack, RegExec, LastOnLine;
    if t == [] {
      NoHitsBack(m, fm, f);
      return None;
    }
    StartBackward(t, m, fm, f);
    var lno: nat, coff: nat, wrapped := fm.lno, fm.cno + 1, false;
    if !f.incr {
      if fm.cno == 0 {
        if fm.lno == 1 && !f.wrapscan {
          NothingBackward(t, m, fm, f, 0, 0, false);
          return None;
        }
        lno := fm.lno - 1;
      }
      coff := fm.cno;
    }
    while true
      invariant lno <= |t| && SoughtBack(t, m, fm, f, lno, coff, wrapped)
      decreases !wrapped, lno
    {
      if (wrapped && lno < fm.lno) || lno == 0 {
        if wrapped || !f.wrapscan {
          NothingBackward(t, m, fm, f, lno, coff, wrapped);
          return None;
        }
        WrappedBack(t, m, fm, f, coff);
        lno := |t|;
        lno := lno + 1;
        wrapped := true;
      } else {
        var l := t[lno - 1];
        var so := RegExec(m, l, 0);
        if so.None? || (coff != 0 && so.value >= coff) {
          LineGoneBack(t, m, fm, f, lno, coff, wrapped);
        } else {
          var last := StepAlong(t, m, lno, coff, so.value);
          FoundBackward(t, m, fm, f, lno, coff, wrapped, last);
          if !f.eol && last >= |l| { return Some(Mark(lno, if |l| != 0 then |l| - 1 else 0)); }
          return Some(Mark(lno, last));
        }
      }
      lno, coff := lno - 1, 0;
    }
  }

  lemma {:induction false} NoHitsBack(m: Matcher, fm: Mark, f: Flags)
    ensures NoneBackward([], m, fm, f)
  {
  }
}
