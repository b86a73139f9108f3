/** common/cut.c: cut buffers and the numbered-buffer history. */
module Cut {
  import opened Store
  import opened EditorModule
  import opened Delete

  /** A cut buffer: its lines, their total length, and whether it was cut in line mode. */
  datatype Buffer = Buffer(name: char, text: seq<Line>, len: nat, lmode: bool)

  /** The current default buffer: none, the unnamed storage, or a named buffer. */
  datatype Default = NoDefault | Unnamed | Named(name: char)

  function Lower(c: char): char {
    if 'A' <= c <= 'Z' then c - 'A' + 'a' else c
  }

  predicate IsUpper(c: char) {
    'A' <= c <= 'Z'
  }

  function Find(bs: seq<Buffer>, name: char): Option<Buffer> {
    if bs == [] then None
    else if bs[0].name == name then Some(bs[0])
    else Find(bs[1..], name)
  }

  ghost predicate Distinct(bs: seq<Buffer>) {
    forall i, j :: 0 <= i < j < |bs| ==> bs[i].name != bs[j].name
  }

  function TotalLength(text: seq<Line>): nat {
    if text == [] then 0 else TotalLength(text[..|text| - 1]) + |text[|text| - 1]|
  }

  // ----- what is cut ------------------------------------------------------------------

  /** cut_line: a non-empty line gives the asked-for characters. */
  function Piece(line: Line, from: nat, to: int): Line {
    if line == "" || !(from <= to <= |line|) then "" else line[from..to]
  }

  function Pieces(t: Text, f: nat, fc: nat, l: nat, tc: int, lmode: bool): seq<Line> {
    if !(1 <= f <= l <= |t|) then []
    else if lmode then t[f - 1..l]
    else if f == l then [Piece(t[f - 1], fc, tc + 1)]
    else [Piece(t[f - 1], fc, |t[f - 1]|)] + t[f..l - 1] + [Piece(t[l - 1], 0, tc + 1)]
  }

  /** Cut callers stay inside the lines they cut. */
  predicate CutOk(t: Text, f: nat, fc: nat, l: nat, tc: int, lmode: bool) {
    if lmode then 1 <= f <= l <= |t| else Positions(t, f, fc, l, tc) && EndsInside(t, l, tc)
  }

  /** What is cut is the stretch of the text from the first position up to and with the second. */
  lemma {:induction false} CutIsStretch(t: Text, f: nat, fc: nat, l: nat, tc: int)
    requires CutOk(t, f, fc, l, tc, false)
    ensures var end := if t[l - 1] == "" then 0 else tc + 1;
            && Offset(t, f, fc) <= Offset(t, l, end) <= |Flat(t)|
            && Flat(Pieces(t, f, fc, l, tc, false)) == Flat(t)[Offset(t, f, fc)..Offset(t, l, end)]
  {
    hide Flat, FlatBefore, FlatBehind;
    var end := if t[l - 1] == "" then 0 else tc + 1;
    var x := Pieces(t, f, fc, l, tc, false);
    FlatCut(t, f, fc);
    FlatCut(t, l, end);
    if f == l {
      FlatOne(t[f - 1][fc..end]);
      assert x == [t[f - 1][fc..end]];
      Between(FlatBefore(t[..f - 1]), t[f - 1], fc, end, Flat(t));
    } else {
      var a, p, q, mid := FlatBefore(t[..f - 1]), t[f - 1], t[l - 1][..end], t[f..l - 1];
      PieceIs(p, fc, |p|);
      PieceIs(t[l - 1], 0, end);
      assert x == ([p[fc..]] + mid) + [q];
      FlatJoin([p[fc..]] + mid, [q]);
      FlatOne(q);
      BeforeJoin([p[fc..]], mid);
      FlatOne(p[fc..]);
      OneBefore(p[fc..]);
      assert t[..l - 1] == t[..f - 1] + ([p] + mid);
      BeforeJoin(t[..f - 1], [p] + mid);
      BeforeJoin([p], mid);
      OneBefore(p);
      Across(a, p, fc, FlatBefore(mid), q, Flat(t), Offset(t, l, end));
    }
  }

  lemma {:induction false} PieceIs(p: Line, from: nat, to: nat)
    requires from <= to <= |p|
    ensures Piece(p, from, to) == p[from..to] && (to == |p| ==> p[from..to] == p[from..])
    ensures p == "" ==> forall e: int :: Piece(p, from, e) == ""
  {
  }

  lemma {:induction false} OneBefore(p: Line)
    ensures FlatBefore([p]) == p + "\n"
  {
    FlatOne(p);
  }

  lemma {:induction false} Between(a: string, p: Line, c: nat, e: nat, s: string)
    requires c <= e <= |p| && |a| + e <= |s| && s[..|a| + e] == a + p[..e]
    ensures s[|a| + c..|a| + e] == p[c..e]
  {
    assert s[..|a| + e][|a| + c..] == p[..e][c..];
  }

  lemma {:induction false} Across(a: string, p: Line, c: nat, mid: string, q: Line, s: string, e: nat)
    requires c <= |p| && e <= |s| && e == |a| + |p| + 1 + |mid| + |q| && s[..e] == a + (p + "\n" + mid) + q
    ensures s[|a| + c..e] == (p[c..] + "\n" + mid) + q
  {
    assert s[..e][|a| + c..] == (p[c..] + "\n" + mid) + q;
  }

  // ----- where it goes -------------------------------------------------------------------

  /** cb_rotate: '1' becomes '2' and so on, and the old '9' is gone. */
  function RotatedName(c: char): Option<char> {
    if '1' <= c <= '8' then Some(c + 1 as char) else if c == '9' then None else Some(c)
  }

  function Rotated(bs: seq<Buffer>): seq<Buffer> {
    if bs == [] then []
    else
      match RotatedName(bs[0].name)
      case Some(c) => [bs[0].(name := c)] + Rotated(bs[1..])
      case None => Rotated(bs[1..])
  }

  /** One pass of the copy loop into a buffer: replaced, or extended on an append. */
  function Filled(b: Buffer, pieces: seq<Line>, lmode: bool, append: bool): Buffer {
    if append then Buffer(b.name, b.text + pieces, b.len + TotalLength(pieces), b.lmode || lmode)
    else Buffer(b.name, pieces, TotalLength(pieces), lmode)
  }

  function FilledNamed(bs: seq<Buffer>, name: char, pieces: seq<Line>, lmode: bool, append: bool): seq<Buffer> {
    if Find(bs, name).None? then [Buffer(name, pieces, TotalLength(pieces), lmode)] + bs
    else Replaced(bs, name, pieces, lmode, append)
  }

  function Replaced(bs: seq<Buffer>, name: char, pieces: seq<Line>, lmode: bool, append: bool): seq<Buffer> {
    if bs == [] then []
    else if bs[0].name == name then [Filled(bs[0], pieces, lmode, append)] + bs[1..]
    else [bs[0]] + Replaced(bs[1..], name, pieces, lmode, append)
  }

  lemma {:induction false} FindReplaced(bs: seq<Buffer>, name: char, pieces: seq<Line>, lmode: bool, append: bool, x: char)
    requires Find(bs, name).Some?
    ensures Find(Replaced(bs, name, pieces, lmode, append), x) ==
            if x == name then Some(Filled(Find(bs, name).value, pieces, lmode, append)) else Find(bs, x)
  {
    if bs[0].name != name {
      FindReplaced(bs[1..], name, pieces, lmode, append, x);
    }
  }

  /** After a pass the named buffer holds the cut text, or has it at its end; every other
      buffer is as it was. */
  lemma {:induction false} FindFilled(bs: seq<Buffer>, name: char, pieces: seq<Line>, lmode: bool, append: bool, x: char)
    ensures Find(FilledNamed(bs, name, pieces, lmode, append), x) ==
            if x != name then Find(bs, x)
            else match Find(bs, name)
                 case None => Some(Buffer(name, pieces, TotalLength(pieces), lmode))
                 case Some(b) =>
                   Some(if append then Buffer(b.name, b.text + pieces, b.len + TotalLength(pieces), b.lmode || lmode)
                        else Buffer(b.name, pieces, TotalLength(pieces), lmode))
  {
    if Find(bs, name).Some? {
      FindReplaced(bs, name, pieces, lmode, append, x);
    } else {
      assert ([Buffer(name, pieces, TotalLength(pieces), lmode)] + bs)[1..] == bs;
    }
  }

  lemma {:induction false} FindNamed(bs: seq<Buffer>, x: char)
    ensures Find(bs, x).Some? ==> Find(bs, x).value.name == x
    ensures Find(bs, x).None? <==> forall i :: 0 <= i < |bs| ==> bs[i].name != x
  {
    if bs != [] {
      FindNamed(bs[1..], x);
    }
  }

  lemma {:induction false} FindByIndex(bs: seq<Buffer>, x: char, i: nat)
    requires i <= |bs| && (i < |bs| ==> bs[i].name == x) && forall j :: 0 <= j < i ==> bs[j].name != x
    ensures Find(bs, x) == if i < |bs| then Some(bs[i]) else None
  {
    if i > 0 {
      FindByIndex(bs[1..], x, i - 1);
    }
  }

  /** The name a buffer had before the rotation that gave it this one. */
  function NameBefore(x: char): Option<char> {
    if x == '1' then None else if '2' <= x <= '9' then Some(x - 1 as char) else Some(x)
  }

  /** The history law: after a rotation buffer k + 1 is what buffer k was, there is no buffer
      '1', and other buffers are untouched. */
  lemma {:induction false} RotationShifts(bs: seq<Buffer>, x: char)
    ensures Find(Rotated(bs), x) ==
            match NameBefore(x)
            case None => None
            case Some(y) => match Find(bs, y) case None => None case Some(b) => Some(b.(name := x))
  {
    if bs != [] {
      RotationShifts(bs[1..], x);
      match RotatedName(bs[0].name)
      case Some(c) => assert Rotated(bs)[1..] == Rotated(bs[1..]);
      case None =>
    }
  }

  lemma {:induction false} RotatedDistinct(bs: seq<Buffer>)
    requires Distinct(bs)
    ensures Distinct(Rotated(bs))
  {
    if bs != [] {
      RotatedDistinct(bs[1..]);
      if RotatedName(bs[0].name).Some? {
        var c := RotatedName(bs[0].name).value;
        RotationShifts(bs[1..], c);
        FindNamed(Rotated(bs[1..]), c);
        FindNamed(bs[1..], bs[0].name);
        assert Find(bs[1..], bs[0].name).None?;
      }
    }
  }

  lemma {:induction false} FilledDistinct(bs: seq<Buffer>, name: char, pieces: seq<Line>, lmode: bool, append: bool)
    requires Distinct(bs)
    ensures Distinct(FilledNamed(bs, name, pieces, lmode, append))
  {
    FindNamed(bs, name);
    ReplacedNames(bs, name, pieces, lmode, append);
  }

  lemma {:induction false} ReplacedNames(bs: seq<Buffer>, name: char, pieces: seq<Line>, lmode: bool, append: bool)
    ensures var r := Replaced(bs, name, pieces, lmode, append);
            |r| == |bs| && forall i :: 0 <= i < |bs| ==> r[i].name == bs[i].name
  {
    if bs != [] && bs[0].name != name {
      ReplacedNames(bs[1..], name, pieces, lmode, append);
    }
  }

  // ----- the buffers --------------------------------------------------------------------

  datatype State = State(cutq: seq<Buffer>, store: Buffer, dcbp: Default)

  /** Where a cut puts its text.  numbered says the numbered buffers are to be used. */
  function CutSpec(s: State, namep: Option<char>, numbered: bool, x: seq<Line>, lmode: bool): State {
    var bs := if numbered then Rotated(s.cutq) else s.cutq;
    match namep
    case None =>
      if numbered then State(FilledNamed(bs, '1', x, lmode, false), s.store, Named('1'))
      else State(bs, Filled(s.store, x, lmode, false), Unnamed)
    case Some(name) =>
      var n := Lower(name);
      var once := FilledNamed(bs, n, x, lmode, IsUpper(name));
      if numbered then State(FilledNamed(once, n, x, lmode, false), s.store, Named(n))
      else if IsUpper(name) then State(once, Filled(s.store, x, lmode, false), Unnamed)
      else State(once, s.store, Named(n))
  }

  /** The buffer put takes when no name is given. */
  function DefaultBuffer(s: State): Option<Buffer> {
    match s.dcbp
    case NoDefault => None
    case Unnamed => Some(s.store)
    case Named(n) => Find(s.cutq, n)
  }

  /** The default buffer holds exactly the text just cut, except that a named buffer appended
      to holds it in the unnamed storage. */
  lemma {:induction false} DefaultIsCut(s: State, namep: Option<char>, numbered: bool, x: seq<Line>, lmode: bool)
    ensures var b := DefaultBuffer(CutSpec(s, namep, numbered, x, lmode));
            b.Some? && b.value.text == x && b.value.lmode == lmode
  {
    var bs := if numbered then Rotated(s.cutq) else s.cutq;
    match namep
    case None => FindFilled(bs, '1', x, lmode, false, '1'); RotationShifts(s.cutq, '1');
    case Some(name) =>
      var n := Lower(name);
      var once := FilledNamed(bs, n, x, lmode, IsUpper(name));
      FindFilled(bs, n, x, lmode, IsUpper(name), n);
      FindFilled(once, n, x, lmode, false, n);
  }

  /** A cut that is not to be numbered: without a name it goes into the unnamed storage and into no buffer; with a
      letter it is what that buffer then holds; and with a capital one it goes behind what the buffer of the small
      letter holds, and into the unnamed storage. No other buffer changes. */
  lemma {:induction false} PlainCut(s: State, namep: Option<char>, x: seq<Line>, lmode: bool, c: char)
    ensures var r := CutSpec(s, namep, false, x, lmode);
            match namep
            case None =>
              r.cutq == s.cutq && r.dcbp == Unnamed && r.store == Buffer(s.store.name, x, TotalLength(x), lmode)
            case Some(name) =>
              var capital := 'A' <= name <= 'Z';
              var n := if capital then name - 'A' + 'a' else name;
              && (c != n ==> Find(r.cutq, c) == Find(s.cutq, c))
              && Find(r.cutq, n).Some?
              && var was, now := Find(s.cutq, n), Find(r.cutq, n).value;
                 && (capital && was.Some? ==> now.text == was.value.text + x && now.lmode == (was.value.lmode || lmode))
                 && (!capital || was.None? ==> now.text == x && now.lmode == lmode)
                 && (capital ==> r.dcbp == Unnamed && r.store == Buffer(s.store.name, x, TotalLength(x), lmode))
                 && (!capital ==> r.dcbp == Named(n) && r.store == s.store)
  {
    if namep.Some? {
      var n := Lower(namep.value);
      FindFilled(s.cutq, n, x, lmode, IsUpper(namep.value), c);
      FindFilled(s.cutq, n, x, lmode, IsUpper(namep.value), n);
    }
  }

  /** Each unnamed numbered cut pushes the history: '1' is the new text, k + 1 is what k was,
      the old '9' is gone and buffers with letters are untouched. */
  lemma {:induction false} NumberedHistory(s: State, x: seq<Line>, lmode: bool, c: char)
    ensures Find(CutSpec(s, None, true, x, lmode).cutq, c) ==
            if c == '1' then Some(Buffer('1', x, TotalLength(x), lmode))
            else if '2' <= c <= '9' then
              match Find(s.cutq, c - 1 as char) case None => None case Some(b) => Some(b.(name := c))
            else Find(s.cutq, c)
  {
    FindFilled(Rotated(s.cutq), '1', x, lmode, false, c);
    RotationShifts(s.cutq, '1');
    RotationShifts(s.cutq, c);
    FindNamed(s.cutq, c);
  }

  /** The second pass of a named cut that is also to go into buffer '1' goes into the named
      buffer again: an append to it is lost, and the rotation leaves no buffer '1' unless that is the name. */
  lemma {:induction false} NamedNumberedCut(s: State, name: char, x: seq<Line>, lmode: bool)
    ensures var r := CutSpec(s, Some(name), true, x, lmode);
            && (Find(r.cutq, '1').Some? <==> Lower(name) == '1')
            && Find(r.cutq, Lower(name)).Some? && Find(r.cutq, Lower(name)).value.text == x
  {
    var n, bs := Lower(name), Rotated(s.cutq);
    var once := FilledNamed(bs, n, x, lmode, IsUpper(name));
    RotationShifts(s.cutq, '1');
    FindFilled(bs, n, x, lmode, IsUpper(name), '1');
    FindFilled(once, n, x, lmode, false, '1');
    FindFilled(bs, n, x, lmode, IsUpper(name), n);
    FindFilled(once, n, x, lmode, false, n);
  }

  datatype Numeric = NumNone | NumOpt | NumReq

  class Buffers {
    var cutq: seq<Buffer>
    var store: Buffer
    var dcbp: Default

    ghost predicate Valid()
      reads this
    {
      Distinct(cutq)
    }

    ghost function Now(): State
      reads this
    {
      State(cutq, store, dcbp)
    }

    constructor ()
      ensures Valid() && Now() == State([], Buffer('\0', [], 0, false), NoDefault)
    {
      cutq, store, dcbp := [], Buffer('\0', [], 0, false), NoDefault;
    }

    /** CBNAME: where the named buffer is on the list, or the list's length. */
    method Index(name: char) returns (i: nat)
      ensures i <= |cutq| && (i < |cutq| ==> cutq[i].name == name)
      ensures forall j :: 0 <= j < i ==> cutq[j].name != name
    {
      i := 0;
      while i < |cutq| && cutq[i].name != name
        invariant i <= |cutq|
        invariant forall j :: 0 <= j < i ==> cutq[j].name != name
      {
        i := i + 1;
      }
    }

    /** cb_rotate: rename in place, then drop the buffer that was '9'. */
    method Rotate()
      requires Valid()
      modifies `cutq
      ensures Valid() && cutq == Rotated(old(cutq))
    {
      RotatedDistinct(cutq);
      var i, del: nat := 0, |cutq|;
      ghost var bs := cutq;
      while i < |cutq|
        invariant i <= |cutq| == |bs|
        invariant forall j :: 0 <= j < i ==> cutq[j] == RenamedOne(bs[j])
        invariant forall j :: i <= j < |bs| ==> cutq[j] == bs[j]
        invariant del < i || del == |bs|
        invariant forall j :: 0 <= j < i ==> (bs[j].name == '9' <==> j == del)
      {
        if '1' <= cutq[i].name <= '8' {
          cutq := cutq[i := cutq[i].(name := cutq[i].name + 1 as char)];
        } else if cutq[i].name == '9' {
          del := i;
        }
        i := i + 1;
      }
      RotatedByIndex(bs, cutq, del);
      if del < |cutq| {
        cutq := cutq[..del] + cutq[del + 1..];
      }
    }

    /** The buffer put is to take: the default one, or the named one, if there is one. */
    method Select(namep: Option<char>) returns (b: Option<Buffer>)
      ensures b == match namep case None => DefaultBuffer(Now()) case Some(name) => Find(cutq, Lower(name))
    {
      if namep.None? && dcbp.NoDefault? {
        return None;
      }
      if namep.None? && dcbp.Unnamed? {
        return Some(store);
      }
      var name := if namep.None? then dcbp.name else Lower(namep.value);
      var i := Index(name);
      FindByIndex(cutq, name, i);
      return if i < |cutq| then Some(cutq[i]) else None;
    }

    /** cut_line, onto the end of the text of a pass. */
    static method CutLine(ed: Editor, lno: nat, fcno: nat, to: int) returns (p: Line)
      requires ed.Valid() && ed.Coherent() && 1 <= lno <= |ed.db|
      requires ed.db[lno - 1] == "" || fcno <= (if to == -1 then |ed.db[lno - 1]| else to) <= |ed.db[lno - 1]|
      modifies ed`cLno, ed`cLine
      ensures ed.Valid() && ed.Coherent()
      ensures p == Piece(ed.db[lno - 1], fcno, if to == -1 then |ed.db[lno - 1]| else to)
    {
      hide Editor.Valid, Editor.Coherent;
      var line := GetLine(ed, lno);
      p := "";
      if |line| != 0 {
        p := line[fcno..if to == -1 then |line| else to];
      }
    }

    /** One pass of the copy loop: the text the pass cuts, piece by piece. */
    static method CutPieces(ed: Editor, fm: Mark, tlno: nat, tcno: int, lmode: bool) returns (x: seq<Line>, len: nat)
      requires ed.Valid() && ed.Coherent() && CutOk(ed.db, fm.lno, fm.cno, tlno, tcno, lmode)
      modifies ed`cLno, ed`cLine
      ensures ed.Valid() && ed.Coherent()
      ensures x == Pieces(ed.db, fm.lno, fm.cno, tlno, tcno, lmode) && len == TotalLength(x)
    {
      hide Editor.Valid, Editor.Coherent, TotalLength;
      InRegion(ed.db, fm.lno, fm.cno, tlno, tcno, lmode);
      NoLength();
      if lmode {
        x, len := CutWhole(ed, fm.lno, tlno + 1, [], 0);
        assert [] + ed.db[fm.lno - 1..tlno] == x;
        return;
      }
      // The first line, from the column on.
      var p := CutLine(ed, fm.lno, fm.cno, if fm.lno != tlno then -1 else tcno + 1);
      LengthOne(p);
      // Whole lines in between.
      x, len := CutWhole(ed, fm.lno + 1, if tlno > fm.lno then tlno else fm.lno + 1, [p], |p|);
      // The last one, up to the column.
      if tlno != fm.lno {
        var q := CutLine(ed, tlno, 0, tcno + 1);
        LengthSnoc(x, q);
        x, len := x + [q], len + |q|;
      }
    }

    /** The loop over whole lines, from lno up to but not including stop. */
    static method CutWhole(ed: Editor, start: nat, stop: nat, x0: seq<Line>, len0: nat)
      returns (x: seq<Line>, len: nat)
      requires ed.Valid() && ed.Coherent() && 1 <= start <= stop <= |ed.db| + 1 && len0 == TotalLength(x0)
      modifies ed`cLno, ed`cLine
      ensures ed.Valid() && ed.Coherent()
      ensures x == x0 + ed.db[start - 1..stop - 1] && len == TotalLength(x)
    {
      hide Editor.Valid, Editor.Coherent, TotalLength;
      x, len := x0, len0;
      var lno := start;
      while lno < stop
        invariant start <= lno <= stop
        invariant ed.Valid() && ed.Coherent()
        invariant x == x0 + ed.db[start - 1..lno - 1] && len == TotalLength(x)
      {
        var p := CutLine(ed, lno, 0, -1);
        assert p == ed.db[lno - 1];
        LengthSnoc(x, p);
        x, len := x + [p], len + |p|;
        lno := lno + 1;
      }
    }

    /** Fill the named buffer, making it if it is new. */
    method FillNamed(name: char, x: seq<Line>, len: nat, lmode: bool, append: bool)
      requires Valid() && len == TotalLength(x)
      modifies `cutq, `dcbp
      ensures Valid() && cutq == FilledNamed(old(cutq), name, x, lmode, append)
      ensures dcbp == Named(name)
    {
      FilledDistinct(cutq, name, x, lmode, append);
      var i := Index(name);
      FilledByIndex(cutq, name, x, lmode, append, i);
      if i == |cutq| {
        cutq := [Buffer(name, x, len, lmode)] + cutq;
      } else {
        var b := cutq[i];
        assert [] + x == x;
        if !append {
          b := Buffer(b.name, [], 0, false);
        }
        cutq := cutq[i := Buffer(b.name, b.text + x, b.len + len, b.lmode || lmode)];
      }
      dcbp := Named(name);
    }

    method FillStore(x: seq<Line>, len: nat, lmode: bool)
      requires len == TotalLength(x)
      modifies `store, `dcbp
      ensures store == Filled(old(store), x, lmode, false) && dcbp == Unnamed
    {
      store := Buffer(store.name, x, len, lmode);
      dcbp := Unnamed;
    }

    /** cut. */
    method Cut(ed: Editor, namep: Option<char>, fm: Mark, tlno: nat, tcno: int, lmode: bool, num: Numeric)
      returns (err: bool)
      requires Valid() && ed.Valid() && ed.Coherent()
      requires fm.lno != OOBLNO && tlno != OOBLNO ==> CutOk(ed.db, fm.lno, fm.cno, tlno, tcno, lmode)
      modifies this, ed`cLno, ed`cLine
      ensures Valid() && ed.Valid() && ed.Coherent()
      ensures err <==> fm.lno == OOBLNO || tlno == OOBLNO
      ensures Now() == if err then old(Now())
                       else CutSpec(old(Now()), namep, num == NumReq || (num == NumOpt && (lmode || fm.lno != tlno)),
                                    Pieces(ed.db, fm.lno, fm.cno, tlno, tcno, lmode), lmode)
    {
      hide Editor.Valid, Editor.Coherent, TotalLength, Rotated, FilledNamed, Filled, Pieces, Distinct;
      if fm.lno == OOBLNO || tlno == OOBLNO {
        return true;
      }
      err := false;
      var numbered := num == NumReq || (num == NumOpt && (lmode || fm.lno != tlno));
      if numbered {
        Rotate();
      }
      var x, len := CutPieces(ed, fm, tlno, tcno, lmode);
      match namep
      case None =>
        if numbered {
          FillNamed('1', x, len, lmode, false);
        } else {
          FillStore(x, len, lmode);
        }
      case Some(c) =>
        var append, name := IsUpper(c), Lower(c);
        FillNamed(name, x, len, lmode, append);
        if numbered {
          x, len := CutPieces(ed, fm, tlno, tcno, lmode);
          FillNamed(name, x, len, lmode, false);
        } else if append {
          x, len := CutPieces(ed, fm, tlno, tcno, lmode);
          FillStore(x, len, lmode);
        }
    }
  }

  lemma {:induction false} LengthOne(p: Line)
    ensures TotalLength([p]) == |p|
  {
    LengthSnoc([], p);
    assert [] + [p] == [p];
  }

  lemma {:induction false} InRegion(t: Text, f: nat, fc: nat, l: nat, tc: int, lmode: bool)
    requires CutOk(t, f, fc, l, tc, lmode)
    ensures 1 <= f <= l <= |t|
    ensures !lmode ==> fc <= |t[f - 1]| && tc >= -1 && (t[l - 1] == "" || tc < |t[l - 1]|) && (f == l ==> fc <= tc + 1)
  {
  }

  lemma {:induction false} NoLength()
    ensures TotalLength([]) == 0
  {
  }

  lemma {:induction false} LengthSnoc(x: seq<Line>, p: Line)
    ensures TotalLength(x + [p]) == TotalLength(x) + |p|
  {
    assert (x + [p])[..|x|] == x;
  }

  lemma {:induction false} FilledByIndex(bs: seq<Buffer>, name: char, x: seq<Line>, lmode: bool, append: bool, i: nat)
    requires i <= |bs| && (i < |bs| ==> bs[i].name == name) && forall j :: 0 <= j < i ==> bs[j].name != name
    ensures FilledNamed(bs, name, x, lmode, append) ==
            if i == |bs| then [Buffer(name, x, TotalLength(x), lmode)] + bs
            else bs[i := Filled(bs[i], x, lmode, append)]
  {
    FindNamed(bs, name);
    if i < |bs| {
      ReplacedByIndex(bs, name, x, lmode, append, i);
    }
  }

  lemma {:induction false} ReplacedByIndex(bs: seq<Buffer>, name: char, x: seq<Line>, lmode: bool, append: bool, i: nat)
    requires i < |bs| && bs[i].name == name && forall j :: 0 <= j < i ==> bs[j].name != name
    ensures Replaced(bs, name, x, lmode, append) == bs[i := Filled(bs[i], x, lmode, append)]
  {
    if i > 0 {
      ReplacedByIndex(bs[1..], name, x, lmode, append, i - 1);
      assert [bs[0]] + bs[1..][i - 1 := Filled(bs[i], x, lmode, append)] == bs[i := Filled(bs[i], x, lmode, append)];
    }
  }

  function RenamedOne(b: Buffer): Buffer {
    if '1' <= b.name <= '8' then b.(name := b.name + 1 as char) else b
  }

  lemma {:induction false} RotatedByIndex(bs: seq<Buffer>, cs: seq<Buffer>, del: nat)
    requires |cs| == |bs| && del <= |bs|
    requires forall j :: 0 <= j < |bs| ==> cs[j] == RenamedOne(bs[j]) && (bs[j].name == '9' <==> j == del)
    ensures Rotated(bs) == if del < |bs| then cs[..del] + cs[del + 1..] else cs
  {
    if bs != [] {
      if del == 0 {
        AllRenamed(bs[1..], cs[1..]);
      } else {
        RotatedByIndex(bs[1..], cs[1..], del - 1);
        assert del < |bs| ==> cs[..del] + cs[del + 1..] == [cs[0]] + (cs[1..][..del - 1] + cs[1..][del..]);
      }
    }
  }

  lemma {:induction false} AllRenamed(bs: seq<Buffer>, cs: seq<Buffer>)
    requires |cs| == |bs|
    requires forall j :: 0 <= j < |bs| ==> cs[j] == RenamedOne(bs[j]) && bs[j].name != '9'
    ensures Rotated(bs) == cs
  {
    if bs != [] {
      AllRenamed(bs[1..], cs[1..]);
    }
  }
}
