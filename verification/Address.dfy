/** ex/ex.c, ex_range: the line addresses in front of an ex command. */
module Address {
  import opened Store

  /** ex_line on some text: an address and how much text it takes, no address, or an error. */
  datatype LineResult = Found(m: Mark, used: nat) | NotAddress | Bad

  /** What the range parser asks of the rest of the editor: single addresses, relative to the current
      position; the last line; and whether this is a vi address search. */
  datatype Context = Context(line: (string, Mark) -> LineResult, last: nat, viSearch: bool) {
    /** An address takes at least one character. */
    ghost predicate Sane() {
      forall t: string, cur: Mark :: line(t, cur).Found? ==> 0 < line(t, cur).used <= |t|
    }

    function Whole(): seq<Mark> {
      [Mark(if last == 0 then 0 else 1, 0), Mark(last, 0)]
    }
  }

  /** All the addresses, the current position they leave and the text after them; or an error, and the current
      position it leaves. */
  datatype Listed = Listed(addrs: seq<Mark>, cur: Mark, rest: string) | Failed(cur: Mark)

  predicate Delimiter(c: char, viSearch: bool) {
    c == ';' || (c == ',' && !viSearch)
  }

  // ----- the reference: a list of any length -----------------------------------------------

  function Prepend(addrs: seq<Mark>, l: Listed): Listed {
    match l
    case Listed(more, cur, rest) => Listed(addrs + more, cur, rest)
    case Failed(cur) => Failed(cur)
  }

  /** Before an address: an omitted one stands for the current line, but for the only one. */
  ghost function AtSlot(c: Context, t: string, cur: Mark, first: bool): Listed
    decreases |t|, 1
  {
    if t == "" then Listed(if first || c.viSearch then [] else [cur], cur, t)
    else if IsBlank(t[0]) then AtSlot(c, t[1..], cur, first)
    else if Delimiter(t[0], c.viSearch) then Closed(c, t, cur, [cur])
    else if t[0] == '%' && !c.viSearch then AfterSlot(c, t[1..], cur, c.Whole())
    else if (t[0] == '%' || t[0] == ',') && c.viSearch then Listed([], cur, t)
    else
      match c.line(t, cur)
      case Bad => Failed(cur)
      case NotAddress => Listed(if first || c.viSearch then [] else [cur], cur, t)
      case Found(m, used) => if 0 < used <= |t| then AfterSlot(c, t[used..], cur, [m]) else Failed(cur)
  }

  /** After an address: a delimiter or the command. */
  ghost function AfterSlot(c: Context, t: string, cur: Mark, addrs: seq<Mark>): Listed
    requires addrs != []
    decreases |t|, 1
  {
    if t == "" then Listed(addrs, cur, t)
    else if IsBlank(t[0]) then AfterSlot(c, t[1..], cur, addrs)
    else if Delimiter(t[0], c.viSearch) then Closed(c, t, cur, addrs)
    else if t[0] == '%' && !c.viSearch then Failed(cur)
    else if (t[0] == '%' || t[0] == ',') && c.viSearch then Listed(addrs, cur, t)
    else if c.line(t, cur).NotAddress? then Listed(addrs, cur, t)
    else Failed(cur)
  }

  /** A delimiter; a semicolon makes the last address the current line. */
  ghost function Closed(c: Context, t: string, cur: Mark, addrs: seq<Mark>): Listed
    requires t != "" && addrs != []
    decreases |t|, 0
  {
    Prepend(addrs, AtSlot(c, t[1..], if t[0] == ';' then addrs[|addrs| - 1] else cur, false))
  }

  /** What is kept of a list of addresses. */
  function LastTwo(addrs: seq<Mark>): seq<Mark> {
    if |addrs| <= 2 then addrs else addrs[|addrs| - 2..]
  }

  // ----- the list a command line spells ----------------------------------------------------------

  datatype Slot = Omitted | Written(text: string, m: Mark) | Percent

  /** Addresses and the delimiters between them, with the blanks around each address. */
  datatype Spelling =
    | Last(lead: string, slot: Slot, trail: string)
    | More(lead: string, slot: Slot, trail: string, delim: char, next: Spelling)

  function SlotText(s: Slot): string {
    match s
    case Omitted => ""
    case Written(text, _) => text
    case Percent => "%"
  }

  /** The list as it is written, with the command behind it. */
  function Line(s: Spelling, cmd: string): string
    decreases s, 1
  {
    s.lead + (SlotText(s.slot) + Behind(s, cmd))
  }

  /** What stands behind the first address. */
  function Behind(s: Spelling, cmd: string): string
    decreases s, 0
  {
    match s
    case Last(_, _, trail) => trail + cmd
    case More(_, _, trail, delim, next) => trail + ([delim] + Line(next, cmd))
  }

  /** What an address stands for where the current position is cur. */
  function Meaning(c: Context, s: Slot, cur: Mark): (v: seq<Mark>)
    ensures v != []
    ensures s.Percent? ==> v == if c.last == 0 then [Mark(0, 0), Mark(0, 0)] else [Mark(1, 0), Mark(c.last, 0)]
  {
    match s
    case Omitted => [cur]
    case Written(_, m) => [m]
    case Percent => c.Whole()
  }

  function Values(c: Context, s: Spelling, cur: Mark, first: bool): seq<Mark> {
    match s
    case Last(_, slot, _) => if slot.Omitted? && (first || c.viSearch) then [] else Meaning(c, slot, cur)
    case More(_, slot, _, delim, next) =>
      Meaning(c, slot, cur) + Values(c, next, CurrentAfter(c, slot, delim, cur), false)
  }

  function CurrentAfter(c: Context, slot: Slot, delim: char, cur: Mark): Mark {
    var v := Meaning(c, slot, cur);
    if delim == ';' then v[|v| - 1] else cur
  }

  function FinalCurrent(c: Context, s: Spelling, cur: Mark): Mark {
    match s
    case Last(_, _, _) => cur
    case More(_, slot, _, delim, next) => FinalCurrent(c, next, CurrentAfter(c, slot, delim, cur))
  }

  predicate AllBlank(s: string) {
    forall i :: 0 <= i < |s| ==> IsBlank(s[i])
  }

  predicate MayStart(ch: char) {
    !IsBlank(ch) && !Delimiter(ch, false) && ch != '%'
  }

  /** With the current position at cur, ex_line takes the written address for what it is said to be. */
  predicate ReadsAs(c: Context, slot: Slot, rest: string, cur: Mark) {
    match slot
    case Omitted => true
    case Written(text, m) => text != "" && MayStart(text[0]) && c.line(text + rest, cur) == Found(m, |text|)
    case Percent => !c.viSearch
  }

  /** The addresses end here. */
  predicate Command(c: Context, cmd: string, cur: Mark) {
    || cmd == ""
    || (if MayStart(cmd[0]) then c.line(cmd, cur).NotAddress? else c.viSearch && cmd[0] in ['%', ','])
  }

  /** Each address is one where the addresses before it have left the current position. */
  predicate WellSpelled(c: Context, s: Spelling, cmd: string, cur: Mark)
    decreases s, 1
  {
    AllBlank(s.lead) && ReadsAs(c, s.slot, Behind(s, cmd), cur) && GoesOn(c, s, cmd, cur)
  }

  predicate GoesOn(c: Context, s: Spelling, cmd: string, cur: Mark)
    decreases s, 0
  {
    && AllBlank(s.trail)
    && match s
       case Last(_, _, _) => Command(c, cmd, cur)
       case More(_, slot, _, delim, next) =>
         Delimiter(delim, c.viSearch) && WellSpelled(c, next, cmd, CurrentAfter(c, slot, delim, cur))
  }

  lemma {:induction false} PrependTwice(a: seq<Mark>, b: seq<Mark>, l: Listed)
    ensures Prepend(a, Prepend(b, l)) == Prepend(a + b, l)
  {
    if l.Listed? { assert a + (b + l.addrs) == (a + b) + l.addrs; }
  }

  lemma {:induction false} PrependNothing(l: Listed)
    ensures Prepend([], l) == l
  {
    if l.Listed? { assert [] + l.addrs == l.addrs; }
  }

  lemma {:induction false} BlanksAt(c: Context, b: string, t: string, cur: Mark, first: bool)
    requires AllBlank(b)
    ensures AtSlot(c, b + t, cur, first) == AtSlot(c, t, cur, first)
  {
    if b == "" {
      assert b + t == t;
    } else {
      assert (b + t)[0] == b[0] && (b + t)[1..] == b[1..] + t;
      BlanksAt(c, b[1..], t, cur, first);
    }
  }

  lemma {:induction false} BlanksAfter(c: Context, b: string, t: string, cur: Mark, addrs: seq<Mark>)
    requires AllBlank(b) && addrs != []
    ensures AfterSlot(c, b + t, cur, addrs) == AfterSlot(c, t, cur, addrs)
  {
    if b == "" {
      assert b + t == t;
    } else {
      assert (b + t)[0] == b[0] && (b + t)[1..] == b[1..] + t;
      BlanksAfter(c, b[1..], t, cur, addrs);
    }
  }

  lemma {:induction false} SlotRead(c: Context, slot: Slot, rest: string, cur: Mark, first: bool)
    requires ReadsAs(c, slot, rest, cur) && !slot.Omitted?
    ensures AtSlot(c, SlotText(slot) + rest, cur, first) == AfterSlot(c, rest, cur, Meaning(c, slot, cur))
  {
    hide AfterSlot, Closed;
    var t := SlotText(slot) + rest;
    match slot
    case Written(text, m) =>
      assert t[0] == text[0] && t[|text|..] == rest;
    case Percent =>
      assert t[0] == '%' && t[1..] == rest;
  }

  /** The first address of a list, with the blanks around it. */
  lemma {:induction false} FirstRead(c: Context, s: Spelling, rest: string, cmd: string, cur: Mark, first: bool)
    requires AllBlank(s.lead) && AllBlank(s.trail) && Behind(s, cmd) == s.trail + rest
    requires ReadsAs(c, s.slot, Behind(s, cmd), cur)
    ensures AtSlot(c, Line(s, cmd), cur, first) ==
            if s.slot.Omitted? then AtSlot(c, rest, cur, first) else AfterSlot(c, rest, cur, Meaning(c, s.slot, cur))
  {
    hide AtSlot, AfterSlot, Behind, Meaning, ReadsAs, AllBlank;
    BlanksAt(c, s.lead, SlotText(s.slot) + Behind(s, cmd), cur, first);
    if s.slot.Omitted? {
      assert SlotText(s.slot) + Behind(s, cmd) == s.trail + rest;
      BlanksAt(c, s.trail, rest, cur, first);
    } else {
      SlotRead(c, s.slot, Behind(s, cmd), cur, first);
      BlanksAfter(c, s.trail, rest, cur, Meaning(c, s.slot, cur));
    }
  }

  /** The reference reads off exactly the list of addresses that was written, an omitted address being
      the current line as the semicolons before it have set it, and leaves the command. */
  lemma {:induction false} SpelledList(c: Context, s: Spelling, cmd: string, cur: Mark, first: bool)
    requires WellSpelled(c, s, cmd, cur)
    ensures AtSlot(c, Line(s, cmd), cur, first) == Listed(Values(c, s, cur, first), FinalCurrent(c, s, cur), cmd)
  {
    hide ReadsAs, AllBlank, Line;
    match s
    case Last(_, _, _) =>
      FirstRead(c, s, cmd, cmd, cur, first);
    case More(_, slot, _, delim, next) =>
      var rest := [delim] + Line(next, cmd);
      assert rest[0] == delim && rest[1..] == Line(next, cmd);
      FirstRead(c, s, rest, cmd, cur, first);
      assert AtSlot(c, Line(s, cmd), cur, first) == Closed(c, rest, cur, Meaning(c, slot, cur));
      SpelledList(c, next, cmd, CurrentAfter(c, slot, delim, cur), false);
  }

  lemma {:induction false} BlankBefore(c: Context, ch: char, s: Spelling, cmd: string, cur: Mark)
    requires IsBlank(ch) && WellSpelled(c, s, cmd, cur)
    ensures var r := s.(lead := [ch] + s.lead); Line(r, cmd) == [ch] + Line(s, cmd) && WellSpelled(c, r, cmd, cur)
  {
    hide ReadsAs, IsBlank;
    var r := s.(lead := [ch] + s.lead);
    assert Behind(r, cmd) == Behind(s, cmd);
  }

  lemma {:induction false} BlankBehind(c: Context, ch: char, s: Spelling, cmd: string, cur: Mark)
    requires IsBlank(ch) && GoesOn(c, s, cmd, cur)
    ensures var r := s.(trail := [ch] + s.trail); Behind(r, cmd) == [ch] + Behind(s, cmd) && GoesOn(c, r, cmd, cur)
  {
    hide ReadsAs, IsBlank, Line, WellSpelled;
  }

  lemma {:induction false} DelimiterBehind(c: Context, slot: Slot, delim: char, next: Spelling, cmd: string, cur: Mark)
    requires Delimiter(delim, c.viSearch) && WellSpelled(c, next, cmd, CurrentAfter(c, slot, delim, cur))
    ensures var s := More("", slot, "", delim, next);
            Behind(s, cmd) == [delim] + Line(next, cmd) && GoesOn(c, s, cmd, cur)
  {
    hide Line, WellSpelled;
    assert "" + ([delim] + Line(next, cmd)) == [delim] + Line(next, cmd);
  }

  lemma {:induction false} NoBlankBefore(c: Context, s: Spelling, cmd: string, cur: Mark)
    requires s.lead == "" && ReadsAs(c, s.slot, Behind(s, cmd), cur) && GoesOn(c, s, cmd, cur)
    ensures Line(s, cmd) == SlotText(s.slot) + Behind(s, cmd) && WellSpelled(c, s, cmd, cur)
  {
    hide Behind, GoesOn, ReadsAs, SlotText;
  }

  /** What is read as a list is written as one. */
  lemma {:induction false} SpellingAt(c: Context, t: string, cur: Mark, first: bool) returns (s: Spelling)
    requires AtSlot(c, t, cur, first).Listed?
    ensures var cmd := AtSlot(c, t, cur, first).rest;
            t == Line(s, cmd) && WellSpelled(c, s, cmd, cur)
    decreases |t|, 1
  {
    hide Line, Behind, WellSpelled, AfterSlot;
    var cmd := AtSlot(c, t, cur, first).rest;
    if t != "" && IsBlank(t[0]) {
      s := SpellingAt(c, t[1..], cur, first);
      BlankBefore(c, t[0], s, cmd, cur);
      s := s.(lead := [t[0]] + s.lead);
    } else {
      if t != "" && Delimiter(t[0], c.viSearch) {
        s := SpellingAt(c, t[1..], CurrentAfter(c, Omitted, t[0], cur), false);
        DelimiterBehind(c, Omitted, t[0], s, cmd, cur);
        s := More("", Omitted, "", t[0], s);
      } else if t != "" && t[0] == '%' && !c.viSearch {
        s := SpellingBehind(c, t[1..], cur, Percent);
      } else if t != "" && MayStart(t[0]) && c.line(t, cur).Found? {
        var l := c.line(t, cur);
        assert t == t[..l.used] + t[l.used..];
        s := SpellingBehind(c, t[l.used..], cur, Written(t[..l.used], l.m));
      } else {
        s := Last("", Omitted, "");
        CommandBehind(c, Omitted, cmd, cur);
      }
      NoBlankBefore(c, s, cmd, cur);
    }
  }

  lemma {:induction false} CommandBehind(c: Context, slot: Slot, cmd: string, cur: Mark)
    requires Command(c, cmd, cur)
    ensures var s := Last("", slot, ""); Behind(s, cmd) == cmd && GoesOn(c, s, cmd, cur)
  {
    assert "" + cmd == cmd;
  }

  lemma {:induction false} SpellingBehind(c: Context, t: string, cur: Mark, slot: Slot) returns (s: Spelling)
    requires AfterSlot(c, t, cur, Meaning(c, slot, cur)).Listed?
    ensures var cmd := AfterSlot(c, t, cur, Meaning(c, slot, cur)).rest;
            t == Behind(s, cmd) && GoesOn(c, s, cmd, cur) && s.lead == "" && s.slot == slot
    decreases |t|, 0
  {
    hide Line, Behind, WellSpelled, GoesOn, AtSlot;
    var cmd := AfterSlot(c, t, cur, Meaning(c, slot, cur)).rest;
    if t != "" && IsBlank(t[0]) {
      s := SpellingBehind(c, t[1..], cur, slot);
      BlankBehind(c, t[0], s, cmd, cur);
      s := s.(trail := [t[0]] + s.trail);
    } else if t != "" && Delimiter(t[0], c.viSearch) {
      s := SpellingAt(c, t[1..], CurrentAfter(c, slot, t[0], cur), false);
      DelimiterBehind(c, slot, t[0], s, cmd, cur);
      s := More("", slot, "", t[0], s);
    } else {
      s := Last("", slot, "");
      CommandBehind(c, slot, cmd, cur);
    }
  }

  /** A text is read as a list if and only if it spells one. */
  lemma {:induction false} ListedIsSpelled(c: Context, t: string, cur: Mark, first: bool)
    ensures AtSlot(c, t, cur, first).Listed? <==>
            exists s: Spelling, cmd: string :: t == Line(s, cmd) && WellSpelled(c, s, cmd, cur)
  {
    hide AtSlot, WellSpelled, Line;
    if AtSlot(c, t, cur, first).Listed? {
      var s := SpellingAt(c, t, cur, first);
    }
    forall s: Spelling, cmd: string | t == Line(s, cmd) && WellSpelled(c, s, cmd, cur)
      ensures AtSlot(c, t, cur, first).Listed?
    {
      SpelledList(c, s, cmd, cur, first);
    }
  }

  /** What stands behind an address or a list is a command: not a blank, a delimiter, a percent sign or an address. */
  predicate CommandText(c: Context, cmd: string, cur: Mark) {
    cmd == "" || (cmd[0] !in [' ', '\t', ',', ';', '%'] && c.line(cmd, cur).NotAddress?)
  }

  /** A percent sign is every line of the file, and 0,0 in an empty one. */
  lemma {:induction false} PercentIsFile(c: Context, cmd: string, cur: Mark)
    requires !c.viSearch && CommandText(c, cmd, cur)
    ensures var whole := if c.last == 0 then [Mark(0, 0), Mark(0, 0)] else [Mark(1, 0), Mark(c.last, 0)];
            && AtSlot(c, "%" + cmd, cur, true) == Listed(whole, cur, cmd)
            && InOrder(c, AtSlot(c, "%" + cmd, cur, true)) == Address(whole, cur, cmd)
  {
    hide AtSlot, Values, FinalCurrent, WellSpelled;
    var s := Last("", Percent, "");
    OneSlot(c, Percent, cmd, cur);
    SpelledList(c, s, cmd, cur, true);
  }

  lemma {:induction false} OneSlot(c: Context, slot: Slot, cmd: string, cur: Mark)
    requires ReadsAs(c, slot, cmd, cur) && CommandText(c, cmd, cur)
    ensures var s := Last("", slot, "");
            && Behind(s, cmd) == cmd && Line(s, cmd) == SlotText(slot) + cmd && WellSpelled(c, s, cmd, cur)
            && (forall first :: Values(c, s, cur, first) ==
                  if slot.Omitted? && (first || c.viSearch) then [] else Meaning(c, slot, cur))
            && FinalCurrent(c, s, cur) == cur
  {
    hide ReadsAs, SlotText, Meaning;
    assert "" + cmd == cmd && "" + (SlotText(slot) + cmd) == SlotText(slot) + cmd;
  }

  /** Two addresses: x is read at the current line, and so is y behind a comma; behind a semicolon y is read at the
      line of x, which is then the current one. Nothing before the delimiter, or behind it, is that current line. */
  lemma {:induction false} TwoAddresses(c: Context, x: string, a: Mark, d: char, y: string, b: Mark, cmd: string,
                                        cur: Mark)
    requires d == ';' || (d == ',' && !c.viSearch)
    requires x != "" ==> x[0] !in [' ', '\t', ',', ';', '%'] && c.line(x + ([d] + (y + cmd)), cur) == Found(a, |x|)
    requires x == "" ==> a == cur
    requires var now := if d == ';' then a else cur;
             && (y != "" ==> y[0] !in [' ', '\t', ',', ';', '%'] && c.line(y + cmd, now) == Found(b, |y|))
             && (y == "" ==> b == now) && CommandText(c, cmd, now)
    ensures AtSlot(c, x + ([d] + (y + cmd)), cur, true) ==
            Listed(if y == "" && c.viSearch then [a] else [a, b], if d == ';' then a else cur, cmd)
  {
    hide AtSlot, Values, FinalCurrent, WellSpelled;
    var sx, sy := if x == "" then Omitted else Written(x, a), if y == "" then Omitted else Written(y, b);
    var s := More("", sx, "", d, Last("", sy, ""));
    TwoSlots(c, x, a, d, y, b, cmd, cur);
    SpelledList(c, s, cmd, cur, true);
  }

  lemma {:induction false} TwoSlots(c: Context, x: string, a: Mark, d: char, y: string, b: Mark, cmd: string,
                                    cur: Mark)
    requires d == ';' || (d == ',' && !c.viSearch)
    requires x != "" ==> x[0] !in [' ', '\t', ',', ';', '%'] && c.line(x + ([d] + (y + cmd)), cur) == Found(a, |x|)
    requires x == "" ==> a == cur
    requires var now := if d == ';' then a else cur;
             && (y != "" ==> y[0] !in [' ', '\t', ',', ';', '%'] && c.line(y + cmd, now) == Found(b, |y|))
             && (y == "" ==> b == now) && CommandText(c, cmd, now)
    ensures var sx, sy := if x == "" then Omitted else Written(x, a), if y == "" then Omitted else Written(y, b);
            var s := More("", sx, "", d, Last("", sy, ""));
            && Line(s, cmd) == x + ([d] + (y + cmd)) && WellSpelled(c, s, cmd, cur)
            && Values(c, s, cur, true) == (if y == "" && c.viSearch then [a] else [a, b])
            && FinalCurrent(c, s, cur) == if d == ';' then a else cur
  {
    hide Line, Behind, WellSpelled, GoesOn, Values, FinalCurrent, Command, CommandText;
    var sx, sy := if x == "" then Omitted else Written(x, a), if y == "" then Omitted else Written(y, b);
    var next, now := Last("", sy, ""), if d == ';' then a else cur;
    OneSlot(c, sy, cmd, now);
    MoreSlots(c, sx, d, next, y + cmd, cmd, cur);
  }

  lemma {:induction false} MoreSlots(c: Context, slot: Slot, d: char, next: Spelling, behind: string, cmd: string,
                                     cur: Mark)
    requires Line(next, cmd) == behind && Delimiter(d, c.viSearch)
    requires WellSpelled(c, next, cmd, CurrentAfter(c, slot, d, cur))
    requires ReadsAs(c, slot, [d] + behind, cur)
    ensures var s, now := More("", slot, "", d, next), CurrentAfter(c, slot, d, cur);
            && Line(s, cmd) == SlotText(slot) + ([d] + behind) && WellSpelled(c, s, cmd, cur)
            && Values(c, s, cur, true) == Meaning(c, slot, cur) + Values(c, next, now, false)
            && FinalCurrent(c, s, cur) == FinalCurrent(c, next, now)
  {
    hide ReadsAs, SlotText, Meaning, Line, WellSpelled, CurrentAfter;
    var s := More("", slot, "", d, next);
    assert "" + ([d] + behind) == [d] + behind;
    NoBlankBefore(c, s, cmd, cur);
  }

  // ----- the code -----------------------------------------------------------------------------------

  datatype Addr = ADDR_FOUND | ADDR_NEED | ADDR_NONE

  /** The addresses kept, the current position and the text after them; or an error, and the current position. */
  datatype Address = Address(addrs: seq<Mark>, cur: Mark, rest: string) | Error(cur: Mark)

  /** The two address cells as a sequence. */
  function Kept(addrcnt: nat, addr1: Mark, addr2: Mark): seq<Mark> {
    if addrcnt == 0 then [] else if addrcnt == 1 then [addr1] else [addr1, addr2]
  }

  /** Two addresses that are kept are in order. */
  function InOrder(c: Context, l: Listed): Address {
    match l
    case Failed(cur) => Error(cur)
    case Listed(addrs, cur, rest) =>
      var kept := LastTwo(addrs);
      if !c.viSearch && |kept| == 2 && kept[1].lno < kept[0].lno then Error(cur) else Address(kept, cur, rest)
  }

  /** The switches on addrcnt: one more address. */
  method KeepOne(addrcnt: nat, addr1: Mark, addr2: Mark, m: Mark, ghost addrs: seq<Mark>)
    returns (cnt: nat, a1: Mark, a2: Mark)
    requires addrcnt <= 2 && Kept(addrcnt, addr1, addr2) == LastTwo(addrs)
    ensures 1 <= cnt <= 2 && Kept(cnt, a1, a2) == LastTwo(addrs + [m])
    ensures Kept(cnt, a1, a2)[cnt - 1] == m
  {
    cnt, a1, a2 := addrcnt, addr1, addr2;
    if addrcnt == 0 {
      a1 := m;
      cnt := 1;
    } else {
      if addrcnt == 2 { a1 := a2; }
      a2 := m;
      cnt := 2;
    }
  }

  /** The reference, from where the code stands: vals is the address just read, if one was. */
  ghost function From(c: Context, t: string, cur: Mark, addr: Addr, vals: seq<Mark>): Listed {
    if addr == ADDR_FOUND then if vals != [] then AfterSlot(c, t, cur, vals) else Failed(cur)
    else AtSlot(c, t, cur, addr == ADDR_NONE)
  }

  /** What the reference makes of the next character of the text. */
  ghost function Turn(c: Context, t: string, cur: Mark, addr: Addr, vals: seq<Mark>): Listed
    requires t != ""
  {
    var rest, ch := t[1..], t[0];
    if IsBlank(ch) then From(c, rest, cur, addr, vals)
    else if Delimiter(ch, c.viSearch) then
      var v := if addr == ADDR_FOUND && vals != [] then vals else [cur];
      Prepend(v, From(c, rest, if ch == ';' then v[|v| - 1] else cur, ADDR_NEED, []))
    else if ch == '%' && !c.viSearch then
      if addr == ADDR_FOUND then Failed(cur) else From(c, rest, cur, ADDR_FOUND, c.Whole())
    else if ch == '%' || ch == ',' then Listed(vals, cur, t)
    else
      match c.line(t, cur)
      case Bad => Failed(cur)
      case NotAddress => Ended(c, t, cur, addr, vals)
      case Found(m, used) =>
        if addr == ADDR_FOUND || used > |t| then Failed(cur) else From(c, t[used..], cur, ADDR_FOUND, [m])
  }

  lemma {:induction false} Step(c: Context, t: string, cur: Mark, addr: Addr, vals: seq<Mark>)
    requires t != "" && (addr == ADDR_FOUND <==> vals != []) && c.Sane()
    ensures From(c, t, cur, addr, vals) == Turn(c, t, cur, addr, vals)
  {
    hide Prepend;
    assert c.line(t, cur).Found? ==> 0 < c.line(t, cur).used <= |t|;
    if addr == ADDR_FOUND {
      StepAfter(c, t, cur, vals);
    } else {
      StepAt(c, t, cur, addr);
    }
  }

  lemma {:induction false} StepAfter(c: Context, t: string, cur: Mark, vals: seq<Mark>)
    requires t != "" && vals != [] && c.Sane()
    ensures AfterSlot(c, t, cur, vals) == Turn(c, t, cur, ADDR_FOUND, vals)
  {
    hide Prepend;
  }

  lemma {:induction false} StepAt(c: Context, t: string, cur: Mark, addr: Addr)
    requires t != "" && addr != ADDR_FOUND && c.Sane()
    ensures AtSlot(c, t, cur, addr == ADDR_NONE) == Turn(c, t, cur, addr, [])
  {
    hide Prepend;
  }

  /** Where the text ends or the command begins. */
  ghost function Ended(c: Context, t: string, cur: Mark, addr: Addr, vals: seq<Mark>): Listed {
    Listed(if addr == ADDR_NEED && !c.viSearch then [cur] else vals, cur, t)
  }

  lemma {:induction false} KeepWhole(c: Context, addrs: seq<Mark>)
    ensures LastTwo(addrs + c.Whole()) == c.Whole()
  {
  }

  lemma {:induction false} NothingKept()
    ensures LastTwo([] + []) == []
  {
  }

  lemma {:induction false} Nothing(addrs: seq<Mark>)
    ensures addrs + [] == addrs
  {
  }

  /** ex_range: two cells and one pass over the text give the last two of the list. */
  method ExRange(c: Context, text: string, cur0: Mark) returns (r: Address)
    requires c.Sane()
    ensures r == InOrder(c, AtSlot(c, text, cur0, true))
    ensures text != "" && text[0] == '%' && !c.viSearch && CommandText(c, text[1..], cur0) ==>
              r == Address([Mark(if c.last == 0 then 0 else 1, 0), Mark(c.last, 0)], cur0, text[1..])
  {
    hide LastTwo, From, AtSlot, AfterSlot, Kept, CommandText;
    PercentMeans(c, text, cur0);
    var addr, addrcnt: nat, addr1, addr2, cur, t := ADDR_NONE, 0, cur0, cur0, cur0, text;
    ghost var closed: seq<Mark>, vals: seq<Mark> := [], [];
    ghost var full := AtSlot(c, text, cur0, true);
    StartsAt(c, text, cur0, addr1, addr2);
    NothingKept();
    while t != ""
      invariant addrcnt <= 2 && Kept(addrcnt, addr1, addr2) == LastTwo(closed + vals)
      invariant addr == ADDR_FOUND <==> vals != []
      invariant full == Prepend(closed, From(c, t, cur, addr, vals))
      decreases |t|
    {
      Step(c, t, cur, addr, vals);
      Nothing(closed);
      var ch := t[0];
      if ch == '%' {
        if c.viSearch {
          EndsAt(c, t, cur, addr, vals, closed, full);
          return Address(Kept(addrcnt, addr1, addr2), cur, t);
        }
        if addr == ADDR_FOUND { return Error(cur); }
        addr1, addr2 := Mark(if c.last == 0 then 0 else 1, 0), Mark(c.last, 0);
        addrcnt := 2;
        KeepWhole(c, closed);
        TwoCells(addr1, addr2);
        vals := c.Whole();
        addr := ADDR_FOUND;
        t := t[1..];
      } else if ch == ',' || ch == ';' {
        if ch == ',' && c.viSearch {
          EndsAt(c, t, cur, addr, vals, closed, full);
          return Address(Kept(addrcnt, addr1, addr2), cur, t);
        }
        if addr != ADDR_FOUND {
          addrcnt, addr1, addr2 := KeepOne(addrcnt, addr1, addr2, cur, closed);
          vals := [cur];
        }
        CellsLast(addrcnt, addr1, addr2, closed, vals);
        PrependTwice(closed, vals, From(c, t[1..], if ch == ';' then vals[|vals| - 1] else cur, ADDR_NEED, []));
        if ch == ';' { cur := if addrcnt == 1 then addr1 else addr2; }
        addr := ADDR_NEED;
        closed, vals := closed + vals, [];
        Nothing(closed);
        t := t[1..];
      } else if IsBlank(ch) {
        t := t[1..];
      } else {
        var l := c.line(t, cur);
        if l.Bad? { return Error(cur); }
        if l.NotAddress? {
          break;
        }
        if addr == ADDR_FOUND { return Error(cur); }
        addrcnt, addr1, addr2 := KeepOne(addrcnt, addr1, addr2, l.m, closed);
        vals := [l.m];
        addr := ADDR_FOUND;
        t := t[l.used..];
      }
    }
    StepEnd(c, t, cur, addr, vals);
    Nothing(closed);
    if !c.viSearch && addr == ADDR_NEED {
      addrcnt, addr1, addr2 := KeepOne(addrcnt, addr1, addr2, cur, closed);
      vals := [cur];
    }
    assert full == Listed(closed + vals, cur, t);
    KeptCells(addrcnt, addr1, addr2);
    if !c.viSearch && addrcnt == 2 && addr2.lno < addr1.lno { return Error(cur); }
    return Address(Kept(addrcnt, addr1, addr2), cur, t);
  }

  lemma {:induction false} PercentMeans(c: Context, text: string, cur: Mark)
    ensures text != "" && text[0] == '%' && !c.viSearch && CommandText(c, text[1..], cur) ==>
              InOrder(c, AtSlot(c, text, cur, true)) ==
              Address([Mark(if c.last == 0 then 0 else 1, 0), Mark(c.last, 0)], cur, text[1..])
  {
    hide AtSlot, InOrder;
    if text != "" && text[0] == '%' && !c.viSearch && CommandText(c, text[1..], cur) {
      PercentIsFile(c, text[1..], cur);
      assert "%" + text[1..] == text;
    }
  }

  lemma {:induction false} StartsAt(c: Context, t: string, cur: Mark, a1: Mark, a2: Mark)
    ensures Prepend([], From(c, t, cur, ADDR_NONE, [])) == AtSlot(c, t, cur, true)
    ensures Kept(0, a1, a2) == []
  {
    hide AtSlot;
    PrependNothing(AtSlot(c, t, cur, true));
  }

  lemma {:induction false} StepEnd(c: Context, t: string, cur: Mark, addr: Addr, vals: seq<Mark>)
    requires (addr == ADDR_FOUND <==> vals != []) && c.Sane()
    requires t != "" ==> From(c, t, cur, addr, vals) == Ended(c, t, cur, addr, vals)
    ensures From(c, t, cur, addr, vals) == Ended(c, t, cur, addr, vals)
  {
  }

  lemma {:induction false} EndsAt(c: Context, t: string, cur: Mark, addr: Addr, vals: seq<Mark>, closed: seq<Mark>, full: Listed)
    requires full == Prepend(closed, From(c, t, cur, addr, vals)) && From(c, t, cur, addr, vals) == Listed(vals, cur, t)
    ensures full == Listed(closed + vals, cur, t)
  {
  }

  lemma {:induction false} TwoCells(a1: Mark, a2: Mark)
    ensures Kept(2, a1, a2) == [a1, a2]
  {
  }

  lemma {:induction false} KeptCells(addrcnt: nat, a1: Mark, a2: Mark)
    requires addrcnt <= 2
    ensures |Kept(addrcnt, a1, a2)| == addrcnt && (addrcnt == 2 ==> Kept(addrcnt, a1, a2) == [a1, a2])
  {
  }

  lemma {:induction false} CellsLast(addrcnt: nat, a1: Mark, a2: Mark, closed: seq<Mark>, vals: seq<Mark>)
    requires addrcnt <= 2 && vals != [] && Kept(addrcnt, a1, a2) == LastTwo(closed + vals)
    ensures (if addrcnt == 1 then a1 else a2) == vals[|vals| - 1]
  {
    var all := closed + vals;
    assert all[|all| - 1] == vals[|vals| - 1];
    assert LastTwo(all)[|LastTwo(all)| - 1] == all[|all| - 1];
  }

  /** So a written list of addresses gives its last two values, in order, or an error. */
  lemma {:induction false} SpelledRange(c: Context, s: Spelling, cmd: string, cur: Mark)
    requires WellSpelled(c, s, cmd, cur)
    ensures var v, r := Values(c, s, cur, true), InOrder(c, AtSlot(c, Line(s, cmd), cur, true));
            && r.cur == FinalCurrent(c, s, cur)
            && (r.Error? <==> !c.viSearch && |v| >= 2 && v[|v| - 1].lno < v[|v| - 2].lno)
            && (!r.Error? ==> r.addrs == (if |v| < 2 then v else [v[|v| - 2], v[|v| - 1]]) && r.rest == cmd)
  {
    hide Values, AtSlot, Line, WellSpelled;
    SpelledList(c, s, cmd, cur, true);
  }
}
