/** common/key.c: the input queue and one step of the key-mapping loop that reads it. */
module EventQueue {
  import opened Store
  import opened MapTable

  datatype Kind = NotUsed | Character | Eof | Interrupt | Quit | Repaint | Resize | Write
  datatype Flag = Abbreviated | Mapped | NoMap | Quoted

  /** An event; the character and its flags are read whatever the kind. */
  datatype Event = Event(kind: Kind, c: char, flags: set<Flag>)

  /** What is put on the queue: events as they are, or characters that get one set of flags. */
  datatype Items = Events(events: seq<Event>) | Chars(text: string, flags: set<Flag>)

  const TERM_PUSH_SHIFT: nat := 30

  function Max(a: nat, b: nat): nat {
    if a >= b then a else b
  }

  function Key(c: char, flags: set<Flag>): Event {
    Event(Character, c, flags)
  }

  function Size(items: Items): nat {
    match items
    case Events(events) => |events|
    case Chars(text, _) => |text|
  }

  function Listed(items: Items): (q: seq<Event>)
    ensures |q| == Size(items)
  {
    match items
    case Events(events) => events
    case Chars(text, flags) => seq(|text|, i requires 0 <= i < |text| => Key(text[i], flags))
  }

  function Keys(q: seq<Event>): (s: string)
    ensures |s| == |q|
    ensures forall i :: 0 <= i < |q| ==> s[i] == q[i].c
  {
    seq(|q|, i requires 0 <= i < |q| => q[i].c)
  }

  /** The length of the longest flagged run at the front. */
  function Flagged(q: seq<Event>, flags: set<Flag>): (k: nat)
    ensures k <= |q|
    ensures forall i :: 0 <= i < k ==> q[i].flags * flags != {}
    ensures k < |q| ==> q[k].flags * flags == {}
  {
    if q == [] || q[0].flags * flags == {} then 0 else 1 + Flagged(q[1..], flags)
  }

  /** The n slots from from on. */
  ghost function Window(a: seq<Event>, from: nat, n: nat): (q: seq<Event>)
  {
    if from + n <= |a| then a[from..from + n] else []
  }

  lemma {:induction false} WindowEmpty(a: seq<Event>, from: nat)
    ensures Window(a, from, 0) == []
  {
  }

  /** The slots with q written over those from from on. */
  ghost function Written(a: seq<Event>, from: nat, q: seq<Event>): seq<Event> {
    if from + |q| <= |a| then a[..from] + q + a[from + |q|..] else a
  }

  lemma {:induction false} WrittenIs(a: seq<Event>, from: nat, q: seq<Event>)
    requires from + |q| <= |a|
    ensures Written(a, from, q) == a[..from] + q + a[from + |q|..]
  {
  }

  lemma {:induction false} WrittenNext(a: seq<Event>, from: nat, q: seq<Event>, i: nat)
    requires from + |q| <= |a| && i < |q|
    ensures (a[..from] + q[..i] + a[from + i..])[from + i := q[i]] == a[..from] + q[..i + 1] + a[from + i + 1..]
  {
  }

  lemma {:induction false} ListedAt(items: Items, i: nat)
    requires i < Size(items)
    ensures Listed(items)[i] == match items
                                case Events(events) => events[i]
                                case Chars(text, flags) => Key(text[i], flags)
  {
  }

  lemma {:induction false} WrittenBefore(a: seq<Event>, from: nat, q: seq<Event>, n: nat)
    requires from + |q| + n <= |a|
    ensures Window(Written(a, from, q), from, |q| + n) == q + Window(a, from + |q|, n)
  {
    var b, rest := Written(a, from, q), a[from + |q|..];
    assert b[from..] == q + rest;
    assert b[from..][..|q| + n] == q + rest[..n];
  }

  lemma {:induction false} WrittenAfter(a: seq<Event>, from: nat, n: nat, q: seq<Event>)
    requires from + n + |q| <= |a|
    ensures Window(Written(a, from + n, q), from, n + |q|) == Window(a, from, n) + q
  {
  }

  lemma {:induction false} WindowGrows(a: seq<Event>, b: seq<Event>, from: nat, n: nat)
    requires |a| <= |b| && b[..|a|] == a && from + n <= |a|
    ensures Window(b, from, n) == Window(a, from, n)
  {
    assert b[..|a|][from..from + n] == b[from..from + n];
  }

  // ----- mapping -----------------------------------------------------------------------------------

  /** What the caller of v_event_get asked for, whether the last read timed out, and whether a check for
      an interrupt is due before the next expansion and finds one. */
  datatype Ask = Ask(istimeout: bool, mapping: bool, stype: SeqType, noDigit: bool, interrupted: bool)

  /** A key; the end of a count; more input wanted; another round, before or after the queue check; or
      an interrupt. */
  datatype Outcome = Return(ev: Event) | NotDigit | More | Retry | NewMap | Interrupted

  predicate IsDigit(c: char) {
    '0' <= c <= '9'
  }

  predicate StartsWithDigit(o: string) {
    o != "" && IsDigit(o[0])
  }

  /** Keys come from C strings: no entry holds a NUL. */
  ghost predicate CStrings(es: seq<Entry>) {
    forall e :: e in es ==> '\0' !in e.input
  }

  function Given(q: seq<Event>, ask: Ask): (Outcome, seq<Event>) {
    if q == [] then (Retry, q)
    else if !IsDigit(q[0].c) && ask.noDigit then (NotDigit, q)
    else (Return(q[0]), q[1..])
  }

  function Behind(q: seq<Event>, n: nat): seq<Event> {
    if n <= |q| then q[n..] else []
  }

  /** The queue with its first keys replaced by what they are mapped to; an interrupt loses them. */
  function Expanded(q: seq<Event>, e: Entry, ask: Ask): (Outcome, seq<Event>) {
    var rest := Behind(q, |e.input|);
    match e.output
    case None => (Retry, rest)
    case Some(o) =>
      if ask.interrupted then (Interrupted, rest)
      else if e.input <= o then
        Given(Listed(Chars(o[..|e.input|], {NoMap, Mapped})) + (Listed(Chars(o[|e.input|..], {Mapped})) + rest), ask)
      else (NewMap, Listed(Chars(o, {Mapped})) + rest)
  }

  /** One decision of v_event_get, in terms of a plain search for the shortest bound prefix. */
  ghost function Step(q: seq<Event>, es: seq<Entry>, ask: Ask): (Outcome, seq<Event>) {
    if q == [] then (Retry, q)
    else if q[0].kind != Character then (Return(q[0]), q[1..])
    else if ask.istimeout || NoMap in q[0].flags || !ask.mapping then Given(q, ask)
    else
      match Shortest(es, Keys(q), ask.stype, 0)
      case None => if HasExtension(es, Keys(q), ask.stype) then (More, q) else Given(q, ask)
      case Some(e) =>
        if ask.noDigit && e.output.Some? && !StartsWithDigit(e.output.value) then (NotDigit, q)
        else Expanded(q, e, ask)
  }

  /** The first key of q is handed over, or a count ends before it. */
  ghost predicate HandedOver(q: seq<Event>, ask: Ask, got: Outcome, left: seq<Event>) {
    && q != []
    && if ask.noDigit && !('0' <= q[0].c <= '9') then got == NotDigit && left == q
       else got == Return(q[0]) && left == q[1..]
  }

  /** The first keys of q are those of e: without an output they go; before the end of a count nothing
      happens; an interrupt loses them; and otherwise the output stands in front of the keys behind them, mapped,
      except that its own keys at its front are not to be mapped again, and the first of those is handed over. */
  ghost predicate Replaced(q: seq<Event>, e: Entry, ask: Ask, got: Outcome, left: seq<Event>) {
    var n := |e.input|;
    && 0 < n <= |q|
    && match e.output
       case None => got == Retry && left == q[n..]
       case Some(o) =>
         if ask.noDigit && (o == "" || !('0' <= o[0] <= '9')) then got == NotDigit && left == q
         else if ask.interrupted then got == Interrupted && left == q[n..]
         else if n <= |o| && o[..n] == e.input then
           && got == Return(Event(Character, o[0], {NoMap, Mapped}))
           && |left| == |o| - 1 + (|q| - n) && left[|o| - 1..] == q[n..]
           && forall i :: 0 < i < |o| ==>
                left[i - 1] == Event(Character, o[i], if i < n then {NoMap, Mapped} else {Mapped})
         else
           && got == NewMap
           && |left| == |o| + (|q| - n) && left[|o|..] == q[n..]
           && forall i :: 0 <= i < |o| ==> left[i] == Event(Character, o[i], {Mapped})
  }

  /** What comes of the queue q with the maps es, case by case. */
  ghost predicate Decided(q: seq<Event>, es: seq<Entry>, ask: Ask, got: Outcome, left: seq<Event>) {
    && q != []
    && if q[0].kind != Character then got == Return(q[0]) && left == q[1..]
       else if ask.istimeout || NoMap in q[0].flags || !ask.mapping then HandedOver(q, ask, got, left)
       else
         match Shortest(es, Keys(q), ask.stype, 0)
         case Some(e) => Replaced(q, e, ask, got, left)
         case None =>
           if HasExtension(es, Keys(q), ask.stype) then got == More && left == q else HandedOver(q, ask, got, left)
  }

  lemma {:induction false} ListedChars(text: string, flags: set<Flag>)
    ensures var q := Listed(Chars(text, flags));
            |q| == |text| && forall i :: 0 <= i < |text| ==> q[i] == Event(Character, text[i], flags)
  {
  }

  lemma {:induction false} ExpandedMeans(q: seq<Event>, e: Entry, ask: Ask)
    requires 0 < |e.input| <= |q|
    requires ask.noDigit && e.output.Some? ==> StartsWithDigit(e.output.value)
    ensures Replaced(q, e, ask, Expanded(q, e, ask).0, Expanded(q, e, ask).1)
  {
    hide Listed;
    if e.output.Some? {
      var o, n := e.output.value, |e.input|;
      var rest := q[n..];
      ListedChars(o, {Mapped});
      if e.input <= o {
        var front, back := Listed(Chars(o[..n], {NoMap, Mapped})), Listed(Chars(o[n..], {Mapped}));
        ListedChars(o[..n], {NoMap, Mapped});
        ListedChars(o[n..], {Mapped});
        var all := front + (back + rest);
        assert all[0] == front[0];
        assert all[1..][|o| - 1..] == rest;
        forall i | 0 < i < |o|
          ensures all[1..][i - 1] == Event(Character, o[i], if i < n then {NoMap, Mapped} else {Mapped})
        {
          assert all[i] == if i < n then front[i] else back[i - n];
        }
      } else {
        var all := Listed(Chars(o, {Mapped})) + rest;
        assert all[|o|..] == rest;
        assert |o| >= n ==> o[..n] != e.input;
      }
    }
  }

  /** One decision of v_event_get comes to that. */
  lemma {:induction false} StepMeans(q: seq<Event>, es: seq<Entry>, ask: Ask)
    requires q != [] && forall e :: e in es ==> e.input != ""
    ensures Decided(q, es, ask, Step(q, es, ask).0, Step(q, es, ask).1)
  {
    hide Shortest, Expanded, Listed;
    ShortestMeans(es, Keys(q), ask.stype, 0);
    var v := Shortest(es, Keys(q), ask.stype, 0);
    if v.Some? && (ask.noDigit && v.value.output.Some? ==> StartsWithDigit(v.value.output.value)) {
      ExpandedMeans(q, v.value, ask);
    }
  }

  /** The outcomes of n decisions in a row, and the queue they leave. */
  ghost function Rounds(q: seq<Event>, es: seq<Entry>, ask: Ask, n: nat): (seq<Outcome>, seq<Event>)
    decreases n
  {
    if n == 0 then ([], q)
    else
      var (first, q1) := Step(q, es, ask);
      var (more, q2) := Rounds(q1, es, ask, n - 1);
      ([first] + more, q2)
  }

  function Returned(q: seq<Event>): seq<Outcome> {
    seq(|q|, i requires 0 <= i < |q| => Return(q[i]))
  }

  /** Keys that are not to be mapped come out as they are, whatever the maps. */
  lemma {:induction false} NoMapComesOut(front: seq<Event>, rest: seq<Event>, es: seq<Entry>, ask: Ask)
    requires !ask.noDigit
    requires forall i :: 0 <= i < |front| ==> front[i].kind == Character && NoMap in front[i].flags
    ensures Rounds(front + rest, es, ask, |front|) == (Returned(front), rest)
  {
    hide Shortest;
    if front == [] {
      assert front + rest == rest;
    } else {
      NoMapComesOut(front[1..], rest, es, ask);
      assert (front + rest)[1..] == front[1..] + rest;
      assert Returned(front) == [Return(front[0])] + Returned(front[1..]);
    }
  }

  lemma {:induction false} StepExpands(q: seq<Event>, es: seq<Entry>, ask: Ask, e: Entry)
    requires q != [] && q[0].kind == Character && NoMap !in q[0].flags
    requires ask.mapping && !ask.istimeout && !ask.noDigit
    requires Shortest(es, Keys(q), ask.stype, 0) == Some(e)
    ensures Step(q, es, ask) == Expanded(q, e, ask)
  {
    hide Expanded, Shortest;
  }

  /** A map whose output begins with its own keys hands those keys over one by one, unmapped, and
      only then goes on to the rest of the output: it does not loop. */
  lemma {:induction false} SelfMapDoesNotLoop(q: seq<Event>, es: seq<Entry>, ask: Ask, e: Entry)
    requires q != [] && q[0].kind == Character && NoMap !in q[0].flags
    requires ask.mapping && !ask.istimeout && !ask.noDigit && !ask.interrupted
    requires Shortest(es, Keys(q), ask.stype, 0) == Some(e)
    requires e.input != "" && e.output.Some? && e.input <= e.output.value
    ensures Rounds(q, es, ask, |e.input|)
         == (Returned(Listed(Chars(e.input, {NoMap, Mapped}))),
             Listed(Chars(e.output.value[|e.input|..], {Mapped})) + Behind(q, |e.input|))
  {
    hide Shortest, Rounds;
    var o := e.output.value;
    ShortestMeans(es, Keys(q), ask.stype, 0);
    var front, rest := Listed(Chars(e.input, {NoMap, Mapped})), Listed(Chars(o[|e.input|..], {Mapped})) + Behind(q, |e.input|);
    assert o[..|e.input|] == e.input;
    StepExpands(q, es, ask, e);
    SameFirstRound(q, front + rest, es, ask, |e.input|);
    NoMapComesOut(front, rest, es, ask);
  }

  lemma {:induction false} SameFirstRound(q: seq<Event>, q': seq<Event>, es: seq<Entry>, ask: Ask, n: nat)
    requires n > 0 && Step(q, es, ask) == Step(q', es, ask)
    ensures Rounds(q, es, ask, n) == Rounds(q', es, ask, n)
  {
  }

  /** The test for identical initial segments. */
  method SameStart(e: Entry, keys: string) returns (same: bool)
    requires e.output.Some? && e.input <= keys && '\0' !in e.input
    ensures same <==> e.input <= e.output.value
  {
    var n, o := |e.input|, e.output.value;
    TerminatedStart(e.input, o);
    assert keys[..n] == e.input;
    var diff := EMemCmp(o + ['\0'], keys, n);
    return diff == 0;
  }

  /** The output as the comparison sees it, with its terminating NUL. */
  lemma {:induction false} TerminatedStart(input: string, o: string)
    requires '\0' !in input
    ensures Diff(Cap(o + ['\0'], |input|), input) == 0 <==> input <= o
    ensures |input| > |o| + 1 ==> Diff(o + ['\0'], input) != 0
  {
    hide Diff, Cap;
    var p := o + ['\0'];
    DiffZero(Cap(p, |input|), input);
    DiffZero(p, input);
    TerminatorSeen(input, o);
    if |input| <= |o| { CapWithin(input, o); } else { CapBeyond(input, p); }
  }

  lemma {:induction false} CapWithin(input: string, o: string)
    requires |input| <= |o|
    ensures Cap(o + ['\0'], |input|) == o[..|input|]
    ensures input <= o <==> o[..|input|] == input
  {
    assert (o + ['\0'])[..|input|] == o[..|input|];
  }

  lemma {:induction false} CapBeyond(input: string, p: string)
    requires |p| <= |input|
    ensures Cap(p, |input|) == p
  {
    if |p| == |input| { assert p[..|input|] == p; }
  }

  lemma {:induction false} TerminatorSeen(input: string, o: string)
    ensures o + ['\0'] <= input ==> '\0' in input
  {
    if o + ['\0'] <= input { assert input[|o|] == '\0'; }
  }

  lemma {:induction false} InputsHeld(es: seq<Entry>, e: Entry)
    requires Ordered(es) && e in es
    ensures e.input != ""
  {
  }

  lemma {:induction false} AllKeyed(es: seq<Entry>)
    requires Ordered(es)
    ensures forall e :: e in es ==> e.input != ""
  {
  }

  lemma {:induction false} FirstOf(q: seq<Event>)
    requires q != []
    ensures Keys(q) != ""
  {
  }

  lemma {:induction false} FlaggedStep(q: seq<Event>, flags: set<Flag>)
    ensures Flagged(q, flags) == if q == [] || q[0].flags * flags == {} then 0 else 1 + Flagged(q[1..], flags)
  {
  }

  class Queue {
    /** A queue that has no storage yet has an array of length zero. */
    var iEvent: array<Event>
    var iNext: nat
    var iCnt: nat

    ghost predicate Valid()
      reads this
    {
      iNext + iCnt <= iEvent.Length && (iCnt == 0 ==> iNext == 0)
    }

    ghost function Contents(): (q: seq<Event>)
      reads this, iEvent
    {
      Window(iEvent[..], iNext, iCnt)
    }

    constructor ()
      ensures Valid() && Contents() == [] && fresh(iEvent)
    {
      iEvent := new Event[0];
      iNext, iCnt := 0, 0;
    }

    /** v_event_grow: BINC_RET adds what is asked for to what is there already. */
    method Grow(add: nat)
      modifies this`iEvent
      ensures fresh(iEvent) && iEvent.Length == 2 * old(iEvent.Length) + add
      ensures iEvent[..old(iEvent.Length)] == old(iEvent[..])
    {
      var newNelem := iEvent.Length + add;
      var a := new Event[iEvent.Length + newNelem](_ => Event(NotUsed, '\0', {}));
      forall i | 0 <= i < iEvent.Length { a[i] := iEvent[i]; }
      assert a[..iEvent.Length] == iEvent[..];
      iEvent := a;
    }

    /** The copy loop of a push or an append: the slots at from are written one by one. */
    method Store(from: nat, items: Items)
      requires from + Size(items) <= iEvent.Length
      modifies iEvent
      ensures iEvent[..] == Written(old(iEvent[..]), from, Listed(items))
    {
      hide Listed, Written;
      var n := Size(items);
      ghost var q, a := Listed(items), iEvent[..];
      assert a[..from] + q[..0] + a[from..] == a;
      var i := 0;
      while i < n
        invariant i <= n && iEvent[..] == a[..from] + q[..i] + a[from + i..]
      {
        iEvent[from + i] := match items
          case Events(events) => events[i]
          case Chars(text, flags) => Key(text[i], flags);
        ListedAt(items, i);
        WrittenNext(a, from, q, i);
        i := i + 1;
      }
      assert q[..n] == q;
      WrittenIs(a, from, q);
    }

    /** The MEMMOVE of a push: the items in the queue move up to leave room for n before them. */
    method ShiftUp(n: nat)
      requires iNext + iCnt <= iEvent.Length && TERM_PUSH_SHIFT + n + iCnt <= iEvent.Length
      modifies iEvent
      ensures Window(iEvent[..], TERM_PUSH_SHIFT + n, iCnt) == old(Contents())
    {
      forall i | 0 <= i < iCnt { iEvent[TERM_PUSH_SHIFT + n + i] := iEvent[iNext + i]; }
    }

    /** The first half of v_event_push: n free slots from iNext on, and the queue right after them. */
    method MakeRoom(n: nat)
      requires Valid()
      modifies this`iEvent, this`iNext, iEvent
      ensures iNext + n + iCnt <= iEvent.Length && (iCnt == 0 && n == 0 ==> iNext == 0)
      ensures Window(iEvent[..], iNext + n, iCnt) == old(Contents())
      ensures iEvent == old(iEvent) || fresh(iEvent)
    {
      hide Window;
      WindowEmpty(iEvent[..], iNext);
      if n <= iNext || (iEvent.Length != 0 && iCnt == 0 && n <= iEvent.Length) {
        if iCnt != 0 { iNext := iNext - n; }
      } else {
        var total := iCnt + iNext + n + TERM_PUSH_SHIFT;
        if total >= iEvent.Length { GrowKeeps(Max(total, 64)); }
        if iCnt != 0 { ShiftUp(n); }
        iNext := TERM_PUSH_SHIFT;
      }
      WindowEmpty(iEvent[..], iNext + n);
    }

    method GrowKeeps(add: nat)
      requires Valid()
      modifies this`iEvent
      ensures fresh(iEvent) && iEvent.Length == 2 * old(iEvent.Length) + add
      ensures Valid() && Contents() == old(Contents())
    {
      hide Window;
      ghost var a := iEvent[..];
      Grow(add);
      WindowGrows(a, iEvent[..], iNext, iCnt);
    }

    /** v_event_push */
    method Push(items: Items)
      requires Valid()
      modifies this, iEvent
      ensures Valid() && Contents() == Listed(items) + old(Contents())
      ensures iEvent == old(iEvent) || fresh(iEvent)
    {
      hide Listed, Window, Written;
      var n := Size(items);
      MakeRoom(n);
      ghost var a := iEvent[..];
      WrittenBefore(a, iNext, Listed(items), iCnt);
      iCnt := iCnt + n;
      Store(iNext, items);
    }

    /** v_event_append: an event, or a string turned into unflagged characters. */
    method Append(items: Items)
      requires Valid()
      requires items.Events? ==> |items.events| == 1
      requires items.Chars? ==> items.flags == {}
      modifies this, iEvent
      ensures Valid() && Contents() == old(Contents()) + Listed(items)
      ensures iEvent == old(iEvent) || fresh(iEvent)
    {
      hide Listed, Window, Written;
      var n := Size(items);
      if iEvent.Length == 0 || n > iEvent.Length - (iNext + iCnt) { GrowKeeps(Max(n, 64)); }
      ghost var a := iEvent[..];
      WrittenAfter(a, iNext, iCnt, Listed(items));
      var evp := iNext + iCnt;
      iCnt := iCnt + n;
      Store(evp, items);
    }

    /** QREM */
    method Remove(len: nat)
      requires Valid() && len <= iCnt
      modifies this`iNext, this`iCnt
      ensures Valid() && Contents() == old(Contents())[len..]
    {
      iCnt := iCnt - len;
      if iCnt == 0 { iNext := 0; } else { iNext := iNext + len; }
    }

    /** v_event_flush: exactly the longest run of flagged keys at the front goes. */
    method Flush(flags: set<Flag>) returns (rval: bool)
      requires Valid()
      modifies this`iNext, this`iCnt
      ensures Valid()
      ensures Contents() == old(Contents())[Flagged(old(Contents()), flags)..]
      ensures rval <==> Flagged(old(Contents()), flags) > 0
    {
      hide Flagged;
      rval := false;
      ghost var q, k := Contents(), 0;
      assert q[0..] == q;
      while iCnt != 0 && iEvent[iNext].flags * flags != {}
        invariant Valid() && 0 <= k <= |q| && Contents() == q[k..]
        invariant rval <==> k > 0
        invariant k + Flagged(q[k..], flags) == Flagged(q, flags)
        decreases iCnt
      {
        FlaggedStep(q[k..], flags);
        assert q[k..][1..] == q[k + 1..];
        assert q[k] == Contents()[0];
        Remove(1);
        rval, k := true, k + 1;
      }
      FlaggedStep(q[k..], flags);
    }

    /** The nomap label of v_event_get: the first key is handed over as it is. */
    method Give(ask: Ask) returns (got: Outcome)
      requires Valid() && iCnt > 0
      modifies this`iNext, this`iCnt
      ensures Valid() && (got, Contents()) == Given(old(Contents()), ask)
    {
      var evp := iEvent[iNext];
      assert evp == Contents()[0];
      if !IsDigit(evp.c) && ask.noDigit { return NotDigit; }
      got := Return(evp);
      Remove(1);
    }

    /** The mapped keys leave the queue, and what they stand for goes onto it. */
    method Substitute(e: Entry, initNomap: bool, ask: Ask) returns (got: Outcome)
      requires Valid() && 0 < |e.input| <= iCnt
      requires e.output.Some? ==> (initNomap <==> e.input <= e.output.value)
      modifies this, iEvent
      ensures Valid() && (got, Contents()) == Expanded(old(Contents()), e, ask)
      ensures iEvent == old(iEvent) || fresh(iEvent)
    {
      hide Listed;
      Remove(|e.input|);
      if e.output.None? { return Retry; }
      if ask.interrupted { return Interrupted; }
      var o := e.output.value;
      if initNomap {
        Push(Chars(o[|e.input|..], {Mapped}));
        Push(Chars(o[..|e.input|], {NoMap, Mapped}));
        got := Give(ask);
      } else {
        Push(Chars(o, {Mapped}));
        got := NewMap;
      }
    }

    /** v_event_get from the newmap label to the next decision, with the remap option set. */
    method MapStep(table: SeqTable, ask: Ask) returns (got: Outcome)
      requires Valid() && iCnt > 0 && table.Valid() && CStrings(table.seqq)
      modifies this, iEvent
      ensures Valid() && (got, Contents()) == Step(old(Contents()), table.seqq, ask)
      ensures Decided(old(Contents()), table.seqq, ask, got, Contents())
      ensures iEvent == old(iEvent) || fresh(iEvent)
    {
      hide Shortest, Listed, Ordered, Bound, Expanded, Decided;
      ghost var q := Contents();
      AllKeyed(table.seqq);
      StepMeans(q, table.seqq, ask);
      var evp := iEvent[iNext];
      FirstOf(q);
      if evp.kind != Character {
        Remove(1);
        return Return(evp);
      }
      if ask.istimeout || NoMap in evp.flags || !ask.mapping {
        got := Give(ask);
        return;
      }
      var keys := Keys(iEvent[iNext..iNext + iCnt]);
      var found, partial := table.Lookup(keys, ask.stype);
      if partial { return More; }
      if found.None? {
        got := Give(ask);
        return;
      }
      var e := table.seqq[found.value];
      ShortestMeans(table.seqq, keys, ask.stype, 0);
      assert e.input != "" by { InputsHeld(table.seqq, e); }
      if ask.noDigit && e.output.Some? && !StartsWithDigit(e.output.value) { return NotDigit; }
      var initNomap := false;
      if e.output.Some? { initNomap := SameStart(e, keys); }
      got := Substitute(e, initNomap, ask);
    }
  }
}
