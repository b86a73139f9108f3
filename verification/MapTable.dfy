/** common/seq.c: the list of maps and abbreviations, its search, and the fast-lookup bitmap. */
module MapTable {
  import opened Store

  datatype SeqType = Abbrev | Command | Input

  /** One sequence: the keys typed, what they turn into (nothing at all for None), and its flags. */
  datatype Entry = Entry(name: string, input: string, output: Option<string>, stype: SeqType, funcMap: bool,
                         userDef: bool, screen: bool)

  datatype Flags = Flags(funcMap: bool, noOverwrite: bool, userDef: bool, screen: bool)

  const MAX_BIT_SEQ: nat := 128

  /** Entries a search for keys of one type considers: function-key entries are skipped. */
  predicate Live(e: Entry, stype: SeqType) {
    e.stype == stype && !e.funcMap
  }

  // ----- the order of the list -------------------------------------------------------------

  /** The comparison over the common length: negative, zero when one extends the other, or positive. */
  function Diff(a: string, b: string): int {
    if a == "" || b == "" then 0
    else if a[0] != b[0] then a[0] as int - b[0] as int
    else Diff(a[1..], b[1..])
  }

  /** By keys, and shorter before longer within the same keys. */
  predicate Less(a: string, b: string) {
    Diff(a, b) < 0 || (Diff(a, b) == 0 && |a| < |b|)
  }

  /** What the list must look like for a search to be able to stop early. */
  ghost predicate Ordered(es: seq<Entry>) {
    && (forall i :: 0 <= i < |es| ==> es[i].input != "")
    && (forall i, j :: 0 <= i < j < |es| ==> es[i].input[0] <= es[j].input[0])
    && (forall i, j :: 0 <= i < j < |es| && es[i].stype == es[j].stype && !es[i].funcMap && !es[j].funcMap
          ==> Less(es[i].input, es[j].input))
  }

  lemma {:induction false} DiffZero(a: string, b: string)
    ensures Diff(a, b) == 0 <==> a <= b || b <= a
    ensures Diff(b, a) == -Diff(a, b)
  {
    if a != "" && b != "" {
      DiffZero(a[1..], b[1..]);
      if a[0] == b[0] {
        assert a == [a[0]] + a[1..] && b == [b[0]] + b[1..];
        if a[1..] <= b[1..] { assert a <= b; }
        if b[1..] <= a[1..] { assert b <= a; }
        if a <= b { assert a[1..] == b[..|a|][1..] == b[1..][..|a| - 1]; }
        if b <= a { assert b[1..] == a[..|b|][1..] == a[1..][..|b| - 1]; }
      }
    }
  }

  lemma {:induction false} LessTrans(a: string, b: string, c: string)
    requires Less(a, b) && Less(b, c)
    ensures Less(a, c)
  {
    if a != "" && b != "" && c != "" && a[0] == b[0] == c[0] {
      LessTrans(a[1..], b[1..], c[1..]);
    }
  }

  /** Everything after an entry that exceeds the keys exceeds them too. */
  lemma {:induction false} StaysAbove(a: string, b: string, keys: string)
    requires Less(a, b) && Diff(a, keys) > 0
    ensures Diff(b, keys) > 0
  {
    if b != "" && a[0] == b[0] == keys[0] {
      StaysAbove(a[1..], b[1..], keys[1..]);
    }
  }

  /** Less orders any two different strings, one way. */
  lemma {:induction false} LessTotal(a: string, b: string)
    ensures Less(a, b) <==> a != b && !Less(b, a)
  {
    DiffZero(a, b);
  }

  // ----- search ---------------------------------------------------------------------------------

  ghost predicate Present(es: seq<Entry>, keys: string, stype: SeqType) {
    exists i :: 0 <= i < |es| && Live(es[i], stype) && es[i].input == keys
  }

  /** An entry at or after which the keys belong. */
  predicate Beyond(e: Entry, keys: string, stype: SeqType) {
    e.input != "" && keys != "" && (e.input[0] > keys[0] || (Live(e, stype) && Less(keys, e.input)))
  }

  /** How many entries come before the place of the keys. */
  function Place(es: seq<Entry>, keys: string, stype: SeqType): (p: nat)
    ensures p <= |es|
    ensures forall i :: 0 <= i < p ==> !Beyond(es[i], keys, stype)
    ensures p < |es| ==> Beyond(es[p], keys, stype)
  {
    if es == [] || Beyond(es[0], keys, stype) then 0
    else
      var p := Place(es[1..], keys, stype);
      assert forall i :: 1 <= i < p + 1 ==> es[i] == es[1..][i - 1];
      p + 1
  }

  /** The shortest live entry that is a prefix of the keys. */
  ghost predicate ShortestPrefix(es: seq<Entry>, i: nat, keys: string, stype: SeqType) {
    && i < |es| && Live(es[i], stype) && es[i].input <= keys
    && forall j :: 0 <= j < |es| && Live(es[j], stype) && es[j].input <= keys ==> |es[i].input| <= |es[j].input|
  }

  ghost predicate HasPrefix(es: seq<Entry>, keys: string, stype: SeqType) {
    exists j :: 0 <= j < |es| && Live(es[j], stype) && es[j].input <= keys
  }

  ghost predicate HasExtension(es: seq<Entry>, keys: string, stype: SeqType) {
    exists j :: 0 <= j < |es| && Live(es[j], stype) && keys < es[j].input
  }

  /** Nothing from the stopping entry on matters to a search, except that it may extend the keys. */
  lemma {:induction false} RestAbove(es: seq<Entry>, i: nat, j: nat, keys: string, stype: SeqType)
    requires Ordered(es) && keys != "" && i <= j < |es| && Live(es[j], stype)
    requires Beyond(es[i], keys, stype)
    ensures Less(keys, es[j].input) && !(es[j].input <= keys)
    ensures es[i].input[0] > keys[0] || Diff(es[i].input, keys) > 0 ==> Diff(es[j].input, keys) > 0
  {
    if es[i].input[0] > keys[0] {
      assert es[i].input[0] <= es[j].input[0];
    } else if i < j {
      assert Less(es[i].input, es[j].input);
      LessTrans(keys, es[i].input, es[j].input);
      if Diff(es[i].input, keys) > 0 { StaysAbove(es[i].input, es[j].input, keys); }
    }
    DiffZero(keys, es[j].input);
  }

  /** The first live entry with exactly these keys, or the length of the list. */
  function Position(es: seq<Entry>, keys: string, stype: SeqType): (p: nat)
    ensures p <= |es|
    ensures p < |es| ==> Live(es[p], stype) && es[p].input == keys
    ensures forall i :: 0 <= i < p ==> !(Live(es[i], stype) && es[i].input == keys)
  {
    if es == [] || (Live(es[0], stype) && es[0].input == keys) then 0
    else
      var p := Position(es[1..], keys, stype);
      assert forall i :: 1 <= i < p + 1 ==> es[i] == es[1..][i - 1];
      p + 1
  }

  /** What the keys are bound to. */
  function Bound(es: seq<Entry>, keys: string, stype: SeqType): Option<Entry> {
    var p := Position(es, keys, stype);
    if p < |es| then Some(es[p]) else None
  }

  lemma {:induction false} OnlyOne(es: seq<Entry>, i: nat, keys: string, stype: SeqType)
    requires Ordered(es) && i < |es| && Live(es[i], stype) && es[i].input == keys
    ensures Position(es, keys, stype) == i
  {
    var p := Position(es, keys, stype);
    if p < i {
      assert Less(es[p].input, es[i].input);
      DiffZero(keys, keys);
    }
  }

  lemma {:induction false} PositionFinds(es: seq<Entry>, keys: string, stype: SeqType)
    ensures Position(es, keys, stype) < |es| <==> Present(es, keys, stype)
  {
    if Position(es, keys, stype) < |es| { assert Live(es[Position(es, keys, stype)], stype); }
  }

  // ----- the operations as functions of the list ------------------------------------------------

  /** A replaced output that is empty becomes no output. */
  function Replacement(output: Option<string>): Option<string> {
    if output == Some("") then None else output
  }

  function Entered(es: seq<Entry>, e: Entry, noOverwrite: bool): seq<Entry> {
    var p := Position(es, e.input, e.stype);
    if p < |es| then
      if noOverwrite then es else es[p := es[p].(output := Replacement(e.output))]
    else
      var q := Place(es, e.input, e.stype);
      es[..q] + [e] + es[q..]
  }

  function Dropped(es: seq<Entry>, i: nat): seq<Entry> {
    if i < |es| then es[..i] + es[i + 1..] else es
  }

  function Deleted(es: seq<Entry>, keys: string, stype: SeqType): seq<Entry> {
    Dropped(es, Position(es, keys, stype))
  }

  /** cl_term_end: the screen's own entries go. */
  function WithoutScreen(es: seq<Entry>): seq<Entry> {
    if es == [] then []
    else if es[0].screen then WithoutScreen(es[1..])
    else [es[0]] + WithoutScreen(es[1..])
  }

  // ----- every operation keeps the order ----------------------------------------------------------

  lemma {:induction false} PlaceSplits(es: seq<Entry>, e: Entry)
    requires Ordered(es) && e.input != "" && !e.funcMap && !Present(es, e.input, e.stype)
    ensures var q := Place(es, e.input, e.stype);
            forall j :: 0 <= j < |es| && Live(es[j], e.stype) ==>
              if j < q then Less(es[j].input, e.input) else Less(e.input, es[j].input)
  {
    var q := Place(es, e.input, e.stype);
    forall j | 0 <= j < |es| && Live(es[j], e.stype)
      ensures if j < q then Less(es[j].input, e.input) else Less(e.input, es[j].input)
    {
      if j < q {
        assert !Beyond(es[j], e.input, e.stype);
        LessTotal(es[j].input, e.input);
      } else {
        RestAbove(es, q, j, e.input, e.stype);
      }
    }
  }

  lemma {:induction false} PlaceFirst(es: seq<Entry>, keys: string, stype: SeqType)
    requires Ordered(es) && keys != ""
    ensures var q := Place(es, keys, stype);
            forall j :: 0 <= j < |es| ==> if j < q then es[j].input[0] <= keys[0] else keys[0] <= es[j].input[0]
  {
    var q := Place(es, keys, stype);
    forall j | 0 <= j < |es|
      ensures if j < q then es[j].input[0] <= keys[0] else keys[0] <= es[j].input[0]
    {
      if j >= q {
        assert Beyond(es[q], keys, stype);
        assert keys[0] <= es[q].input[0] <= es[j].input[0];
      } else {
        assert !Beyond(es[j], keys, stype);
      }
    }
  }

  lemma {:induction false} InsertKeepsOrder(es: seq<Entry>, q: nat, e: Entry)
    requires Ordered(es) && q <= |es| && e.input != ""
    requires forall j :: 0 <= j < |es| ==> if j < q then es[j].input[0] <= e.input[0] else e.input[0] <= es[j].input[0]
    requires !e.funcMap ==> forall j :: 0 <= j < |es| && Live(es[j], e.stype) ==>
               if j < q then Less(es[j].input, e.input) else Less(e.input, es[j].input)
    ensures Ordered(es[..q] + [e] + es[q..])
  {
    hide Less;
    var s := es[..q] + [e] + es[q..];
    forall i, j | 0 <= i < j < |s|
      ensures s[i].input[0] <= s[j].input[0]
      ensures s[i].stype == s[j].stype && !s[i].funcMap && !s[j].funcMap ==> Less(s[i].input, s[j].input)
    {
      var oi, oj := if i < q then i else i - 1, if j < q then j else j - 1;
      assert i != q ==> s[i] == es[oi];
      assert j != q ==> s[j] == es[oj];
      if i == q { assert Live(s[j], e.stype) == (s[j].stype == e.stype && !s[j].funcMap); }
      if j == q { assert Live(s[i], e.stype) == (s[i].stype == e.stype && !s[i].funcMap); }
    }
  }

  lemma {:induction false} EnteredKeepsOrder(es: seq<Entry>, e: Entry, noOverwrite: bool)
    requires Ordered(es) && e.input != ""
    ensures Ordered(Entered(es, e, noOverwrite))
  {
    hide Less, Place, Position, Beyond;
    PositionFinds(es, e.input, e.stype);
    if Position(es, e.input, e.stype) == |es| {
      PlaceFirst(es, e.input, e.stype);
      if !e.funcMap { PlaceSplits(es, e); }
      InsertKeepsOrder(es, Place(es, e.input, e.stype), e);
    }
  }

  lemma {:induction false} DroppedKeepsOrder(es: seq<Entry>, i: nat)
    requires Ordered(es)
    ensures Ordered(Dropped(es, i))
  {
    hide Less;
    var s := Dropped(es, i);
    assert forall k :: 0 <= k < |s| ==> s[k] == es[if k < i then k else k + 1];
  }

  lemma {:induction false} WithoutScreenMembers(es: seq<Entry>)
    ensures forall x :: x in WithoutScreen(es) <==> x in es && !x.screen
  {
    if es != [] {
      WithoutScreenMembers(es[1..]);
      assert es == [es[0]] + es[1..];
    }
  }

  lemma {:induction false} FrontKeepsOrder(e: Entry, s: seq<Entry>)
    requires Ordered(s) && e.input != ""
    requires forall x :: x in s ==> x.input != "" && e.input[0] <= x.input[0]
    requires forall x :: x in s && e.stype == x.stype && !e.funcMap && !x.funcMap ==> Less(e.input, x.input)
    ensures Ordered([e] + s)
  {
    hide Less;
    var t := [e] + s;
    assert forall k :: 1 <= k < |t| ==> t[k] == s[k - 1] && s[k - 1] in s;
  }

  lemma {:induction false} WithoutScreenKeepsOrder(es: seq<Entry>)
    requires Ordered(es)
    ensures Ordered(WithoutScreen(es))
  {
    hide Less;
    if es != [] {
      assert forall k :: 0 <= k < |es[1..]| ==> es[1..][k] == es[k + 1];
      WithoutScreenKeepsOrder(es[1..]);
      WithoutScreenMembers(es[1..]);
      if !es[0].screen { FrontKeepsOrder(es[0], WithoutScreen(es[1..])); }
    }
  }

  // ----- the sorted list is a map ------------------------------------------------------------------

  datatype Op =
    | Set(e: Entry, noOverwrite: bool)
    | Unset(keys: string, stype: SeqType)
    | TermEnd

  /** The list after the operations, the latest first. */
  function Run(ops: seq<Op>): seq<Entry> {
    if ops == [] then []
    else
      match ops[0]
      case Set(e, noOverwrite) => Entered(Run(ops[1..]), e, noOverwrite)
      case Unset(keys, stype) => Deleted(Run(ops[1..]), keys, stype)
      case TermEnd => WithoutScreen(Run(ops[1..]))
  }

  /** What the same operations say about one key string of one type, with no list at all. */
  function Says(ops: seq<Op>, keys: string, stype: SeqType): Option<Entry> {
    if ops == [] then None
    else
      var before := Says(ops[1..], keys, stype);
      match ops[0]
      case Set(e, noOverwrite) =>
        if e.input != keys || e.stype != stype then before
        else if before.None? then if e.funcMap then None else Some(e)
        else if noOverwrite then before
        else Some(before.value.(output := if e.output == Some("") then None else e.output))
      case Unset(k, st) => if k == keys && st == stype then None else before
      case TermEnd => if before.Some? && before.value.screen then None else before
  }

  ghost predicate Inputs(ops: seq<Op>) {
    forall op :: op in ops && op.Set? ==> op.e.input != ""
  }

  /** A list that holds the same live entries binds the same keys. */
  lemma {:induction false} BoundBy(es: seq<Entry>, keys: string, stype: SeqType, v: Option<Entry>)
    requires Ordered(es)
    requires v.Some? ==> v.value in es && Live(v.value, stype) && v.value.input == keys
    requires v.None? ==> forall x :: x in es ==> !(Live(x, stype) && x.input == keys)
    ensures Bound(es, keys, stype) == v
  {
    if v.Some? {
      var i :| 0 <= i < |es| && es[i] == v.value;
      OnlyOne(es, i, keys, stype);
    } else {
      PositionFinds(es, keys, stype);
    }
  }

  /** Conversely, what a list binds is one of its entries, and the only one. */
  lemma {:induction false} BoundMeans(es: seq<Entry>, keys: string, stype: SeqType)
    requires Ordered(es)
    ensures var v := Bound(es, keys, stype);
            if v.Some? then
              v.value in es && forall x :: x in es && Live(x, stype) && x.input == keys ==> x == v.value
            else forall x :: x in es ==> !(Live(x, stype) && x.input == keys)
  {
    forall x | x in es && Live(x, stype) && x.input == keys
      ensures Bound(es, keys, stype) == Some(x)
    {
      var i :| 0 <= i < |es| && es[i] == x;
      OnlyOne(es, i, keys, stype);
    }
  }

  lemma {:induction false} InsertedMembers(es: seq<Entry>, q: nat, e: Entry)
    requires q <= |es|
    ensures forall x :: x in es[..q] + [e] + es[q..] <==> x == e || x in es
  {
    assert es == es[..q] + es[q..];
  }

  lemma {:induction false} ReplacedMembers(es: seq<Entry>, p: nat, e: Entry)
    requires p < |es|
    ensures e in es[p := e]
    ensures forall x :: x in es[p := e] ==> x == e || x in es
    ensures forall x :: x in es && x != es[p] ==> x in es[p := e]
  {
    var t := es[p := e];
    assert t[p] == e;
    forall x | x in es && x != es[p] ensures x in t {
      var i :| 0 <= i < |es| && es[i] == x;
      assert t[i] == x;
    }
  }

  lemma {:induction false} DroppedMembers(es: seq<Entry>, i: nat)
    requires i < |es|
    ensures forall x :: x in Dropped(es, i) ==> x in es
    ensures forall x :: x in es && x != es[i] ==> x in Dropped(es, i)
  {
    assert es == es[..i] + [es[i]] + es[i + 1..];
  }

  lemma {:induction false} EnteredBinds(es: seq<Entry>, e: Entry, noOverwrite: bool, keys: string, stype: SeqType)
    requires Ordered(es) && e.input != ""
    ensures Bound(Entered(es, e, noOverwrite), keys, stype) ==
            if e.input != keys || e.stype != stype then Bound(es, keys, stype)
            else if Bound(es, keys, stype).None? then if e.funcMap then None else Some(e)
            else if noOverwrite then Bound(es, keys, stype)
            else Some(Bound(es, keys, stype).value.(output := Replacement(e.output)))
  {
    hide Ordered, Place, Position, Less;
    EnteredKeepsOrder(es, e, noOverwrite);
    BoundMeans(es, keys, stype);
    BoundMeans(es, e.input, e.stype);
    var p := Position(es, e.input, e.stype);
    var v := Bound(es, keys, stype);
    if p < |es| {
      if !noOverwrite {
        var now := es[p].(output := Replacement(e.output));
        ReplacedMembers(es, p, now);
        BoundBy(es[p := now], keys, stype, if e.input != keys || e.stype != stype then v else Some(now));
      }
    } else {
      var q := Place(es, e.input, e.stype);
      InsertedMembers(es, q, e);
      BoundBy(es[..q] + [e] + es[q..], keys, stype,
              if e.input != keys || e.stype != stype || e.funcMap then v else Some(e));
    }
  }

  lemma {:induction false} DeletedBinds(es: seq<Entry>, k: string, st: SeqType, keys: string, stype: SeqType)
    requires Ordered(es)
    ensures Bound(Deleted(es, k, st), keys, stype) == if k == keys && st == stype then None else Bound(es, keys, stype)
  {
    var p := Position(es, k, st);
    BoundMeans(es, keys, stype);
    if p < |es| {
      DroppedKeepsOrder(es, p);
      DroppedMembers(es, p);
      DroppedGone(es, p);
      BoundBy(Dropped(es, p), keys, stype, if k == keys && st == stype then None else Bound(es, keys, stype));
    }
  }

  lemma {:induction false} NoTwice(es: seq<Entry>, i: nat, j: nat)
    requires Ordered(es) && i < j < |es|
    ensures es[i] == es[j] ==> es[i].funcMap
  {
    DiffZero(es[i].input, es[i].input);
  }

  lemma {:induction false} DroppedGone(es: seq<Entry>, i: nat)
    requires Ordered(es) && i < |es| && !es[i].funcMap
    ensures es[i] !in Dropped(es, i)
  {
    hide Ordered, Less;
    var s := Dropped(es, i);
    forall k | 0 <= k < |s| ensures s[k] != es[i] {
      if k < i { NoTwice(es, k, i); } else { NoTwice(es, i, k + 1); }
    }
  }

  lemma {:induction false} WithoutScreenBinds(es: seq<Entry>, keys: string, stype: SeqType)
    requires Ordered(es)
    ensures var v := Bound(es, keys, stype);
            Bound(WithoutScreen(es), keys, stype) == if v.Some? && v.value.screen then None else v
  {
    var v := Bound(es, keys, stype);
    BoundMeans(es, keys, stype);
    WithoutScreenKeepsOrder(es);
    WithoutScreenMembers(es);
    BoundBy(WithoutScreen(es), keys, stype, if v.Some? && v.value.screen then None else v);
  }

  /** Over every run the list stays ordered, and binds exactly what a plain map would. */
  lemma {:induction false} TableIsMap(ops: seq<Op>)
    requires Inputs(ops)
    ensures Ordered(Run(ops))
    ensures forall keys: string, stype :: Bound(Run(ops), keys, stype) == Says(ops, keys, stype)
  {
    hide Ordered, Bound, Entered, Deleted, WithoutScreen;
    if ops == [] {
      NothingBound();
    } else {
      var es := Run(ops[1..]);
      TableIsMap(ops[1..]);
      match ops[0]
      case Set(e, noOverwrite) =>
        assert ops[0] in ops;
        EnteredKeepsOrder(es, e, noOverwrite);
        forall keys: string, stype ensures Bound(Run(ops), keys, stype) == Says(ops, keys, stype) {
          EnteredBinds(es, e, noOverwrite, keys, stype);
        }
      case Unset(k, st) =>
        DeletedKeepsOrder(es, k, st);
        forall keys: string, stype ensures Bound(Run(ops), keys, stype) == Says(ops, keys, stype) {
          DeletedBinds(es, k, st, keys, stype);
        }
      case TermEnd =>
        WithoutScreenKeepsOrder(es);
        forall keys: string, stype ensures Bound(Run(ops), keys, stype) == Says(ops, keys, stype) {
          WithoutScreenBinds(es, keys, stype);
        }
    }
  }

  lemma {:induction false} DeletedKeepsOrder(es: seq<Entry>, keys: string, stype: SeqType)
    requires Ordered(es)
    ensures Ordered(Deleted(es, keys, stype))
  {
    DroppedKeepsOrder(es, Position(es, keys, stype));
  }

  lemma {:induction false} NothingBound()
    ensures Ordered([])
    ensures forall keys: string, stype :: Bound([], keys, stype) == None
  {
  }

  /** The terminal search, on the map: the shortest bound prefix of the keys. */
  lemma {:induction false} ShortestPrefixIsBound(es: seq<Entry>, i: nat, keys: string, stype: SeqType)
    requires Ordered(es) && ShortestPrefix(es, i, keys, stype)
    ensures Bound(es, es[i].input, stype) == Some(es[i])
    ensures forall n :: 0 <= n < |es[i].input| ==> Bound(es, keys[..n], stype) == None
  {
    hide Less, Position;
    OnlyOne(es, i, es[i].input, stype);
    forall n | 0 <= n < |es[i].input|
      ensures Bound(es, keys[..n], stype) == None
    {
      PositionFinds(es, keys[..n], stype);
    }
  }

  /** The plain search of a map for keys: the shortest prefix of at least n keys that is bound. */
  function Shortest(es: seq<Entry>, keys: string, stype: SeqType, n: nat): Option<Entry>
    decreases |keys| - n
  {
    if n > |keys| then None
    else if Bound(es, keys[..n], stype).Some? then Bound(es, keys[..n], stype)
    else Shortest(es, keys, stype, n + 1)
  }

  lemma {:induction false} ShortestIs(es: seq<Entry>, keys: string, stype: SeqType, n: nat, m: nat)
    requires n <= m <= |keys| && Bound(es, keys[..m], stype).Some?
    requires forall k :: n <= k < m ==> Bound(es, keys[..k], stype).None?
    ensures Shortest(es, keys, stype, n) == Bound(es, keys[..m], stype)
    decreases m - n
  {
    if n < m { ShortestIs(es, keys, stype, n + 1, m); }
  }

  lemma {:induction false} ShortestNone(es: seq<Entry>, keys: string, stype: SeqType, n: nat)
    requires !HasPrefix(es, keys, stype)
    ensures Shortest(es, keys, stype, n) == None
    decreases |keys| - n
  {
    if n <= |keys| {
      PositionFinds(es, keys[..n], stype);
      ShortestNone(es, keys, stype, n + 1);
    }
  }

  lemma {:induction false} ShortestMeans(es: seq<Entry>, keys: string, stype: SeqType, n: nat)
    ensures var v := Shortest(es, keys, stype, n);
            v.Some? ==> v.value in es && Live(v.value, stype) && n <= |v.value.input| && v.value.input <= keys
    decreases |keys| - n
  {
    if n <= |keys| { ShortestMeans(es, keys, stype, n + 1); }
  }

  /** What the early-stopping list search finds is what the plain search finds. */
  lemma {:induction false} SearchIsPlain(es: seq<Entry>, keys: string, stype: SeqType, found: Option<nat>)
    requires Ordered(es)
    requires found.Some? <==> HasPrefix(es, keys, stype)
    requires found.Some? ==> ShortestPrefix(es, found.value, keys, stype)
    ensures Shortest(es, keys, stype, 0) == if found.Some? then Some(es[found.value]) else None
  {
    hide Ordered, Bound, Shortest;
    if found.Some? {
      ShortestPrefixIsBound(es, found.value, keys, stype);
      var input := es[found.value].input;
      assert keys[..|input|] == input;
      ShortestIs(es, keys, stype, 0, |input|);
    } else {
      ShortestNone(es, keys, stype, 0);
    }
  }

  // ----- the code ---------------------------------------------------------------------------------

  lemma {:induction false} DiffPrefix(a: string, b: string, n: nat)
    requires n <= |a| && n <= |b| && (n == |a| || n == |b|)
    ensures Diff(a[..n], b[..n]) == Diff(a, b)
  {
    if n > 0 {
      DiffPrefix(a[1..], b[1..], n - 1);
      assert a[..n][1..] == a[1..][..n - 1] && b[..n][1..] == b[1..][..n - 1];
    }
  }

  function Cap(a: string, n: nat): string {
    if n <= |a| then a[..n] else a
  }

  /** e_memcmp, and the sign of memcmp: it looks no further than the first difference. */
  method EMemCmp(p1: string, ep: string, n: nat) returns (diff: int)
    requires n <= |ep| && (n <= |p1| || Diff(p1, ep[..n]) != 0)
    ensures diff == Diff(Cap(p1, n), ep[..n])
  {
    ghost var a, b := Cap(p1, n), ep[..n];
    var i := 0;
    while i < n
      invariant i <= n && i <= |a|
      invariant Diff(a[i..], b[i..]) == Diff(a, b)
    {
      assert i < |a|;
      assert a[i..][1..] == a[i + 1..] && b[i..][1..] == b[i + 1..];
      if p1[i] != ep[i] { return p1[i] as int - ep[i] as int; }
      i := i + 1;
    }
    return 0;
  }

  /** An entry the search has gone by. */
  predicate Passed(e: Entry, keys: string, stype: SeqType, terminal: bool) {
    && !Beyond(e, keys, stype)
    && (Live(e, stype) ==> e.input != keys && !(keys < e.input) && (terminal ==> !(e.input <= keys)))
  }

  lemma {:induction false} SkipPasses(e: Entry, keys: string, stype: SeqType, terminal: bool)
    requires e.input != "" && keys != "" && e.input[0] <= keys[0]
    requires e.input[0] < keys[0] || !Live(e, stype) || Diff(e.input, keys) < 0
          || (Diff(e.input, keys) == 0 && |e.input| < |keys| && !terminal)
    ensures Passed(e, keys, stype, terminal)
  {
    DiffZero(e.input, keys);
  }

  lemma {:induction false} FirstPrefixIsShortest(es: seq<Entry>, i: nat, keys: string, stype: SeqType)
    requires Ordered(es) && i < |es| && Live(es[i], stype) && es[i].input <= keys
    requires forall j :: 0 <= j < i ==> Passed(es[j], keys, stype, true)
    ensures ShortestPrefix(es, i, keys, stype)
  {
    forall j | 0 <= j < |es| && Live(es[j], stype) && es[j].input <= keys
      ensures |es[i].input| <= |es[j].input|
    {
      if j > i {
        var a, b := es[i].input, es[j].input;
        assert Less(a, b);
        if |b| <= |a| { assert b == keys[..|b|] == a[..|b|]; }
        DiffZero(a, b);
      }
    }
  }

  /** A search that has gone by every entry, or stopped at one beyond the keys. */
  lemma {:induction false} Stopped(es: seq<Entry>, i: nat, keys: string, stype: SeqType, terminal: bool)
    requires Ordered(es) && keys != "" && i <= |es|
    requires forall j :: 0 <= j < i ==> Passed(es[j], keys, stype, terminal)
    requires i < |es| ==> Beyond(es[i], keys, stype)
    ensures !Present(es, keys, stype) && Place(es, keys, stype) == i
    ensures terminal ==> !HasPrefix(es, keys, stype)
    ensures HasExtension(es, keys, stype) <==> i < |es| && es[i].input[0] == keys[0] && Diff(es[i].input, keys) == 0
  {
    hide Less, Diff, Ordered;
    var p := Place(es, keys, stype);
    assert p >= i;
    forall j | 0 <= j < |es| && Live(es[j], stype)
      ensures es[j].input != keys && (terminal ==> !(es[j].input <= keys))
      ensures keys < es[j].input ==> i < |es| && es[i].input[0] == keys[0] && Diff(es[i].input, keys) == 0
    {
      if j < i {
        assert Passed(es[j], keys, stype, terminal);
      } else {
        RestAbove(es, i, j, keys, stype);
        DiffZero(es[j].input, keys);
        StopsAt(es[i], keys, stype);
      }
    }
    if i < |es| && es[i].input[0] == keys[0] && Diff(es[i].input, keys) == 0 {
      StopsAt(es[i], keys, stype);
      assert keys < es[i].input;
    }
  }

  lemma {:induction false} Exceeds(e: Entry, keys: string, stype: SeqType)
    requires e.input != "" && keys != ""
    requires e.input[0] > keys[0] || (Live(e, stype) && (Diff(e.input, keys) > 0 || (Diff(e.input, keys) == 0 && |e.input| > |keys|)))
    ensures Beyond(e, keys, stype)
    ensures e.input[0] > keys[0] ==> Diff(e.input, keys) > 0
  {
    DiffZero(e.input, keys);
  }

  lemma {:induction false} FoundAt(es: seq<Entry>, i: nat, keys: string, stype: SeqType, terminal: bool)
    requires Ordered(es) && i < |es| && Live(es[i], stype) && es[i].input <= keys
    requires forall j :: 0 <= j < i ==> Passed(es[j], keys, stype, terminal)
    requires terminal || |es[i].input| == |keys|
    ensures terminal ==> HasPrefix(es, keys, stype) && ShortestPrefix(es, i, keys, stype)
    ensures !terminal ==> Present(es, keys, stype) && Position(es, keys, stype) == i
  {
    hide Ordered, Passed, Less;
    if terminal { FirstPrefixIsShortest(es, i, keys, stype); } else { OnlyOne(es, i, keys, stype); }
  }

  lemma {:induction false} StopsAt(e: Entry, keys: string, stype: SeqType)
    requires Beyond(e, keys, stype)
    ensures e.input[0] > keys[0] || Diff(e.input, keys) > 0 || (Live(e, stype) && Diff(e.input, keys) == 0 && keys < e.input)
  {
    DiffZero(e.input, keys);
  }

  class SeqTable {
    var seqq: seq<Entry>
    const seqb: array<bool>

    /** No character that begins an entry has its bit clear. */
    ghost predicate Indexed()
      reads this, seqb
    {
      seqb.Length == MAX_BIT_SEQ &&
      forall e :: e in seqq && e.input != "" && e.input[0] as int < MAX_BIT_SEQ ==> seqb[e.input[0] as int]
    }

    ghost predicate Valid()
      reads this, seqb
    {
      Ordered(seqq) && Indexed()
    }

    constructor ()
      ensures Valid() && seqq == [] && fresh(seqb)
    {
      seqq := [];
      seqb := new bool[MAX_BIT_SEQ](_ => false);
    }

    /** seq_find; terminal is a caller that passes ispartialp. */
    method SeqFind(keys: string, stype: SeqType, terminal: bool)
      returns (found: Option<nat>, last: int, partial: bool)
      requires Valid() && keys != ""
      ensures found.Some? ==> found.value < |seqq| && last == found.value - 1
      ensures !terminal ==> !partial && found == (if Present(seqq, keys, stype) then Some(Position(seqq, keys, stype)) else None)
      ensures !terminal && found.None? ==> last + 1 == Place(seqq, keys, stype)
      ensures terminal ==> (found.Some? <==> HasPrefix(seqq, keys, stype))
      ensures terminal && found.Some? ==> ShortestPrefix(seqq, found.value, keys, stype)
      ensures terminal ==> (partial <==> found.None? && HasExtension(seqq, keys, stype))
    {
      hide Beyond, Passed, Less, Diff, Place, Position;
      partial := false;
      var lqp, qp := -1, 0;
      while qp < |seqq|
        invariant lqp == qp - 1 && 0 <= qp <= |seqq|
        invariant forall j :: 0 <= j < qp ==> Passed(seqq[j], keys, stype, terminal)
        invariant !partial
      {
        var e := seqq[qp];
        if e.input[0] > keys[0] {
          Exceeds(e, keys, stype);
          break;
        }
        if e.input[0] < keys[0] || e.stype != stype || e.funcMap {
          SkipPasses(e, keys, stype, terminal);
          lqp, qp := qp, qp + 1;
          continue;
        }
        var n := if |e.input| < |keys| then |e.input| else |keys|;
        var diff := EMemCmp(e.input, keys, n);
        DiffPrefix(e.input, keys, n);
        DiffZero(e.input, keys);
        if diff > 0 {
          Exceeds(e, keys, stype);
          break;
        }
        if diff < 0 {
          SkipPasses(e, keys, stype, terminal);
          lqp, qp := qp, qp + 1;
          continue;
        }
        if |e.input| <= |keys| {
          if |e.input| == |keys| || terminal {
            FoundAt(seqq, qp, keys, stype, terminal);
            return Some(qp), lqp, false;
          }
          SkipPasses(e, keys, stype, terminal);
          lqp, qp := qp, qp + 1;
          continue;
        }
        if terminal { partial := true; }
        Exceeds(e, keys, stype);
        break;
      }
      Stopped(seqq, qp, keys, stype, terminal);
      PositionFinds(seqq, keys, stype);
      return None, lqp, partial;
    }

    /** seq_set: flags and name matter only for a new entry. */
    method SeqSet(name: string, input: string, output: Option<string>, stype: SeqType, flags: Flags)
      requires Valid() && input != ""
      modifies this, seqb
      ensures Valid()
      ensures seqq == old(Entered(seqq, Entry(name, input, output, stype, flags.funcMap, flags.userDef, flags.screen),
                                  flags.noOverwrite))
    {
      hide Ordered, Place, Position, Beyond;
      var e := Entry(name, input, output, stype, flags.funcMap, flags.userDef, flags.screen);
      EnteredKeepsOrder(seqq, e, flags.noOverwrite);
      PositionFinds(seqq, input, stype);
      var found, last, _ := SeqFind(input, stype, false);
      if found.Some? {
        if flags.noOverwrite { return; }
        var p := found.value;
        var now := seqq[p].(output := if output.None? || output.value == "" then None else output);
        ReplacedMembers(seqq, p, now);
        seqq := seqq[p := now];
      } else {
        var p := last + 1;
        InsertedMembers(seqq, p, e);
        seqq := seqq[..p] + [e] + seqq[p..];
        if input[0] as int < MAX_BIT_SEQ { seqb[input[0] as int] := true; }
      }
    }

    /** seq_mdel: the entry is unlinked, its bit stays. */
    method SeqMdel(i: nat)
      requires Valid() && i < |seqq|
      modifies this`seqq
      ensures Valid() && seqq == old(Dropped(seqq, i))
    {
      hide Ordered;
      DroppedKeepsOrder(seqq, i);
      DroppedMembers(seqq, i);
      seqq := seqq[..i] + seqq[i + 1..];
    }

    method SeqDelete(keys: string, stype: SeqType) returns (failed: bool)
      requires Valid() && keys != ""
      modifies this`seqq
      ensures Valid() && seqq == old(Deleted(seqq, keys, stype))
      ensures failed <==> old(!Present(seqq, keys, stype))
    {
      hide Ordered;
      PositionFinds(seqq, keys, stype);
      var found, _, _ := SeqFind(keys, stype, false);
      if found.None? { return true; }
      SeqMdel(found.value);
      return false;
    }

    /** cl_term_end's walk. */
    method TermEnd()
      requires Valid()
      modifies this`seqq
      ensures Valid() && seqq == old(WithoutScreen(seqq))
    {
      hide Ordered;
      var qp := 0;
      while qp < |seqq|
        invariant 0 <= qp <= |seqq| && Valid()
        invariant seqq[..qp] + WithoutScreen(seqq[qp..]) == old(WithoutScreen(seqq))
        decreases |seqq| - qp
      {
        TermEndStep(seqq, qp);
        if seqq[qp].screen { SeqMdel(qp); } else { qp := qp + 1; }
      }
      assert seqq[..qp] == seqq && seqq[qp..] == [];
    }

    /** v_event_get's lookup: the bitmap first, then the list. The bitmap never hides a mapping. */
    method Lookup(keys: string, stype: SeqType) returns (found: Option<nat>, partial: bool)
      requires Valid() && keys != ""
      ensures found.Some? ==> found.value < |seqq|
      ensures Shortest(seqq, keys, stype, 0) == if found.Some? then Some(seqq[found.value]) else None
      ensures partial <==> found.None? && HasExtension(seqq, keys, stype)
    {
      hide Ordered, Shortest;
      if keys[0] as int < MAX_BIT_SEQ && !seqb[keys[0] as int] {
        Hidden(seqq, keys, stype);
        SearchIsPlain(seqq, keys, stype, None);
        return None, false;
      }
      var last: int;
      found, last, partial := SeqFind(keys, stype, true);
      SearchIsPlain(seqq, keys, stype, found);
    }
  }

  lemma {:induction false} Hidden(es: seq<Entry>, keys: string, stype: SeqType)
    requires Ordered(es) && keys != ""
    requires forall e :: e in es && e.input != "" ==> e.input[0] != keys[0]
    ensures !HasPrefix(es, keys, stype) && !HasExtension(es, keys, stype)
  {
    assert forall j :: 0 <= j < |es| ==> es[j] in es && es[j].input != "";
  }

  lemma {:induction false} TermEndStep(es: seq<Entry>, i: nat)
    requires i < |es|
    ensures es[i].screen ==> Dropped(es, i)[..i] == es[..i] && Dropped(es, i)[i..] == es[i + 1..]
    ensures es[i].screen ==> es[..i] + WithoutScreen(es[i + 1..]) == es[..i] + WithoutScreen(es[i..])
    ensures !es[i].screen ==> es[..i + 1] + WithoutScreen(es[i + 1..]) == es[..i] + WithoutScreen(es[i..])
  {
    assert es[i..][1..] == es[i + 1..];
  }
}
