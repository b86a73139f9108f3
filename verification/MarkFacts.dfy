/** Laws of the sorted mark list. */
module MarkFacts {
  import opened Store

  lemma {:induction false} RankIs(ms: seq<LMark>, key: char, k: nat)
    requires k <= |ms|
    requires forall i :: 0 <= i < k ==> ms[i].name < key
    requires k < |ms| ==> ms[k].name >= key
    ensures Rank(ms, key) == k
  {
    if k > 0 {
      RankIs(ms[1..], key, k - 1);
    }
  }

  lemma {:induction false} RankSplits(ms: seq<LMark>, key: char)
    ensures forall i :: 0 <= i < Rank(ms, key) ==> ms[i].name < key
    ensures Rank(ms, key) < |ms| ==> ms[Rank(ms, key)].name >= key
  {
    if ms != [] && ms[0].name < key {
      RankSplits(ms[1..], key);
    }
  }

  lemma {:induction false} SortedKept(ms: seq<LMark>, ns: seq<LMark>)
    requires Sorted(ms) && |ms| == |ns|
    requires forall i :: 0 <= i < |ms| ==> ms[i].name == ns[i].name
    ensures Sorted(ns)
  {
  }

  lemma {:induction false} SetKeepsSorted(ms: seq<LMark>, name: char, m: Mark, userset: bool)
    requires Sorted(ms)
    ensures Sorted(MarksSet(ms, name, m, userset))
  {
    RankSplits(ms, MarkKey(name));
  }

  /** In a sorted list a name is looked up by its rank. */
  lemma {:induction false} LookupByRank(ms: seq<LMark>, key: char)
    requires Sorted(ms)
    ensures var r := Rank(ms, key);
            Lookup(ms, key) == if r < |ms| && ms[r].name == key then Some(ms[r]) else None
  {
    if ms == [] {
    } else if ms[0].name < key {
      LookupByRank(ms[1..], key);
    } else if ms[0].name > key {
      LookupAbsent(ms, key);
    }
  }

  lemma {:induction false} LookupAbsent(ms: seq<LMark>, key: char)
    requires forall i :: 0 <= i < |ms| ==> ms[i].name != key
    ensures Lookup(ms, key) == None
  {
    if ms != [] {
      LookupAbsent(ms[1..], key);
    }
  }

  lemma {:induction false} LookupAt(ms: seq<LMark>, i: nat)
    requires Sorted(ms) && i < |ms|
    ensures Lookup(ms, ms[i].name) == Some(ms[i])
  {
    if i > 0 {
      assert ms[0].name < ms[i].name;
      LookupAt(ms[1..], i - 1);
    }
  }

  lemma {:induction false} LookupFinds(ms: seq<LMark>, key: char) returns (i: nat)
    requires Lookup(ms, key).Some?
    ensures i < |ms| && ms[i] == Lookup(ms, key).value && ms[i].name == key
  {
    if ms[0].name == key {
      i := 0;
    } else {
      var j := LookupFinds(ms[1..], key);
      i := j + 1;
    }
  }

  /** mark_set never files an entry under the second name of the absolute mark. */
  ghost predicate MarksOk(ms: seq<LMark>) {
    Sorted(ms) && forall i :: 0 <= i < |ms| ==> ms[i].name != ABSMARK2
  }

  /** What mark_set does to the entry for its own key. */
  function SetEntry(old_: Option<LMark>, key: char, m: Mark, userset: bool): LMark {
    if old_.Some? && !userset && !old_.value.deleted && old_.value.userset then old_.value
    else LMark(key, m.lno, m.cno, false, userset)
  }

  /** mark_set replaces the entry at the rank of the key, or puts one there. */
  lemma {:induction false} SetShape(ms: seq<LMark>, name: char, m: Mark, userset: bool)
    requires MarksOk(ms)
    ensures var key, ns := MarkKey(name), MarksSet(ms, name, m, userset);
            var r := Rank(ms, key);
            && r < |ns| && ns[r] == SetEntry(Lookup(ms, key), key, m, userset) && ns[r].name == key
            && (forall i :: 0 <= i < r ==> ns[i] == ms[i])
            && if r < |ms| && ms[r].name == key then |ns| == |ms| && forall i :: r < i < |ms| ==> ns[i] == ms[i]
               else |ns| == |ms| + 1 && forall i :: r <= i < |ms| ==> ns[i + 1] == ms[i]
  {
    hide Lookup, Sorted;
    LookupByRank(ms, MarkKey(name));
  }

  lemma {:induction false} SetKeepsOk(ms: seq<LMark>, name: char, m: Mark, userset: bool)
    requires MarksOk(ms)
    ensures MarksOk(MarksSet(ms, name, m, userset))
  {
    hide Lookup, Sorted, MarksSet;
    SetKeepsSorted(ms, name, m, userset);
    SetShape(ms, name, m, userset);
    var ns, r := MarksSet(ms, name, m, userset), Rank(ms, MarkKey(name));
    forall i | 0 <= i < |ns| ensures ns[i].name != ABSMARK2 {
      if i > r && |ns| == |ms| + 1 { assert ns[i] == ms[i - 1]; }
    }
  }

  lemma {:induction false} LookupSet(ms: seq<LMark>, name: char, m: Mark, userset: bool, x: char)
    requires MarksOk(ms)
    ensures var ns := MarksSet(ms, name, m, userset);
            && MarksOk(ns)
            && Lookup(ns, x) == if x == MarkKey(name) then Some(SetEntry(Lookup(ms, x), x, m, userset)) else Lookup(ms, x)
  {
    hide Lookup, Sorted, MarksSet, SetEntry;
    var ns, r := MarksSet(ms, name, m, userset), Rank(ms, MarkKey(name));
    SetKeepsOk(ms, name, m, userset);
    SetShape(ms, name, m, userset);
    if x == MarkKey(name) {
      LookupAt(ns, r);
    } else {
      LookupSame(ms, ns, x, r);
    }
  }

  /** What mark_set leaves under a name; the two names of the absolute mark are one. A mark that is not the user's
      does not replace a live one that is. */
  lemma {:induction false} SetMeans(ms: seq<LMark>, name: char, m: Mark, userset: bool)
    requires MarksOk(ms)
    ensures var key := if name == '`' then '\'' else name;
            var was := Lookup(ms, key);
            Lookup(MarksSet(ms, name, m, userset), key) ==
            if !userset && was.Some? && was.value.userset && !was.value.deleted then was
            else Some(LMark(key, m.lno, m.cno, false, userset))
  {
    hide MarksSet, Lookup;
    LookupSet(ms, name, m, userset, MarkKey(name));
  }

  /** Two sorted lists agree on x when each entry for x in one is an entry of the other. */
  lemma {:induction false} LookupSame(ms: seq<LMark>, ns: seq<LMark>, x: char, r: nat)
    requires Sorted(ms) && Sorted(ns) && r <= |ms| <= |ns|
    requires |ns| == |ms| || |ns| == |ms| + 1
    requires forall i :: 0 <= i < r ==> ns[i] == ms[i]
    requires |ns| == |ms| ==> forall i :: r < i < |ms| ==> ns[i] == ms[i]
    requires |ns| == |ms| + 1 ==> forall i :: r <= i < |ms| ==> ns[i + 1] == ms[i]
    requires r < |ns| && ns[r].name != x && (|ns| == |ms| && r < |ms| ==> ms[r].name != x)
    ensures Lookup(ns, x) == Lookup(ms, x)
  {
    if Lookup(ms, x).Some? {
      var i := LookupFinds(ms, x);
      LookupAt(ns, if i < r || |ns| == |ms| then i else i + 1);
    } else if Lookup(ns, x).Some? {
      var i := LookupFinds(ns, x);
      LookupAt(ms, if i < r || |ns| == |ms| then i else i - 1);
    }
  }

  lemma {:induction false} LookupDelete(ms: seq<LMark>, lno: nat, x: char)
    requires MarksOk(ms)
    ensures var ns := MarksDelete(ms, lno);
            && MarksOk(ns)
            && Lookup(ns, x) == match Lookup(ms, x) case None => None case Some(m) => Some(MarkOnDelete(m, lno))
  {
    LookupMapped(ms, MarksDelete(ms, lno), x);
    if Lookup(ms, x).Some? {
      var i := LookupFinds(ms, x);
    }
  }

  lemma {:induction false} LookupInsert(ms: seq<LMark>, lno: nat, x: char)
    requires MarksOk(ms)
    ensures var ns := MarksInsert(ms, lno);
            && MarksOk(ns)
            && Lookup(ns, x) == match Lookup(ms, x) case None => None case Some(m) => Some(MarkOnInsert(m, lno))
  {
    LookupMapped(ms, MarksInsert(ms, lno), x);
    if Lookup(ms, x).Some? {
      var i := LookupFinds(ms, x);
    }
  }

  /** Renumbering entry by entry keeps the list in order and every name in its place. */
  lemma {:induction false} LookupMapped(ms: seq<LMark>, ns: seq<LMark>, x: char)
    requires MarksOk(ms) && |ns| == |ms|
    requires forall i :: 0 <= i < |ms| ==> ms[i].name == ns[i].name
    ensures MarksOk(ns)
    ensures Lookup(ms, x).None? ==> Lookup(ns, x).None?
    ensures forall i :: 0 <= i < |ms| && ms[i].name == x ==> Lookup(ns, x) == Some(ns[i]) && Lookup(ms, x) == Some(ms[i])
  {
    if Lookup(ns, x).Some? {
      var i := LookupFinds(ns, x);
      LookupAt(ms, i);
    }
    forall i | 0 <= i < |ms| && ms[i].name == x
      ensures Lookup(ns, x) == Some(ns[i]) && Lookup(ms, x) == Some(ms[i])
    {
      LookupAt(ns, i);
      LookupAt(ms, i);
    }
  }
}
