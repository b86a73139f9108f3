/** ex_g_insdel's walk over one command's list of pending ranges. */
module Ranges {
  import opened Store

  ghost function Adjusted(rs: seq<Range>, del: bool, lno: nat): seq<Range>
    requires lno >= 1
  {
    if del then RangesDelete(rs, lno) else RangesInsert(rs, lno)
  }

  /** Where the lines of a range are after a deletion: beyond the range it makes no difference; within it the lines
      behind it are one up; and at or before its first line all of them are, that line too. */
  lemma {:induction false} DeletedFrom(r: Range, lno: nat, n: nat)
    requires lno >= 1
    ensures var s := RangeOnDelete(r, lno);
            s.start <= n <= s.stop <==>
            if lno > r.stop then r.start <= n <= r.stop
            else if lno > r.start then r.start <= n < r.stop
            else r.start <= n + 1 <= r.stop
  {
  }

  /** And after an insertion: before a range it moves all of it one down; within one it leaves the lines before it
      and moves the others two down. */
  lemma {:induction false} InsertedInto(r: Range, lno: nat, n: nat)
    requires lno >= 1
    ensures (exists s :: s in RangeOnInsert(r, lno) && s.start <= n <= s.stop) <==>
            if lno > r.stop then r.start <= n <= r.stop
            else if lno <= r.start then r.start + 1 <= n <= r.stop + 1
            else r.start <= n < lno || lno + 2 <= n <= r.stop + 2
  {
    var rs := RangeOnInsert(r, lno);
    assert rs[0] in rs && rs[|rs| - 1] in rs;
  }

  /** Only @ commands with a range, and global and v commands, are followed; the last of the lines is kept. */
  lemma {:induction false} Followed(c: ExCmd, del: bool, lno: nat)
    requires lno >= 1
    ensures var d := CmdInsDel(c, del, lno);
            if c.agv == At || c.agv == Global || c.agv == GlobalV
            then d.ranges == Adjusted(c.ranges, del, lno) && d == c.(ranges := d.ranges, rangeLno := lno)
            else d == c
  {
  }

  lemma {:induction false} AdjustedCons(rp: Range, tail: seq<Range>, del: bool, lno: nat)
    requires lno >= 1
    ensures del ==> Adjusted([rp] + tail, del, lno) == [RangeOnDelete(rp, lno)] + Adjusted(tail, del, lno)
    ensures !del ==> Adjusted([rp] + tail, del, lno) == RangeOnInsert(rp, lno) + Adjusted(tail, del, lno)
  {
    assert ([rp] + tail)[1..] == tail;
  }

  /** One visit of the walk: the range is edited, and a split leaves a new range behind it. */
  method VisitRange(rp: Range, del: bool, lno: nat, ghost tail: seq<Range>)
    returns (now: Range, more: seq<Range>)
    requires lno >= 1
    ensures Adjusted([rp] + tail, del, lno) == [now] + Adjusted(more + tail, del, lno)
  {
    AdjustedCons(rp, tail, del, lno);
    now, more := rp, [];
    assert more + tail == tail;
    if rp.stop < lno {
    } else if rp.start >= lno {
      now := if del then Range(rp.start - 1, rp.stop - 1) else Range(rp.start + 1, rp.stop + 1);
    } else if del {
      now := Range(rp.start, rp.stop - 1);
    } else {
      now, more := Range(rp.start, lno - 1), [Range(lno + 1, rp.stop + 1)];
      AdjustedCons(more[0], tail, del, lno);
      Regrouped([], now, [Range(lno + 2, rp.stop + 2)] + Adjusted(tail, del, lno));
    }
  }

  lemma {:induction false} Regrouped<T>(a: seq<T>, x: T, b: seq<T>)
    ensures a + ([x] + b) == (a + [x]) + b
  {
  }

  /** The list is the part walked followed by the part to come; the upper half of a split
      goes onto the part to come. */
  method AdjustRanges(ranges: seq<Range>, del: bool, lno: nat) returns (rs: seq<Range>)
    requires lno >= 1
    ensures rs == Adjusted(ranges, del, lno)
  {
    hide Adjusted;
    rs := [];
    var rest := ranges;
    assert [] + Adjusted(rest, del, lno) == Adjusted(rest, del, lno);
    while rest != []
      invariant rs + Adjusted(rest, del, lno) == Adjusted(ranges, del, lno)
      decreases |Adjusted(rest, del, lno)|
    {
      var rp, tail := rest[0], rest[1..];
      assert rest == [rp] + tail;
      var now, more := VisitRange(rp, del, lno, tail);
      Regrouped(rs, now, Adjusted(more + tail, del, lno));
      rs, rest := rs + [now], more + tail;
    }
    NothingAdjusted(del, lno);
    assert rs + [] == rs;
  }

  lemma {:induction false} NothingAdjusted(del: bool, lno: nat)
    requires lno >= 1
    ensures Adjusted([], del, lno) == []
  {
  }
}
