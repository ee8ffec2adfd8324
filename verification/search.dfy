/** `list_belong` / `list_belong6`: the membership search over a sorted
    table of ranges, and `list_check` / `list_check6`, which turn its answer
    into the program's verdict for the filter mode.

    The search is specified by `Probe`, the sequence of positions the loop
    visits, over the table read as number intervals.  It is always sound;
    it is complete when both the lower and the upper ends ascend, and a
    table with nested ranges can make it miss (`NestedRangeMissed`).
    `BelongRaised` is the same search over a table whose upper ends have
    been raised to their running maximum, and it is exact on every table
    sorted by lower end. */
module Search {
  import opened Bits
  import opened Addr6
  import opened Ranges

  /** Some entry of the table holds `a`. */
  ghost predicate Covered(t: seq<Span>, a: int)
  {
    exists i :: 0 <= i < |t| && Holds(t[i], a)
  }

  /** The forward step `MAX(1, (pos_end - pos) / 2)`. */
  function Step(pos: nat, posEnd: nat): (k: nat)
    requires pos < posEnd
    ensures 1 <= k && pos + k <= posEnd
    ensures pos + k == posEnd ==> pos + 1 == posEnd
  {
    var half := (posEnd - pos) / 2;
    if 1 > half then 1 else half
  }

  /** The answer of the search loop from the state `pos`, `pos_end`: below
      the lower end of entry `pos` the end moves down to `pos` and the
      position halves; inside entry `pos` it is a hit; above it the
      position moves forward. */
  function Probe(t: seq<Span>, a: int, pos: nat, posEnd: nat): bool
    requires pos <= posEnd <= |t|
    decreases posEnd, posEnd - pos
  {
    if pos == posEnd then false
    else if a < t[pos].lo then Probe(t, a, pos / 2, pos)
    else if a <= t[pos].hi then true
    else Probe(t, a, pos + Step(pos, posEnd), posEnd)
  }

  /** The search starts in the middle with the whole table in range. */
  function Belong(t: seq<Span>, a: int): bool
  {
    Probe(t, a, |t| / 2, |t|)
  }

  // ---------------------------------------------------------------------
  // Soundness and completeness

  lemma {:induction false} ProbeSound(t: seq<Span>, a: int, pos: nat, posEnd: nat)
    requires pos <= posEnd <= |t|
    ensures Probe(t, a, pos, posEnd) ==> exists i :: 0 <= i < posEnd && Holds(t[i], a)
    decreases posEnd, posEnd - pos
  {
    if pos < posEnd {
      if a < t[pos].lo {
        ProbeSound(t, a, pos / 2, pos);
      } else if a <= t[pos].hi {
        assert Holds(t[pos], a);
      } else {
        ProbeSound(t, a, pos + Step(pos, posEnd), posEnd);
      }
    }
  }

  /** A hit is always a real one, on any table; an empty table never hits. */
  lemma BelongSound(t: seq<Span>, a: int)
    ensures Belong(t, a) ==> Covered(t, a)
    ensures |t| == 0 ==> !Belong(t, a)
  {
    ProbeSound(t, a, |t| / 2, |t|);
  }

  /** With both ends ascending, the loop state keeps two facts: every entry
      from `pos_end` on starts above `a`, and a loop that has stopped
      (`pos == pos_end`) stopped just above an entry that ends below `a`.
      From such a state the search hits exactly when some entry holds `a`. */
  lemma {:induction false} ProbeExact(t: seq<Span>, a: int, pos: nat, posEnd: nat)
    requires pos <= posEnd <= |t|
    requires LowsAscending(t) && HighsAscending(t)
    requires forall j :: posEnd <= j < |t| ==> a < t[j].lo
    requires pos == posEnd ==> posEnd == 0 || t[posEnd - 1].hi < a
    ensures Probe(t, a, pos, posEnd) <==> Covered(t, a)
    decreases posEnd, posEnd - pos
  {
    if pos == posEnd {
      forall i | 0 <= i < |t|
        ensures !Holds(t[i], a)
      {
        if i < posEnd - 1 {
          assert t[i].hi <= t[posEnd - 1].hi;
        }
      }
    } else if a < t[pos].lo {
      forall j | pos < j < |t|
        ensures a < t[j].lo
      {
        assert t[pos].lo <= t[j].lo;
      }
      ProbeExact(t, a, pos / 2, pos);
    } else if a <= t[pos].hi {
      assert Holds(t[pos], a);
    } else {
      ProbeExact(t, a, pos + Step(pos, posEnd), posEnd);
    }
  }

  /** On a table whose lower and upper ends both ascend, the search hits
      exactly when some entry holds `a`. */
  lemma BelongExact(t: seq<Span>, a: int)
    requires LowsAscending(t) && HighsAscending(t)
    ensures Belong(t, a) <==> Covered(t, a)
  {
    ProbeExact(t, a, |t| / 2, |t|);
  }

  // ---------------------------------------------------------------------
  // Nested ranges

  /** `10.0.0.0/8` and `10.1.0.0/16` as sorted by `cmp_ipr`. */
  function NestedTable(): seq<Range4>
  {
    [Range4(0x0A00_0000, 0x0AFF_FFFF), Range4(0x0A01_0000, 0x0A01_FFFF)]
  }

  /** `10.2.0.0` lies in the /8, but the search steps past the /16 and stops:
      the table is sorted, yet the address is reported as not listed. */
  lemma NestedRangeMissed()
    ensures SortedIpr(NestedTable())
    ensures Covered(Spans4(NestedTable()), 0x0A02_0000)
    ensures !Belong(Spans4(NestedTable()), 0x0A02_0000)
  {
    var t := Spans4(NestedTable());
    assert Holds(t[0], 0x0A02_0000);
    assert Step(1, 2) == 1;
    assert Belong(t, 0x0A02_0000) == Probe(t, 0x0A02_0000, 2, 2);
  }

  /** The index of the highest upper end among entries `0..i`. */
  function HighestUpTo(t: seq<Span>, i: nat): (k: nat)
    requires i < |t|
    ensures k <= i && forall j :: 0 <= j <= i ==> t[j].hi <= t[k].hi
  {
    if i == 0 then 0
    else
      var k := HighestUpTo(t, i - 1);
      if t[k].hi < t[i].hi then i else k
  }

  /** Each upper end raised to the highest upper end at or before it. */
  function RaiseHighs(t: seq<Span>): (r: seq<Span>)
    ensures |r| == |t|
  {
    seq(|t|, i requires 0 <= i < |t| => Span(t[i].lo, t[HighestUpTo(t, i)].hi))
  }

  /** The corrected search: the same loop over the raised table. */
  function BelongRaised(t: seq<Span>, a: int): bool
  {
    Belong(RaiseHighs(t), a)
  }

  /** Raising keeps the lower ends, never lowers an upper end, and makes
      the upper ends ascend. */
  lemma RaiseHighsShape(t: seq<Span>)
    ensures forall i :: 0 <= i < |t| ==> RaiseHighs(t)[i].lo == t[i].lo && t[i].hi <= RaiseHighs(t)[i].hi
    ensures HighsAscending(RaiseHighs(t))
  {
    var r := RaiseHighs(t);
    forall i, j | 0 <= i < j < |t|
      ensures r[i].hi <= r[j].hi
    {
      var ki := HighestUpTo(t, i);
      assert ki <= j;
    }
  }

  /** Every entry holding `a` still holds it once raised. */
  lemma RaiseKeepsCover(t: seq<Span>, a: int)
    requires Covered(t, a)
    ensures Covered(RaiseHighs(t), a)
  {
    RaiseHighsShape(t);
    var i :| 0 <= i < |t| && Holds(t[i], a);
    assert Holds(RaiseHighs(t)[i], a);
  }

  /** On a table sorted by lower end, a raised entry `i` holding `a` means
      the entry it took its upper end from holds `a`. */
  lemma RaiseAddsNothing(t: seq<Span>, a: int, i: nat)
    requires LowsAscending(t) && i < |t| && Holds(RaiseHighs(t)[i], a)
    ensures Holds(t[HighestUpTo(t, i)], a)
  {
    var k := HighestUpTo(t, i);
    assert RaiseHighs(t)[i] == Span(t[i].lo, t[k].hi);
    if k < i {
      assert t[k].lo <= t[i].lo;
    }
  }

  /** Raising keeps a table sorted by lower end. */
  lemma RaiseKeepsLows(t: seq<Span>)
    requires LowsAscending(t)
    ensures LowsAscending(RaiseHighs(t))
  {
    RaiseHighsShape(t);
  }

  /** The corrected search is exact on every table sorted by lower end,
      nested ranges included. */
  lemma BelongRaisedExact(t: seq<Span>, a: int)
    requires LowsAscending(t)
    ensures BelongRaised(t, a) <==> Covered(t, a)
  {
    RaiseHighsShape(t);
    RaiseKeepsLows(t);
    if Covered(t, a) {
      RaiseKeepsCover(t, a);
    }
    if Covered(RaiseHighs(t), a) {
      var i :| 0 <= i < |t| && Holds(RaiseHighs(t)[i], a);
      RaiseAddsNothing(t, a, i);
    }
    BelongExact(RaiseHighs(t), a);
  }

  // ---------------------------------------------------------------------
  // The loops

  /** `list_belong`: the search over the first `ipct` entries. */
  method ListBelong(iplist: array?<Range4>, ipct: U32, a: U32) returns (b: bool)
    requires iplist == null ==> ipct == 0
    requires iplist != null ==> ipct <= iplist.Length
    ensures b == Belong(Spans4(Entries(iplist, ipct)), a)
    ensures b ==> exists i :: 0 <= i < ipct && Entries(iplist, ipct)[i].ip1 <= a <= Entries(iplist, ipct)[i].ip2
  {
    ghost var t := Spans4(Entries(iplist, ipct));
    BelongSound(t, a);
    var pos: U32 := ipct / 2;
    var posStart: U32 := 0;
    var posEnd: U32 := ipct;
    while pos < posEnd
      invariant pos <= posEnd <= ipct
      invariant Probe(t, a, pos, posEnd) == Belong(t, a)
      decreases posEnd, posEnd - pos
    {
      if a < iplist[pos].ip1 {
        posEnd := pos;
        pos := pos / 2;
      } else if a <= iplist[pos].ip2 {
        return true;
      } else {
        posStart := pos + 1;
        pos := pos + Step(pos, posEnd);
      }
    }
    return false;
  }

  /** `list_belong6`: the same search, comparing with `cmp6`. */
  method ListBelong6(iplist: array?<Range6>, ipct: U32, a: In6Addr) returns (b: bool)
    requires iplist == null ==> ipct == 0
    requires iplist != null ==> ipct <= iplist.Length
    ensures b == Belong(Spans6(Entries(iplist, ipct)), Value(a))
    ensures b ==> exists i :: 0 <= i < ipct && Value(Entries(iplist, ipct)[i].ip1) <= Value(a) <= Value(Entries(iplist, ipct)[i].ip2)
  {
    ghost var t := Spans6(Entries(iplist, ipct));
    BelongSound(t, Value(a));
    var pos: U32 := ipct / 2;
    var posStart: U32 := 0;
    var posEnd: U32 := ipct;
    while pos < posEnd
      invariant pos <= posEnd <= ipct
      invariant Probe(t, Value(a), pos, posEnd) == Belong(t, Value(a))
      decreases posEnd, posEnd - pos
    {
      assert t[pos] == Span6(iplist[pos]);
      if Cmp6(a, iplist[pos].ip1) < 0 {
        posEnd := pos;
        pos := pos / 2;
      } else if Cmp6(a, iplist[pos].ip2) <= 0 {
        return true;
      } else {
        posStart := pos + 1;
        pos := pos + Step(pos, posEnd);
      }
    }
    return false;
  }

  // ---------------------------------------------------------------------
  // Verdicts

  /** `t_filter_mode`. */
  datatype Mode = Undef | Exclude | Intersect

  /** What `list_check` answers when the search found `b`: nothing passes
      without a mode; `exclude` passes the addresses not found,
      `intersect` the found ones. */
  predicate Verdict(mode: Mode, b: bool)
  {
    (mode == Exclude && !b) || (mode == Intersect && b)
  }

  /** `list_check`: the mode is checked before any search is made. */
  method ListCheck(mode: Mode, iplist: array?<Range4>, ipct: U32, a: U32) returns (r: bool)
    requires iplist == null ==> ipct == 0
    requires iplist != null ==> ipct <= iplist.Length
    ensures mode == Undef ==> !r
    ensures mode == Exclude ==> r == !Belong(Spans4(Entries(iplist, ipct)), a)
    ensures mode == Intersect ==> r == Belong(Spans4(Entries(iplist, ipct)), a)
    ensures r == Verdict(mode, Belong(Spans4(Entries(iplist, ipct)), a))
  {
    if mode != Exclude && mode != Intersect {
      return false;
    }
    var b := ListBelong(iplist, ipct, a);
    r := (mode == Exclude && !b) || (mode == Intersect && b);
  }

  /** `list_check6`. */
  method ListCheck6(mode: Mode, iplist: array?<Range6>, ipct: U32, a: In6Addr) returns (r: bool)
    requires iplist == null ==> ipct == 0
    requires iplist != null ==> ipct <= iplist.Length
    ensures mode == Undef ==> !r
    ensures mode == Exclude ==> r == !Belong(Spans6(Entries(iplist, ipct)), Value(a))
    ensures mode == Intersect ==> r == Belong(Spans6(Entries(iplist, ipct)), Value(a))
    ensures r == Verdict(mode, Belong(Spans6(Entries(iplist, ipct)), Value(a)))
  {
    if mode != Exclude && mode != Intersect {
      return false;
    }
    var b := ListBelong6(iplist, ipct, a);
    r := (mode == Exclude && !b) || (mode == Intersect && b);
  }
}
