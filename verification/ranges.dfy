/** `struct ip_range` and `struct ip_range6`: an interval of addresses
    `ip1..ip2`, and the comparators `cmp_ipr` / `cmp6_ipr` the table is
    sorted with.  Both tables are also projected onto plain number
    intervals (`Span`), which is what the membership search works on. */
module Ranges {
  import opened Bits
  import opened Addr4
  import opened Addr6

  datatype Range4 = Range4(ip1: U32, ip2: U32)

  datatype Range6 = Range6(ip1: In6Addr, ip2: In6Addr)

  /** An interval of numbers, both ends included. */
  datatype Span = Span(lo: int, hi: int)

  predicate Holds(s: Span, a: int)
  {
    s.lo <= a <= s.hi
  }

  function Span4(r: Range4): Span
  {
    Span(r.ip1, r.ip2)
  }

  /** An IPv6 range read as an interval of 128-bit numbers. */
  function Span6(r: Range6): Span
  {
    Span(Value(r.ip1), Value(r.ip2))
  }

  function Spans4(t: seq<Range4>): (s: seq<Span>)
    ensures |s| == |t| && forall i :: 0 <= i < |t| ==> s[i] == Span4(t[i])
  {
    seq(|t|, i requires 0 <= i < |t| => Span4(t[i]))
  }

  function Spans6(t: seq<Range6>): (s: seq<Span>)
    ensures |s| == |t| && forall i :: 0 <= i < |t| ==> s[i] == Span6(t[i])
  {
    seq(|t|, i requires 0 <= i < |t| => Span6(t[i]))
  }

  /** The first `ipct` entries of a table that may not be allocated yet
      (a null table has no entries). */
  function Entries<T>(iplist: array?<T>, ipct: nat): (s: seq<T>)
    reads iplist
    requires iplist == null ==> ipct == 0
    requires iplist != null ==> ipct <= iplist.Length
    ensures |s| == ipct && forall i :: 0 <= i < ipct ==> s[i] == iplist[i]
  {
    if iplist == null then [] else iplist[..ipct]
  }

  /** `cmp_ipr`: by `ip1`, then by `ip2`. */
  function CmpIpr(a: Range4, b: Range4): (r: int)
    ensures r == -1 || r == 0 || r == 1
    ensures r < 0 <==> a.ip1 < b.ip1 || (a.ip1 == b.ip1 && a.ip2 < b.ip2)
    ensures r == 0 <==> a == b
    ensures r > 0 <==> b.ip1 < a.ip1 || (a.ip1 == b.ip1 && b.ip2 < a.ip2)
  {
    var r := Ucmp(a.ip1, b.ip1);
    if r != 0 then r else Ucmp(a.ip2, b.ip2)
  }

  /** `cmp6_ipr`: by `ip1`, then by `ip2`, each as a 128-bit number. */
  function Cmp6Ipr(a: Range6, b: Range6): (r: int)
    ensures r == -1 || r == 0 || r == 1
    ensures r < 0 <==> Value(a.ip1) < Value(b.ip1) || (a.ip1 == b.ip1 && Value(a.ip2) < Value(b.ip2))
    ensures r == 0 <==> a == b
    ensures r > 0 <==> Value(b.ip1) < Value(a.ip1) || (a.ip1 == b.ip1 && Value(b.ip2) < Value(a.ip2))
  {
    var r := Cmp6(a.ip1, b.ip1);
    if r != 0 then r else Cmp6(a.ip2, b.ip2)
  }

  // ---------------------------------------------------------------------
  // Sorted tables

  /** What `gnu_quicksort` with `cmp_ipr` leaves: no pair out of order. */
  ghost predicate SortedIpr(t: seq<Range4>)
  {
    forall i, j :: 0 <= i < j < |t| ==> CmpIpr(t[i], t[j]) <= 0
  }

  ghost predicate SortedIpr6(t: seq<Range6>)
  {
    forall i, j :: 0 <= i < j < |t| ==> Cmp6Ipr(t[i], t[j]) <= 0
  }

  /** Lower ends never decrease along the table. */
  ghost predicate LowsAscending(t: seq<Span>)
  {
    forall i, j :: 0 <= i < j < |t| ==> t[i].lo <= t[j].lo
  }

  /** Upper ends never decrease along the table. */
  ghost predicate HighsAscending(t: seq<Span>)
  {
    forall i, j :: 0 <= i < j < |t| ==> t[i].hi <= t[j].hi
  }

  /** `cmp_ipr` is antisymmetric and transitive: a total order on ranges. */
  lemma CmpIprOrder(a: Range4, b: Range4, c: Range4)
    ensures CmpIpr(a, b) == -CmpIpr(b, a)
    ensures CmpIpr(a, b) <= 0 && CmpIpr(b, c) <= 0 ==> CmpIpr(a, c) <= 0
  {
  }

  lemma Cmp6IprOrder(a: Range6, b: Range6, c: Range6)
    ensures Cmp6Ipr(a, b) == -Cmp6Ipr(b, a)
    ensures Cmp6Ipr(a, b) <= 0 && Cmp6Ipr(b, c) <= 0 ==> Cmp6Ipr(a, c) <= 0
  {
    if Cmp6Ipr(a, b) <= 0 && Cmp6Ipr(b, c) <= 0 && a.ip1 == c.ip1 {
      assert Value(a.ip1) == Value(b.ip1);
      ValueInjective(a.ip1, b.ip1);
    }
  }

  /** A table sorted with `cmp_ipr` has ascending lower ends. */
  lemma SortedLows(t: seq<Range4>)
    requires SortedIpr(t)
    ensures LowsAscending(Spans4(t))
  {
    var s := Spans4(t);
    forall i, j | 0 <= i < j < |s|
      ensures s[i].lo <= s[j].lo
    {
      assert CmpIpr(t[i], t[j]) <= 0;
    }
  }

  /** A table sorted with `cmp6_ipr` has ascending lower ends. */
  lemma SortedLows6(t: seq<Range6>)
    requires SortedIpr6(t)
    ensures LowsAscending(Spans6(t))
  {
    var s := Spans6(t);
    forall i, j | 0 <= i < j < |s|
      ensures s[i].lo <= s[j].lo
    {
      assert Cmp6Ipr(t[i], t[j]) <= 0;
    }
  }
}
