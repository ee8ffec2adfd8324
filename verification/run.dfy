/** `Run`: read the filter lines into a range table, then answer each
    standard-input line by printing the address when `list_check` passes
    it.  The table is sorted with `gnu_quicksort` between the two phases;
    the sort is not part of this model, so the phases are two methods and
    the answer phase is specified for any table it is given. */
module Run {
  import opened Bits
  import opened Addr6
  import opened Ranges
  import opened Search
  import opened Normalise
  import opened Table

  // ---------------------------------------------------------------------
  // Line by line

  /** The value a line yields, as a sequence of zero or one entries. */
  function Listed<R>(x: Option<R>): seq<R>
  {
    match x
    case Some(r) => [r]
    case None => []
  }

  /** The values a line-by-line step keeps, in line order. */
  function Kept<L, R>(f: L -> Option<R>, lines: seq<L>): seq<R>
  {
    if lines == [] then [] else Kept(f, lines[..|lines| - 1]) + Listed(f(lines[|lines| - 1]))
  }

  /** The (0-based) numbers of the lines a step refuses, each reported on
      standard error. */
  function Bad<L, R>(f: L -> Option<R>, lines: seq<L>): seq<nat>
  {
    if lines == [] then []
    else Bad(f, lines[..|lines| - 1]) + (if f(lines[|lines| - 1]).None? then [|lines| - 1] else [])
  }

  /** Both sequences grow line by line. */
  lemma Extend<L, R>(f: L -> Option<R>, lines: seq<L>, i: nat)
    requires i < |lines|
    ensures Kept(f, lines[..i + 1]) == Kept(f, lines[..i]) + Listed(f(lines[i]))
    ensures Bad(f, lines[..i + 1]) == Bad(f, lines[..i]) + (if f(lines[i]).None? then [i] else [])
  {
    assert lines[..i + 1][..i] == lines[..i];
  }

  /** Reported line numbers are line numbers. */
  lemma {:induction false} BadBelow<L, R>(f: L -> Option<R>, lines: seq<L>)
    ensures forall k :: 0 <= k < |Bad(f, lines)| ==> Bad(f, lines)[k] < |lines|
  {
    if lines != [] {
      BadBelow(f, lines[..|lines| - 1]);
    }
  }

  /** Every line is either kept or reported, never both and never lost:
      the counts add up, every reported line was refused, and every
      refused line is reported. */
  lemma {:induction false} KeptOrBad<L, R>(f: L -> Option<R>, lines: seq<L>)
    ensures |Kept(f, lines)| + |Bad(f, lines)| == |lines|
    ensures forall k :: 0 <= k < |Bad(f, lines)| ==> Bad(f, lines)[k] < |lines| && f(lines[Bad(f, lines)[k]]).None?
    ensures forall i :: 0 <= i < |lines| && f(lines[i]).None? ==> i in Bad(f, lines)
  {
    BadExactly(f, lines);
    if lines != [] {
      var init := lines[..|lines| - 1];
      KeptOrBad(f, init);
      forall k | 0 <= k < |Bad(f, lines)|
        ensures Bad(f, lines)[k] < |lines| && f(lines[Bad(f, lines)[k]]).None?
      {
        if k < |Bad(f, init)| {
          assert Bad(f, lines)[k] == Bad(f, init)[k];
          assert init[Bad(f, init)[k]] == lines[Bad(f, init)[k]];
        }
      }
    }
  }

  /** The report names each refused line exactly once, in line order:
      a line is reported exactly when the step refuses it. */
  lemma {:induction false} BadExactly<L, R>(f: L -> Option<R>, lines: seq<L>)
    ensures forall i :: 0 <= i < |lines| ==> (i in Bad(f, lines) <==> f(lines[i]).None?)
    ensures forall j, k :: 0 <= j < k < |Bad(f, lines)| ==> Bad(f, lines)[j] < Bad(f, lines)[k]
  {
    if lines != [] {
      var n := |lines| - 1;
      var init := lines[..n];
      BadExactly(f, init);
      BadBelow(f, init);
      forall i | 0 <= i < n
        ensures (i in Bad(f, lines) <==> f(lines[i]).None?)
      {
        assert init[i] == lines[i];
      }
    }
  }

  /** A value is kept exactly when some line yields it. */
  lemma {:induction false} KeptMembers<L, R>(f: L -> Option<R>, lines: seq<L>, r: R)
    ensures r in Kept(f, lines) <==> exists i :: 0 <= i < |lines| && f(lines[i]) == Some(r)
  {
    if lines != [] {
      var n := |lines| - 1;
      var init := lines[..n];
      KeptMembers(f, init, r);
      if r in Kept(f, lines) && r !in Kept(f, init) {
        assert f(lines[n]) == Some(r);
      }
      if i :| 0 <= i < |lines| && f(lines[i]) == Some(r) {
        if i < n {
          assert init[i] == lines[i];
        }
      }
    }
  }

  /** The IPv4 output grows query by query. */
  lemma Passed4Extend(mode: Mode, t: seq<Span>, queries: seq<Option<CidrScan>>, i: nat)
    requires i < |queries|
    ensures Passed4(mode, t, queries[..i + 1]) == Passed4(mode, t, queries[..i]) + PassedOne4(mode, t, queries[i])
    ensures Bad(Query4, queries[..i + 1]) == Bad(Query4, queries[..i]) + (if Query4(queries[i]).None? then [i] else [])
  {
    assert queries[..i + 1][..i] == queries[..i];
  }

  /** The IPv6 output grows query by query. */
  lemma Passed6Extend(mode: Mode, t: seq<Span>, queries: seq<Input6>, i: nat)
    requires i < |queries|
    ensures Passed6(mode, t, queries[..i + 1]) == Passed6(mode, t, queries[..i]) + PassedOne6(mode, t, queries[i])
    ensures Bad(QueryAddr6, queries[..i + 1]) == Bad(QueryAddr6, queries[..i]) + (if QueryAddr6(queries[i]).None? then [i] else [])
  {
    assert queries[..i + 1][..i] == queries[..i];
  }

  // ---------------------------------------------------------------------
  // The filter file

  /** The end of one filter-file iteration: a normalised range is appended
      to the table, a refused line `i` is reported. */
  method Record<R>(list: RangeList<R>, ar: Option<R>, i: nat, bad: seq<nat>) returns (bad': seq<nat>)
    requires list.Valid() && list.ipct as int + ALLOC_STEP < 0x1_0000_0000
    modifies list, list.iplist
    ensures list.Valid()
    ensures list.Contents() == old(list.Contents()) + Listed(ar)
    ensures bad' == bad + (if ar.None? then [i] else [])
    ensures list.ipct as int <= old(list.ipct as int) + 1
    ensures list.iplist == old(list.iplist) || fresh(list.iplist)
  {
    bad' := bad;
    if ar.Some? {
      list.Append(ar.value);
    } else {
      bad' := bad + [i];
    }
  }

  /** The IPv4 filter phase: each line adds its range or is reported. */
  method Load4(lines: seq<Line4>) returns (list: RangeList<Range4>, bad: seq<nat>)
    requires |lines| + ALLOC_STEP < 0x1_0000_0000
    ensures fresh(list) && list.Valid()
    ensures list.Contents() == Kept(Filter4, lines)
    ensures bad == Bad(Filter4, lines)
  {
    list := new RangeList<Range4>();
    bad := [];
    for i := 0 to |lines|
      invariant fresh(list) && list.Valid() && (list.iplist == null || fresh(list.iplist))
      invariant list.ipct as int <= i
      invariant list.Contents() == Kept(Filter4, lines[..i])
      invariant bad == Bad(Filter4, lines[..i])
    {
      Extend(Filter4, lines, i);
      var ar := Filter4(lines[i]);
      bad := Record(list, ar, i, bad);
    }
    assert lines[..|lines|] == lines;
  }

  /** The IPv6 filter phase: the mask tables are prepared first, then each
      line adds its range or is reported. */
  method Load6(lines: seq<Line6>) returns (list: RangeList<Range6>, bad: seq<nat>)
    requires |lines| + ALLOC_STEP < 0x1_0000_0000
    ensures fresh(list) && list.Valid()
    ensures list.Contents() == Kept(Filter6, lines)
    ensures bad == Bad(Filter6, lines)
  {
    var tables := new MaskTables();
    tables.Prepare();
    list := new RangeList<Range6>();
    bad := [];
    for i := 0 to |lines|
      invariant fresh(list) && list.Valid() && (list.iplist == null || fresh(list.iplist))
      invariant list.ipct as int <= i
      invariant tables.Ready()
      invariant list.Contents() == Kept(Filter6, lines[..i])
      invariant bad == Bad(Filter6, lines[..i])
    {
      Extend(Filter6, lines, i);
      var ar := Normalise6(tables, lines[i]);
      bad := Record(list, ar, i, bad);
    }
    assert lines[..|lines|] == lines;
  }

  // ---------------------------------------------------------------------
  // Standard input

  /** The IPv4 addresses printed for `queries` against the table `t`. */
  function Passed4(mode: Mode, t: seq<Span>, queries: seq<Option<CidrScan>>): seq<U32>
  {
    if queries == [] then [] else Passed4(mode, t, queries[..|queries| - 1]) + PassedOne4(mode, t, queries[|queries| - 1])
  }

  function PassedOne4(mode: Mode, t: seq<Span>, q: Option<CidrScan>): seq<U32>
  {
    match Query4(q)
    case Some(a) => if Verdict(mode, Belong(t, a)) then [a] else []
    case None => []
  }

  /** A standard-input line for IPv6: the address as parsed, and its tail. */
  datatype Input6 = Input6(addr: Option<In6Addr>, slash: Slash)

  /** The IPv6 addresses printed for `queries` against the table `t`. */
  function Passed6(mode: Mode, t: seq<Span>, queries: seq<Input6>): seq<In6Addr>
  {
    if queries == [] then [] else Passed6(mode, t, queries[..|queries| - 1]) + PassedOne6(mode, t, queries[|queries| - 1])
  }

  function PassedOne6(mode: Mode, t: seq<Span>, q: Input6): seq<In6Addr>
  {
    match QueryAddr6(q)
    case Some(a) => if Verdict(mode, Belong(t, Value(a))) then [a] else []
    case None => []
  }

  /** The IPv4 query phase. */
  method Answer4(mode: Mode, list: RangeList<Range4>, queries: seq<Option<CidrScan>>)
    returns (printed: seq<U32>, bad: seq<nat>)
    requires list.Valid()
    ensures printed == Passed4(mode, Spans4(list.Contents()), queries)
    ensures bad == Bad(Query4, queries)
  {
    ghost var t := Spans4(Entries(list.iplist, list.ipct));
    assert t == Spans4(list.Contents());
    printed := [];
    bad := [];
    for i := 0 to |queries|
      invariant printed == Passed4(mode, t, queries[..i])
      invariant bad == Bad(Query4, queries[..i])
    {
      Passed4Extend(mode, t, queries, i);
      var q := Query4(queries[i]);
      if q.Some? {
        var a := q.value;
        var pass := ListCheck(mode, list.iplist, list.ipct, a);
        if pass {
          printed := printed + [a];
        }
      } else {
        bad := bad + [i];
      }
    }
    assert queries[..|queries|] == queries;
  }

  /** The IPv6 query phase: a refused prefix and an unparsable address are
      reported alike here (the two messages differ). */
  method Answer6(mode: Mode, list: RangeList<Range6>, queries: seq<Input6>)
    returns (printed: seq<In6Addr>, bad: seq<nat>)
    requires list.Valid()
    ensures printed == Passed6(mode, Spans6(list.Contents()), queries)
    ensures bad == Bad(QueryAddr6, queries)
  {
    ghost var t := Spans6(Entries(list.iplist, list.ipct));
    assert t == Spans6(list.Contents());
    printed := [];
    bad := [];
    for i := 0 to |queries|
      invariant printed == Passed6(mode, t, queries[..i])
      invariant bad == Bad(QueryAddr6, queries[..i])
    {
      Passed6Extend(mode, t, queries, i);
      var q := Query6(queries[i].addr, queries[i].slash);
      if q.Query? {
        var pass := ListCheck6(mode, list.iplist, list.ipct, q.a);
        if pass {
          printed := printed + [q.a];
        }
      } else {
        bad := bad + [i];
      }
    }
    assert queries[..|queries|] == queries;
  }

  /** The address an IPv6 standard-input line queries, if any. */
  function QueryAddr6(q: Input6): Option<In6Addr>
  {
    match Query6(q.addr, q.slash)
    case Query(a) => Some(a)
    case _ => None
  }

  // ---------------------------------------------------------------------
  // What gets printed

  /** Without a mode nothing is printed. */
  lemma {:induction false} Passed4Undef(t: seq<Span>, queries: seq<Option<CidrScan>>)
    ensures Passed4(Undef, t, queries) == []
  {
    if queries != [] {
      Passed4Undef(t, queries[..|queries| - 1]);
    }
  }

  /** In `intersect` mode every printed address lies in some range of the
      table, whatever order the table is in. */
  lemma {:induction false} Passed4Sound(t: seq<Span>, queries: seq<Option<CidrScan>>)
    ensures forall a :: a in Passed4(Intersect, t, queries) ==> Covered(t, a)
  {
    if queries != [] {
      Passed4Sound(t, queries[..|queries| - 1]);
      var q := Query4(queries[|queries| - 1]);
      if q.Some? {
        BelongSound(t, q.value);
      }
    }
  }

  /** The output the modes promise: the queried addresses inside the
      filter (`intersect`) or outside it (`exclude`). */
  ghost function Wanted4(mode: Mode, t: seq<Span>, queries: seq<Option<CidrScan>>): seq<U32>
  {
    if queries == [] then [] else Wanted4(mode, t, queries[..|queries| - 1]) + WantedOne4(mode, t, queries[|queries| - 1])
  }

  ghost function WantedOne4(mode: Mode, t: seq<Span>, q: Option<CidrScan>): seq<U32>
  {
    match Query4(q)
    case Some(a) => if Verdict(mode, Covered(t, a)) then [a] else []
    case None => []
  }

  /** With lower and upper ends both ascending (a sorted table without
      nested ranges), the output is exactly what the mode promises. */
  lemma {:induction false} Passed4Exact(mode: Mode, t: seq<Span>, queries: seq<Option<CidrScan>>)
    requires LowsAscending(t) && HighsAscending(t)
    ensures Passed4(mode, t, queries) == Wanted4(mode, t, queries)
  {
    if queries != [] {
      Passed4Exact(mode, t, queries[..|queries| - 1]);
      var q := Query4(queries[|queries| - 1]);
      if q.Some? {
        BelongExact(t, q.value);
      }
    }
  }

  /** The same for IPv6. */
  ghost function Wanted6(mode: Mode, t: seq<Span>, queries: seq<Input6>): seq<In6Addr>
  {
    if queries == [] then [] else Wanted6(mode, t, queries[..|queries| - 1]) + WantedOne6(mode, t, queries[|queries| - 1])
  }

  ghost function WantedOne6(mode: Mode, t: seq<Span>, q: Input6): seq<In6Addr>
  {
    match QueryAddr6(q)
    case Some(a) => if Verdict(mode, Covered(t, Value(a))) then [a] else []
    case None => []
  }

  lemma {:induction false} Passed6Exact(mode: Mode, t: seq<Span>, queries: seq<Input6>)
    requires LowsAscending(t) && HighsAscending(t)
    ensures Passed6(mode, t, queries) == Wanted6(mode, t, queries)
  {
    if queries != [] {
      Passed6Exact(mode, t, queries[..|queries| - 1]);
      var q := Query6(queries[|queries| - 1].addr, queries[|queries| - 1].slash);
      if q.Query? {
        BelongExact(t, Value(q.a));
      }
    }
  }

  /** In `intersect` mode every printed IPv6 address lies in some range of
      the table. */
  lemma {:induction false} Passed6Sound(t: seq<Span>, queries: seq<Input6>)
    ensures forall a :: a in Passed6(Intersect, t, queries) ==> Covered(t, Value(a))
  {
    if queries != [] {
      Passed6Sound(t, queries[..|queries| - 1]);
      var q := Query6(queries[|queries| - 1].addr, queries[|queries| - 1].slash);
      if q.Query? {
        BelongSound(t, Value(q.a));
      }
    }
  }

  /** With the corrected search (the table's upper ends raised to their
      running maximum), the output is exactly what the mode promises on
      every table sorted by lower end, nested ranges included. */
  lemma {:induction false} Passed4Raised(mode: Mode, t: seq<Span>, queries: seq<Option<CidrScan>>)
    requires LowsAscending(t)
    ensures Passed4(mode, RaiseHighs(t), queries) == Wanted4(mode, t, queries)
  {
    if queries != [] {
      Passed4Raised(mode, t, queries[..|queries| - 1]);
      var q := Query4(queries[|queries| - 1]);
      if q.Some? {
        BelongRaisedExact(t, q.value);
      }
    }
  }

  /** The same for IPv6. */
  lemma {:induction false} Passed6Raised(mode: Mode, t: seq<Span>, queries: seq<Input6>)
    requires LowsAscending(t)
    ensures Passed6(mode, RaiseHighs(t), queries) == Wanted6(mode, t, queries)
  {
    if queries != [] {
      Passed6Raised(mode, t, queries[..|queries| - 1]);
      var q := QueryAddr6(queries[|queries| - 1]);
      if q.Some? {
        BelongRaisedExact(t, Value(q.value));
      }
    }
  }

  /** End to end for IPv4: whatever order the table was sorted into, the
      corrected search answers every query as the lines' ranges say, and an
      address is covered by the table exactly when some accepted filter
      line's range holds it. */
  lemma EndToEnd4(mode: Mode, lines: seq<Line4>, table: seq<Range4>, queries: seq<Option<CidrScan>>, a: int)
    requires multiset(table) == multiset(Kept(Filter4, lines))
    requires SortedIpr(table)
    ensures Passed4(mode, RaiseHighs(Spans4(table)), queries) == Wanted4(mode, Spans4(table), queries)
    ensures Covered(Spans4(table), a) <==>
      exists i :: 0 <= i < |lines| && Filter4(lines[i]).Some? && Holds(Span4(Filter4(lines[i]).value), a)
  {
    SortedLows(table);
    Passed4Raised(mode, Spans4(table), queries);
    if Covered(Spans4(table), a) {
      var j :| 0 <= j < |table| && Holds(Spans4(table)[j], a);
      assert table[j] in multiset(Kept(Filter4, lines));
      KeptMembers(Filter4, lines, table[j]);
    }
    if i :| 0 <= i < |lines| && Filter4(lines[i]).Some? && Holds(Span4(Filter4(lines[i]).value), a) {
      var r := Filter4(lines[i]).value;
      KeptMembers(Filter4, lines, r);
      assert r in multiset(table);
      var j :| 0 <= j < |table| && table[j] == r;
      assert Holds(Spans4(table)[j], a);
    }
  }

  /** End to end for IPv6, the same over the 128-bit values. */
  lemma EndToEnd6(mode: Mode, lines: seq<Line6>, table: seq<Range6>, queries: seq<Input6>, a: int)
    requires multiset(table) == multiset(Kept(Filter6, lines))
    requires SortedIpr6(table)
    ensures Passed6(mode, RaiseHighs(Spans6(table)), queries) == Wanted6(mode, Spans6(table), queries)
    ensures Covered(Spans6(table), a) <==>
      exists i :: 0 <= i < |lines| && Filter6(lines[i]).Some? && Holds(Span6(Filter6(lines[i]).value), a)
  {
    SortedLows6(table);
    Passed6Raised(mode, Spans6(table), queries);
    if Covered(Spans6(table), a) {
      var j :| 0 <= j < |table| && Holds(Spans6(table)[j], a);
      assert table[j] in multiset(Kept(Filter6, lines));
      KeptMembers(Filter6, lines, table[j]);
    }
    if i :| 0 <= i < |lines| && Filter6(lines[i]).Some? && Holds(Span6(Filter6(lines[i]).value), a) {
      var r := Filter6(lines[i]).value;
      KeptMembers(Filter6, lines, r);
      assert r in multiset(table);
      var j :| 0 <= j < |table| && table[j] == r;
      assert Holds(Spans6(table)[j], a);
    }
  }
}
