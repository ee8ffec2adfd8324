/** `unique` and `unique6`: compact a presorted array in place so that each
    run of adjacent equal items is kept once, and return how many items
    remain.  `Run` never calls them, so the tables it searches keep their
    duplicates; they are modelled because they are part of the file's
    table-building toolkit. */
module Unique {
  import opened Bits
  import opened Addr6

  /** `s` with every run of adjacent equal items collapsed to one item. */
  function Dedup<T(==)>(s: seq<T>): seq<T>
  {
    if |s| <= 1 then s
    else if s[0] == s[1] then Dedup(s[1..])
    else [s[0]] + Dedup(s[1..])
  }

  /** No two adjacent items are equal. */
  ghost predicate NoRepeats<T>(s: seq<T>)
  {
    forall k :: 0 <= k < |s| - 1 ==> s[k] != s[k + 1]
  }

  ghost predicate Ascending(s: seq<int>)
  {
    forall i, j :: 0 <= i < j < |s| ==> s[i] <= s[j]
  }

  ghost predicate StrictlyAscending(s: seq<int>)
  {
    forall i, j :: 0 <= i < j < |s| ==> s[i] < s[j]
  }

  // ---------------------------------------------------------------------
  // Properties of Dedup

  /** Putting an item in front: it merges with an equal first item. */
  lemma DedupCons<T>(x: T, r: seq<T>)
    ensures Dedup([x] + r) == if r != [] && r[0] == x then Dedup(r) else [x] + Dedup(r)
  {
    var s := [x] + r;
    if r != [] {
      assert s[1..] == r;
    }
  }

  /** Collapsing never grows the sequence, keeps the first item and
      leaves a non-empty sequence non-empty. */
  lemma {:induction false} DedupShape<T>(s: seq<T>)
    ensures |Dedup(s)| <= |s|
    ensures s != [] ==> |Dedup(s)| >= 1 && Dedup(s)[0] == s[0]
  {
    if |s| > 1 {
      DedupShape(s[1..]);
    }
  }

  /** The collapsed sequence has no adjacent repeats. */
  lemma {:induction false} DedupNoRepeats<T>(s: seq<T>)
    ensures NoRepeats(Dedup(s))
  {
    if |s| > 1 {
      DedupNoRepeats(s[1..]);
      DedupShape(s[1..]);
      if s[0] != s[1] {
        var d := Dedup(s[1..]);
        assert Dedup(s) == [s[0]] + d;
        forall k | 0 <= k < |Dedup(s)| - 1
          ensures Dedup(s)[k] != Dedup(s)[k + 1]
        {
          if k > 0 {
            assert Dedup(s)[k] == d[k - 1] && Dedup(s)[k + 1] == d[k];
          }
        }
      }
    }
  }

  /** Collapsing keeps exactly the items that occur. */
  lemma {:induction false} DedupElements<T>(s: seq<T>, x: T)
    ensures x in Dedup(s) <==> x in s
  {
    if |s| > 1 {
      DedupElements(s[1..], x);
      assert s == [s[0]] + s[1..];
      assert s[0] == s[1] ==> s[0] in s[1..];
    }
  }

  /** A sequence without adjacent repeats is left as it is. */
  lemma {:induction false} DedupNoop<T>(s: seq<T>)
    requires NoRepeats(s)
    ensures Dedup(s) == s
  {
    if |s| > 1 {
      assert s[0] != s[1];
      DedupNoop(s[1..]);
      assert s == [s[0]] + s[1..];
    }
  }

  /** A second pass changes nothing. */
  lemma DedupIdempotent<T>(s: seq<T>)
    ensures Dedup(Dedup(s)) == Dedup(s)
  {
    DedupNoRepeats(s);
    DedupNoop(Dedup(s));
  }

  /** On a presorted sequence the result is strictly ascending: each value
      once, in order. */
  lemma DedupAscending(s: seq<int>)
    requires Ascending(s)
    ensures StrictlyAscending(Dedup(s))
  {
    var d := Dedup(s);
    DedupNoRepeats(s);
    DedupOrder(s);
    forall i, j | 0 <= i < j < |d|
      ensures d[i] < d[j]
    {
      assert d[i] <= d[j - 1] && d[j - 1] != d[j];
    }
  }

  /** Collapsing a presorted sequence leaves it presorted. */
  lemma {:induction false} DedupOrder(s: seq<int>)
    requires Ascending(s)
    ensures Ascending(Dedup(s))
  {
    if |s| > 1 {
      DedupOrder(s[1..]);
      DedupShape(s[1..]);
      if s[0] != s[1] {
        var d := Dedup(s[1..]);
        forall k | 0 <= k < |d|
          ensures s[0] <= d[k]
        {
          DedupElements(s[1..], d[k]);
        }
        assert Dedup(s) == [s[0]] + d;
      }
    }
  }

  /** The example of the comment above `unique`. */
  lemma DedupExample()
    ensures Dedup([1, 1, 2, 3, 3, 0, 0, 0]) == [1, 2, 3, 0]
  {
    DedupCons(0, [0, 0]);
    DedupCons(0, [0]);
    DedupCons(3, [0, 0, 0]);
    DedupCons(3, [3, 0, 0, 0]);
    DedupCons(2, [3, 3, 0, 0, 0]);
    DedupCons(1, [2, 3, 3, 0, 0, 0]);
    DedupCons(1, [1, 2, 3, 3, 0, 0, 0]);
    assert [1, 1, 2, 3, 3, 0, 0, 0] == [1] + [1, 2, 3, 3, 0, 0, 0];
  }

  // ---------------------------------------------------------------------
  // The in-place loops

  /** Dropping a leading run of `u` that ends at `e`: the run collapses
      to one `u`. */
  lemma {:induction false} DedupRun<T>(s: seq<T>, j: nat, e: nat, u: T)
    requires j < e <= |s| && forall m :: j <= m < e ==> s[m] == u
    requires e == |s| || s[e] != u
    ensures Dedup(s[j..]) == [u] + Dedup(s[e..])
    decreases e - j
  {
    assert s[j..] == [u] + s[j + 1..];
    DedupCons(u, s[j + 1..]);
    if j + 1 < e {
      DedupRun(s, j + 1, e, u);
      DedupCons(u, s[e..]);
    }
  }

  /** The inner scan of both loops: from `j`, past every item equal to `u`. */
  method SkipRun<T(==)>(pu: array<T>, j: U32, ct: U32, u: T) returns (e: U32)
    requires j <= ct <= pu.Length
    ensures j <= e <= ct
    ensures forall m :: j <= m < e ==> pu[m] == u
    ensures e == ct || pu[e] != u
  {
    e := j;
    while e < ct && pu[e] == u
      invariant j <= e <= ct
      invariant forall m :: j <= m < e ==> pu[m] == u
    {
      e := e + 1;
    }
  }

  /** `unique`: `i` counts the kept items, `j` scans; each round skips a
      whole run of the value `u` and stores `u` at `i`. */
  method Unique(pu: array<U32>, ct: U32) returns (r: U32)
    requires ct <= pu.Length
    modifies pu
    ensures r <= ct
    ensures pu[..r] == Dedup(old(pu[..ct]))
    ensures pu[r..] == old(pu[r..])
  {
    ghost var s := pu[..ct];
    var i: U32 := 0;
    var j: U32 := 0;
    while j < ct
      invariant i <= j <= ct
      invariant pu[i..] == old(pu[i..])
      invariant forall m :: i <= m < ct ==> pu[m] == s[m]
      invariant pu[..i] + Dedup(s[j..]) == Dedup(s)
    {
      ghost var j0 := j;
      var u := pu[j];
      j := SkipRun(pu, j + 1, ct, u);
      DedupRun(s, j0, j, u);
      ghost var kept := pu[..i];
      pu[i] := u;
      assert pu[..i + 1] == kept + [u];
      Regroup(kept, [u], Dedup(s[j..]), Dedup(s[j0..]), Dedup(s));
      i := i + 1;
    }
    assert s[j..] == [];
    return i;
  }

  /** `unique6`: the same compaction on addresses, comparing each item with
      the first one of its run `k` (`memcmp` equal means the same 16 bytes). */
  method Unique6(pu: array<In6Addr>, ct: U32) returns (r: U32)
    requires ct <= pu.Length
    modifies pu
    ensures r <= ct
    ensures pu[..r] == Dedup(old(pu[..ct]))
    ensures pu[r..] == old(pu[r..])
  {
    ghost var s := pu[..ct];
    var i: U32 := 0;
    var j: U32 := 0;
    while j < ct
      invariant i <= j <= ct
      invariant pu[i..] == old(pu[i..])
      invariant forall m :: i <= m < ct ==> pu[m] == s[m]
      invariant pu[..i] + Dedup(s[j..]) == Dedup(s)
    {
      var k := j;
      j := SkipRun(pu, j + 1, ct, pu[k]);
      DedupRun(s, k, j, pu[k]);
      ghost var kept := pu[..i];
      var x := pu[k];
      pu[i] := x;
      assert pu[..i + 1] == kept + [x];
      Regroup(kept, [x], Dedup(s[j..]), Dedup(s[k..]), Dedup(s));
      i := i + 1;
    }
    assert s[j..] == [];
    return i;
  }

  lemma Regroup<T>(kept: seq<T>, x: seq<T>, rest: seq<T>, run: seq<T>, whole: seq<T>)
    requires kept + run == whole && run == x + rest
    ensures (kept + x) + rest == whole
  {
  }
}
