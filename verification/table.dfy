/** The growing range table of `Run`: `iplist` holds `ipct` entries in a
    buffer of `iplist_size` slots; the buffer starts out absent and grows by
    `ALLOC_STEP` slots whenever an entry arrives and it is full. */
module Table {
  import opened Bits
  import opened Ranges

  const ALLOC_STEP: nat := 16384

  class RangeList<T> {
    var iplist: array?<T>
    var ipct: U32
    var iplistSize: U32

    /** The buffer exists exactly when it has slots, has `iplist_size` of
        them, and `iplist_size` is the least multiple of `ALLOC_STEP` that
        holds the `ipct` entries. */
    ghost predicate Valid()
      reads this, iplist
    {
      (iplist == null <==> iplistSize == 0) &&
      (iplist != null ==> iplist.Length == iplistSize) &&
      ipct <= iplistSize && iplistSize % ALLOC_STEP == 0 && iplistSize < ipct + ALLOC_STEP
    }

    /** The entries, in the order they were added. */
    function Contents(): seq<T>
      reads this, iplist
      requires Valid()
    {
      Entries(iplist, ipct)
    }

    /** `iplist = NULL`, `ipct = 0`, `iplist_size = 0`. */
    constructor()
      ensures Valid() && Contents() == [] && iplist == null && iplistSize == 0
    {
      iplist := null;
      ipct := 0;
      iplistSize := 0;
    }

    /** `iplist[ipct++] = ar`, after growing the buffer by `ALLOC_STEP`
        slots (a fresh buffer holding the old entries) when it is full. */
    method Append(x: T)
      requires Valid() && ipct as int + ALLOC_STEP < 0x1_0000_0000
      modifies this, iplist
      ensures Valid()
      ensures Contents() == old(Contents()) + [x]
      ensures ipct == old(ipct) + 1
      ensures old(ipct) < old(iplistSize) ==> iplist == old(iplist) && iplistSize == old(iplistSize)
      ensures old(ipct) == old(iplistSize) ==> fresh(iplist) && iplistSize == old(iplistSize) + ALLOC_STEP
    {
      if ipct >= iplistSize {
        iplistSize := iplistSize + ALLOC_STEP;
        var iplistNew := new T[iplistSize](_ => x);
        if iplist != null {
          forall i | 0 <= i < ipct {
            iplistNew[i] := iplist[i];
          }
        }
        iplist := iplistNew;
      }
      iplist[ipct] := x;
      ipct := ipct + 1;
    }
  }

  /** The slots a table of `n` entries occupies: `n` rounded up to a
      multiple of `ALLOC_STEP`. */
  function Capacity(n: nat): (c: nat)
  {
    (n + ALLOC_STEP - 1) / ALLOC_STEP * ALLOC_STEP
  }

  /** `Valid` pins the buffer size down: it is `Capacity(ipct)`, so the
      buffer wastes fewer than `ALLOC_STEP` slots. */
  lemma SizeIsCapacity(ipct: nat, size: nat)
    requires ipct <= size && size % ALLOC_STEP == 0 && size < ipct + ALLOC_STEP
    ensures size == Capacity(ipct)
  {
    var k := size / ALLOC_STEP;
    assert size == k * ALLOC_STEP;
    assert (k - 1) * ALLOC_STEP < ipct <= k * ALLOC_STEP;
    var m := ipct + ALLOC_STEP - 1;
    assert k * ALLOC_STEP <= m < (k + 1) * ALLOC_STEP;
    DivModUnique(m, ALLOC_STEP, k, m - k * ALLOC_STEP);
  }
}
