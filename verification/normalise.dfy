/** The range-building and input-acceptance steps of `Run`: how a filter
    line, after scanning, becomes an `ip_range` / `ip_range6`, and which
    standard-input lines are queried.  The text scanning itself (`sscanf`,
    `inet_pton`) is not modelled: its results are the inputs here. */
module Normalise {
  import opened Bits
  import opened Addr4
  import opened Addr6
  import opened Ranges

  datatype Option<T> = None | Some(value: T)

  // ---------------------------------------------------------------------
  // IPv4 filter lines

  /** The eight numbers of `"%u.%u.%u.%u-%u.%u.%u.%u"`, when all eight were
      scanned. */
  datatype RangeScan = RangeScan(from: Quad, to: Quad)

  /** `"%u.%u.%u.%u/%u"` with at least the four address numbers scanned;
      `bits` is the fifth number when it was scanned too. */
  datatype CidrScan = CidrScan(quad: Quad, bits: Option<U32>)

  /** A filter line as the two scans see it. */
  datatype Line4 = Line4(range: Option<RangeScan>, cidr: Option<CidrScan>)

  /** `zct` after the CIDR scan: the scanned number, or the preset 32. */
  function PrefixLength(c: CidrScan): U32
  {
    match c.bits
    case Some(p) => p
    case None => 32
  }

  /** `a/p`: `ip1 = A & mask`, `ip2 = ip1 | ~mask` with
      `mask = mask_from_bitcount(32 - p)`. */
  function CidrRange4(q: Quad, p: U32): Range4
    requires p <= 32
  {
    Pow2Constants();
    var mask := MaskFromBitcount(32 - p);
    var ip1 := And(Pack(q), mask, 32);
    Range4(ip1, Or(ip1, Not(mask, 32), 32))
  }

  predicate RangeScanOk(line: Line4)
  {
    line.range.Some? && QuadOk(line.range.value.from) && QuadOk(line.range.value.to)
  }

  predicate CidrScanOk(line: Line4)
  {
    line.cidr.Some? && QuadOk(line.cidr.value.quad) && PrefixLength(line.cidr.value) <= 32
  }

  /** The range a filter line adds, or `None` for a bad filter entry: the
      range form first, then the address-with-optional-prefix form. */
  function Filter4(line: Line4): Option<Range4>
  {
    if RangeScanOk(line) then
      Some(Range4(Pack(line.range.value.from), Pack(line.range.value.to)))
    else if CidrScanOk(line) then
      Some(CidrRange4(line.cidr.value.quad, PrefixLength(line.cidr.value)))
    else
      None
  }

  /** A standard-input line: the CIDR scan with a preset `zct` of 32; only a
      bare address or `/32` is queried. */
  function Query4(c: Option<CidrScan>): Option<U32>
  {
    if c.Some? && QuadOk(c.value.quad) && PrefixLength(c.value) == 32 then
      Some(Pack(c.value.quad))
    else
      None
  }

  // ---------------------------------------------------------------------
  // IPv6 filter lines

  /** What follows the address: nothing, `/` and the scanned prefix length
      (if `%u` matched), or `-` and the second address (if it parsed). */
  datatype Tail6 = NoTail | Prefix(bits: Option<U32>) | Upper(to: Option<In6Addr>)

  /** A filter line: the first address as parsed by `inet_pton`, and the tail. */
  datatype Line6 = Line6(from: Option<In6Addr>, tail: Tail6)

  /** `zct = 128 - zct`: the host bits left by prefix length `p`. */
  function HostBits(p: U32): U32
    requires p <= 128
  {
    128 - p
  }

  /** The block of `a` with `h` host bits (`h = 128 - p` for `a/p`):
      `ip1 = a & mask6(h)`, `ip2 = ip1 | inv_mask6(h)`. */
  function CidrRange6(a: In6Addr, h: U32): Range6
    requires h <= 128
  {
    var ip1 := Ip6And(a, Mask6(h));
    Range6(ip1, Ip6Or(ip1, Not6(Mask6(h))))
  }

  /** The range an IPv6 filter line adds, or `None` for a bad filter entry. */
  function Filter6(line: Line6): Option<Range6>
  {
    match line.from
    case None => None
    case Some(a) =>
      match line.tail
      case NoTail => Some(Range6(a, a))
      case Prefix(None) => None
      case Prefix(Some(p)) =>
        if p < 128 then Some(CidrRange6(a, HostBits(p)))
        else if p == 128 then Some(Range6(a, a))
        else None
      case Upper(None) => None
      case Upper(Some(b)) => if Cmp6(b, a) >= 0 then Some(Range6(a, b)) else None
  }

  /** The IPv6 filter-line step of `Run`, with the masks read from the
      prepared tables. */
  method Normalise6(tables: MaskTables, line: Line6) returns (r: Option<Range6>)
    requires tables.Ready()
    ensures r == Filter6(line)
  {
    r := None;
    if line.from.Some? {
      var ip1 := line.from.value;
      match line.tail {
        case NoTail =>
          r := Some(Range6(ip1, ip1));
        case Prefix(bits) =>
          if bits.Some? {
            var zct := bits.value;
            if zct < 128 {
              zct := HostBits(zct);
              ip1 := Ip6And(ip1, tables.MaskOf(zct));
              var ip2 := Ip6Or(ip1, tables.InvMaskOf(zct));
              r := Some(Range6(ip1, ip2));
            } else if zct == 128 {
              r := Some(Range6(ip1, ip1));
            }
          }
        case Upper(to) =>
          if to.Some? && Cmp6(to.value, ip1) >= 0 {
            r := Some(Range6(ip1, to.value));
          }
      }
    }
  }

  /** How a standard-input line ends: no `/`, or `/` and the scanned number. */
  datatype Slash = NoSlash | Slash(bits: Option<U32>)

  /** The outcome for a standard-input line: queried, or which complaint. */
  datatype Query6Result = Query(a: In6Addr) | BadPrefix | BadAddress

  /** The prefix is checked first (only `/128`), then the address. */
  function Query6(addr: Option<In6Addr>, slash: Slash): Query6Result
  {
    if slash.Slash? && (slash.bits.None? || slash.bits.value != 128) then BadPrefix
    else if addr.None? then BadAddress
    else Query(addr.value)
  }

  // ---------------------------------------------------------------------
  // Lemmas: IPv4

  /** `x` and `a` agree in every bit above the lowest `h`. */
  predicate SameHigh(x: nat, a: nat, h: nat)
  {
    x / Pow2(h) == a / Pow2(h)
  }

  /** `lo..hi` is the block of numbers that agree with `a` in every bit
      above the lowest `h`: `2^h` numbers, aligned, containing `a`.  For a
      `w`-bit address and prefix length `p`, `h` is `w - p`. */
  ghost predicate HostBlock(lo: nat, hi: nat, a: nat, h: nat)
  {
    lo <= a <= hi && hi - lo == Pow2(h) - 1 && lo % Pow2(h) == 0 &&
    forall x: nat :: lo <= x <= hi <==> SameHigh(x, a, h)
  }

  /** Clearing the `h` host bits of `a` with a netmask and setting them
      with its complement gives the block of `a`. */
  lemma MaskedHostBlock(a: nat, w: nat, h: nat, m: nat, inv: nat, lo: nat, hi: nat)
    requires h <= w && a < Pow2(w) && m == Pow2(w) - Pow2(h) && inv == Pow2(h) - 1
    requires lo == And(a, m, w) && hi == Or(lo, inv, w)
    ensures HostBlock(lo, hi, a, h)
    ensures h == w ==> lo == 0 && hi == Pow2(w) - 1
  {
    MaskedBlock(a, w, h, m, inv, lo, hi);
  }

  /** Section 3.1 of RFC 4632: `a/p` is the block of `2^(32-p)` addresses
      that share the first `p` bits of `a`; `/0` is the whole space and
      `/32` the address alone. */
  lemma CidrRange4Block(q: Quad, p: U32)
    requires p <= 32
    ensures HostBlock(CidrRange4(q, p).ip1, CidrRange4(q, p).ip2, Pack(q), 32 - p)
    ensures p == 0 ==> CidrRange4(q, p) == Range4(0, 0xFFFF_FFFF)
    ensures p == 32 ==> CidrRange4(q, p) == Range4(Pack(q), Pack(q))
  {
    Pow2Constants();
    var a, mask, r := Pack(q), MaskFromBitcount(32 - p), CidrRange4(q, p);
    Netmask(p);
    assert Not(mask, 32) == Pow2(32 - p) - 1;
    MaskedHostBlock(a, 32, 32 - p, mask, Not(mask, 32), r.ip1, r.ip2);
    if p == 32 {
      assert Pow2(0) == 1;
    }
  }

  /** What an accepted IPv4 filter line holds: either both addresses of
      the range form, octets all below 256 and stored as given (no check
      that `ip2 >= ip1`), or the CIDR block of an address with octets below
      256 and a prefix length of at most 32. */
  lemma Filter4Accepted(line: Line4)
    requires Filter4(line).Some?
    ensures RangeScanOk(line) ==>
      var f, t := line.range.value.from, line.range.value.to;
      f.u1 < 0x100 && f.u2 < 0x100 && f.u3 < 0x100 && f.u4 < 0x100 &&
      t.u1 < 0x100 && t.u2 < 0x100 && t.u3 < 0x100 && t.u4 < 0x100 &&
      Filter4(line).value == Range4(Pack(f), Pack(t)) &&
      Octets(Pack(f)) == f && Octets(Pack(t)) == t
    ensures !RangeScanOk(line) ==>
      var q, p := line.cidr.value.quad, PrefixLength(line.cidr.value);
      line.cidr.Some? && q.u1 < 0x100 && q.u2 < 0x100 && q.u3 < 0x100 && q.u4 < 0x100 && p <= 32 &&
      Filter4(line).value == CidrRange4(q, p) &&
      HostBlock(Filter4(line).value.ip1, Filter4(line).value.ip2, Pack(q), 32 - p)
  {
    if RangeScanOk(line) {
      var f, t := line.range.value.from, line.range.value.to;
      QuadOkIff(f);
      QuadOkIff(t);
      OctetsPack(f);
      OctetsPack(t);
    } else {
      var q, p := line.cidr.value.quad, PrefixLength(line.cidr.value);
      assert Filter4(line) == Some(CidrRange4(q, p));
      QuadOkIff(q);
      CidrRange4Block(q, p);
    }
  }

  /** The lines refused as bad filter entries: neither scan gives a usable
      range -- the range scan failed or has an octet of 256 or more, and the
      CIDR scan failed, has an octet of 256 or more, or a prefix above 32. */
  lemma Filter4Refused(line: Line4)
    ensures Filter4(line).None? <==>
      (line.range.None? ||
       (var f, t := line.range.value.from, line.range.value.to;
        f.u1 >= 0x100 || f.u2 >= 0x100 || f.u3 >= 0x100 || f.u4 >= 0x100 ||
        t.u1 >= 0x100 || t.u2 >= 0x100 || t.u3 >= 0x100 || t.u4 >= 0x100)) &&
      (line.cidr.None? ||
       (var q := line.cidr.value.quad;
        q.u1 >= 0x100 || q.u2 >= 0x100 || q.u3 >= 0x100 || q.u4 >= 0x100 ||
        PrefixLength(line.cidr.value) > 32))
  {
    if line.range.Some? {
      QuadOkIff(line.range.value.from);
      QuadOkIff(line.range.value.to);
    }
    if line.cidr.Some? {
      QuadOkIff(line.cidr.value.quad);
    }
  }

  /** A range line whose ends are reversed is accepted as written, and
      the range it adds holds no address at all (no check that
      `ip2 >= ip1`). */
  lemma ReversedRangeKept(f: Quad, t: Quad, c: Option<CidrScan>)
    requires QuadOk(f) && QuadOk(t) && Pack(t) < Pack(f)
    ensures Filter4(Line4(Some(RangeScan(f, t)), c)) == Some(Range4(Pack(f), Pack(t)))
    ensures forall a: int :: !Holds(Span4(Range4(Pack(f), Pack(t))), a)
  {
  }

  /** A range line whose second address has an octet above 255, such as
      `1.2.3.4-5.6.7.999`: the CIDR scan stops at `-` with `zct` still 32,
      so the line is accepted as its first address alone. */
  lemma BadRangeFallsThrough(f: Quad, t: Quad)
    requires QuadOk(f) && !(t.u1 < 0x100 && t.u2 < 0x100 && t.u3 < 0x100 && t.u4 < 0x100)
    ensures Filter4(Line4(Some(RangeScan(f, t)), Some(CidrScan(f, None)))) == Some(Range4(Pack(f), Pack(f)))
  {
    QuadOkIff(t);
    CidrRange4Block(f, 32);
  }

  /** A standard-input line is queried exactly when its octets are below
      256 and it has no prefix or `/32`; the queried address prints back as
      the scanned octets. */
  lemma Query4Accepted(c: Option<CidrScan>)
    ensures Query4(c).Some? <==>
      c.Some? && c.value.quad.u1 < 0x100 && c.value.quad.u2 < 0x100 && c.value.quad.u3 < 0x100 &&
      c.value.quad.u4 < 0x100 && (c.value.bits.None? || c.value.bits.value == 32)
    ensures Query4(c).Some? ==> Octets(Query4(c).value) == c.value.quad
  {
    if c.Some? {
      QuadOkIff(c.value.quad);
      if QuadOk(c.value.quad) {
        OctetsPack(c.value.quad);
      }
    }
  }

  // ---------------------------------------------------------------------
  // Lemmas: IPv6

  /** The IPv6 block computation for any mask `m` whose value is the
      netmask with `h` host bits. */
  lemma MaskedHostBlock6(a: In6Addr, h: nat, m: In6Addr, lo: In6Addr, hi: In6Addr)
    requires h <= 128 && Value(m) == Pow2(128) - Pow2(h) && Value(Not6(m)) == Pow2(h) - 1
    requires lo == Ip6And(a, m) && hi == Ip6Or(lo, Not6(m))
    ensures HostBlock(Value(lo), Value(hi), Value(a), h)
    ensures h == 128 ==> Value(lo) == 0 && Value(hi) == Pow2(128) - 1
  {
    var va, vm, vi, vlo, vhi := Value(a), Value(m), Value(Not6(m)), Value(lo), Value(hi);
    assert va < Pow2(128) by {
      ValueBound(a);
    }
    assert vlo == And(va, vm, 128) by {
      Ip6AndValue(a, m);
    }
    assert vhi == Or(vlo, vi, 128) by {
      Ip6OrValue(lo, Not6(m));
    }
    MaskedHostBlock(va, 128, h, vm, vi, vlo, vhi);
  }

  /** Section 2.3 of RFC 4291: `a/p` is the block of `2^(128-p)`
      addresses that share the first `p` bits of `a`, here with
      `h = 128 - p` host bits; `/0` is the whole space. */
  lemma CidrRange6Block(a: In6Addr, h: U32)
    requires h <= 128
    ensures HostBlock(Value(CidrRange6(a, h).ip1), Value(CidrRange6(a, h).ip2), Value(a), h)
    ensures h == 128 ==> Value(CidrRange6(a, h).ip1) == 0 && Value(CidrRange6(a, h).ip2) == Pow2(128) - 1
  {
    Mask6Value(h);
    InvMask6Value(h);
    MaskedHostBlock6(a, h, Mask6(h), CidrRange6(a, h).ip1, CidrRange6(a, h).ip2);
  }

  /** The block of `a` holds `a`. */
  lemma CidrRange6Contains(a: In6Addr, h: U32)
    requires h <= 128
    ensures Value(CidrRange6(a, h).ip1) <= Value(a) <= Value(CidrRange6(a, h).ip2)
  {
    CidrRange6Block(a, h);
  }

  /** A bare address, and an address with `/128`, add the address alone. */
  lemma Filter6Single(a: In6Addr)
    ensures Filter6(Line6(Some(a), NoTail)) == Some(Range6(a, a))
    ensures Filter6(Line6(Some(a), Prefix(Some(128)))) == Some(Range6(a, a))
  {
  }

  /** An address pair is kept, as given, exactly when the second address
      is not below the first. */
  lemma Filter6Pair(a: In6Addr, b: In6Addr)
    ensures Filter6(Line6(Some(a), Upper(Some(b)))).Some? <==> Value(a) <= Value(b)
    ensures Value(a) <= Value(b) ==> Filter6(Line6(Some(a), Upper(Some(b)))) == Some(Range6(a, b))
  {
  }

  /** The lines refused as bad filter entries: an address that did not
      parse, a `/` without a number or with one above 128, a `-` without
      a valid second address, or a second address below the first. */
  lemma Filter6Refused(line: Line6)
    ensures Filter6(line).None? <==>
      line.from.None? || line.tail == Prefix(None) || line.tail == Upper(None) ||
      (line.tail.Prefix? && line.tail.bits.Some? && line.tail.bits.value > 128) ||
      (line.tail.Upper? && line.tail.to.Some? && Value(line.tail.to.value) < Value(line.from.value))
  {
  }

  /** Every range an IPv6 filter line adds is non-empty. */
  lemma Filter6NonEmpty(line: Line6)
    requires Filter6(line).Some?
    ensures Value(Filter6(line).value.ip1) <= Value(Filter6(line).value.ip2)
  {
    var a := line.from.value;
    match line.tail
    case NoTail =>
    case Prefix(bits) =>
      if bits.value < 128 {
        CidrRange6Contains(a, HostBits(bits.value));
      }
    case Upper(to) =>
      Filter6Pair(a, to.value);
  }

  /** A standard-input line is queried exactly when the address parsed and
      there is no prefix or exactly `/128`; any other prefix is refused
      before the address is looked at. */
  lemma Query6Accepted(addr: Option<In6Addr>, slash: Slash)
    ensures Query6(addr, slash).Query? <==> addr.Some? && (slash == NoSlash || slash == Slash(Some(128)))
    ensures Query6(addr, slash).Query? ==> Query6(addr, slash).a == addr.value
    ensures slash.Slash? && slash != Slash(Some(128)) ==> Query6(addr, slash) == BadPrefix
  {
  }
}
