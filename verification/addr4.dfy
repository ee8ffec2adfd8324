/** IPv4 addresses as `uint32_t`: three-way comparison, the prefix mask,
    the octet check applied to scanned numbers, and packing four octets into
    an address and back. */
module Addr4 {
  import opened Bits

  /** `ucmp`: three-way comparison of two addresses. */
  function Ucmp(a: U32, b: U32): (r: int)
    ensures r == -1 || r == 0 || r == 1
    ensures r < 0 <==> a < b
    ensures r == 0 <==> a == b
    ensures r > 0 <==> a > b
  {
    if a < b then -1 else if a > b then 1 else 0
  }

  /** `mask_from_bitcount(zct)`: `~((1 << zct) - 1)` for `zct < 32`, else 0.
      The shift is read as the unsigned 32-bit shift it is meant to be. */
  function MaskFromBitcount(zct: U32): (m: U32)
    ensures zct < 32 ==> m == Pow2(32) - Pow2(zct) && LeadingOnes(m, 32, zct)
    ensures zct >= 32 ==> m == 0
  {
    if zct < 32 then
      Pow2Constants();
      Pow2Monotone(zct, 31);
      ModSmall(Pow2(zct), Pow2(32));
      LeadingOnesValue(32, zct);
      Not(Shl(1, zct, 32) - 1, 32)
    else
      0
  }

  /** The numbers scanned for the four parts of a dotted quad, before any check. */
  datatype Quad = Quad(u1: U32, u2: U32, u3: U32, u4: U32)

  /** `!(u & 0xFFFFFF00)`: the scanned number fits in an octet. */
  predicate OctetOk(u: U32)
  {
    And(u, 0xFFFF_FF00, 32) == 0
  }

  predicate QuadOk(q: Quad)
  {
    OctetOk(q.u1) && OctetOk(q.u2) && OctetOk(q.u3) && OctetOk(q.u4)
  }

  /** `u1 << 24 | u2 << 16 | u3 << 8 | u4`. */
  function Pack(q: Quad): U32
  {
    Pow2Constants();
    Or(Or(Or(Shl(q.u1, 24, 32), Shl(q.u2, 16, 32), 32), Shl(q.u3, 8, 32), 32), q.u4, 32)
  }

  /** The four numbers `print_ip` prints: `a >> 24`, `(a >> 16) & 0xFF`,
      `(a >> 8) & 0xFF` and `a & 0xFF`. */
  function Octets(a: U32): Quad
  {
    Pow2Constants();
    DivBelow(a, Pow2(24), 0x100);
    Quad(Shr(a, 24), And(Shr(a, 16), 0xFF, 32), And(Shr(a, 8), 0xFF, 32), And(a, 0xFF, 32))
  }

  // ---------------------------------------------------------------------
  // Lemmas

  /** The octet check accepts exactly the numbers below 256. */
  lemma OctetOkIff(u: U32)
    ensures OctetOk(u) <==> u < 0x100
  {
    Pow2Constants();
    AndHighMask(u, 32, 8);
    if u < 0x100 {
      ModSmall(u, 0x100);
    } else {
      assert u - u % 0x100 == (u / 0x100) * 0x100;
    }
  }

  lemma QuadOkIff(q: Quad)
    ensures QuadOk(q) <==> q.u1 < 0x100 && q.u2 < 0x100 && q.u3 < 0x100 && q.u4 < 0x100
  {
    OctetOkIff(q.u1);
    OctetOkIff(q.u2);
    OctetOkIff(q.u3);
    OctetOkIff(q.u4);
  }

  /** A left shift that moves no bit past the top is a multiplication. */
  lemma ShlNoLoss(u: nat, k: nat, p: nat)
    requires p == Pow2(k) && u * p < 0x1_0000_0000
    ensures Shl(u, k, 32) == u * p
  {
    Pow2Constants();
    ModSmall(u * p, Pow2(32));
  }

  /** The packed address is the big-endian value of the four octets. */
  lemma PackValue(q: Quad)
    requires QuadOk(q)
    ensures Pack(q) == q.u1 * 0x100_0000 + q.u2 * 0x1_0000 + q.u3 * 0x100 + q.u4
  {
    Pow2Constants();
    QuadOkIff(q);
    var (u1, u2, u3, u4) := (q.u1, q.u2, q.u3, q.u4);
    ShlNoLoss(u1, 24, 0x100_0000);
    ShlNoLoss(u2, 16, 0x1_0000);
    ShlNoLoss(u3, 8, 0x100);
    var x1 := u1 * 0x100_0000;
    DivModUnique(x1, 0x100_0000, u1, 0);
    OrDisjoint(x1, u2 * 0x1_0000, 32, 24);
    var x2 := x1 + u2 * 0x1_0000;
    DivModUnique(x2, 0x1_0000, u1 * 0x100 + u2, 0);
    OrDisjoint(x2, u3 * 0x100, 32, 16);
    var x3 := x2 + u3 * 0x100;
    DivModUnique(x3, 0x100, u1 * 0x1_0000 + u2 * 0x100 + u3, 0);
    OrDisjoint(x3, u4, 32, 8);
  }

  /** The printed octets are the quotients and remainders by powers of 256. */
  lemma OctetsValue(a: U32)
    ensures Octets(a) == Quad(a / 0x100_0000, (a / 0x1_0000) % 0x100, (a / 0x100) % 0x100, a % 0x100)
  {
    Pow2Constants();
    AndLowMask(a / 0x1_0000, 32, 8);
    AndLowMask(a / 0x100, 32, 8);
    AndLowMask(a, 32, 8);
    DivBelow(a, 0x100_0000, 0x100);
  }

  /** Unpacking a packed quad of octets gives the octets back. */
  lemma OctetsPack(q: Quad)
    requires QuadOk(q)
    ensures Octets(Pack(q)) == q
  {
    QuadOkIff(q);
    PackValue(q);
    var (u1, u2, u3, u4) := (q.u1, q.u2, q.u3, q.u4);
    var a := Pack(q);
    OctetsValue(a);
    var hi := u1 * 0x100 + u2;
    var mid := u1 * 0x1_0000 + u2 * 0x100 + u3;
    DivModUnique(a, 0x100_0000, u1, u2 * 0x1_0000 + u3 * 0x100 + u4);
    DivModUnique(a, 0x1_0000, hi, u3 * 0x100 + u4);
    DivModUnique(a, 0x100, mid, u4);
    DivModUnique(hi, 0x100, u1, u2);
    DivModUnique(mid, 0x100, hi, u3);
  }

  /** Every address is the packing of its printed octets, which all pass the check. */
  lemma PackOctets(a: U32)
    ensures QuadOk(Octets(a)) && Pack(Octets(a)) == a
  {
    OctetsValue(a);
    var q := Octets(a);
    QuadOkIff(q);
    RebuildFromOctets(a);
    PackValue(q);
  }

  /** `a` is the sum of its four octets weighted by their place. */
  lemma RebuildFromOctets(a: nat)
    ensures a == (a / 0x100_0000) * 0x100_0000 + ((a / 0x1_0000) % 0x100) * 0x1_0000
                 + ((a / 0x100) % 0x100) * 0x100 + a % 0x100
  {
    var b := a / 0x100;
    var c := b / 0x100;
    var d := c / 0x100;
    assert a == b * 0x100 + a % 0x100;
    assert b == c * 0x100 + b % 0x100;
    assert c == d * 0x100 + c % 0x100;
    HalveBy256(a);
    HalveBy256(b);
  }

  /** Dividing by 256 twice is dividing by 65536. */
  lemma HalveBy256(x: nat)
    ensures x / 0x1_0000 == (x / 0x100) / 0x100
    ensures x / 0x100_0000 == ((x / 0x100) / 0x100) / 0x100
  {
    var b := x / 0x100;
    var c := b / 0x100;
    var d := c / 0x100;
    DivModUnique(x, 0x1_0000, c, (b % 0x100) * 0x100 + x % 0x100);
    DivModUnique(x, 0x100_0000, d, (c % 0x100) * 0x1_0000 + (b % 0x100) * 0x100 + x % 0x100);
  }

  /** `mask_from_bitcount(32 - p)` is the netmask of an IPv4 prefix of length `p`:
      `p` leading ones; length 0 gives the empty mask and length 32 all ones. */
  lemma Netmask(p: nat)
    requires p <= 32
    ensures MaskFromBitcount(32 - p) == Pow2(32) - Pow2(32 - p)
    ensures p == 0 ==> MaskFromBitcount(32 - p) == 0
    ensures p == 32 ==> MaskFromBitcount(32 - p) == 0xFFFF_FFFF
  {
    Pow2Constants();
  }
}
