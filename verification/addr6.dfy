/** IPv6 addresses (`struct in6_addr`): sixteen bytes read as one big-endian
    128-bit number.  Covers the comparison `cmp6` in both of its forms, the
    bytewise `ip6_and` / `ip6_or`, the prefix mask builder and the two mask
    tables filled once at start-up. */
module Addr6 {
  import opened Bits

  type In6Addr = s: seq<Byte> | |s| == 16 witness Fill(16, 0)

  const Zero6: In6Addr := Fill(16, 0)

  /** The number a byte string denotes, most significant byte first. */
  function Value(s: seq<Byte>): nat
  {
    if s == [] then 0 else Value(s[..|s| - 1]) * 0x100 + s[|s| - 1]
  }

  // ---------------------------------------------------------------------
  // Big-endian values

  /** A non-empty string is its front followed by its last byte. */
  lemma LastSplit(s: seq<Byte>)
    requires s != []
    ensures s == s[..|s| - 1] + [s[|s| - 1]]
  {
  }

  lemma ValueSnoc(s: seq<Byte>, x: Byte)
    ensures Value(s + [x]) == Value(s) * 0x100 + x
  {
    assert (s + [x])[..|s|] == s;
  }

  lemma {:induction false} ValueBound(s: seq<Byte>)
    ensures Value(s) < Pow2(8 * |s|)
  {
    if s != [] {
      var n := |s|;
      ValueBound(s[..n - 1]);
      Pow2Constants();
      Pow2Sum(8 * (n - 1), 8, 8 * n);
      DigitBound(Value(s[..n - 1]), Pow2(8 * (n - 1)), s[n - 1], 0x100);
    }
  }

  /** Concatenation shifts the first part up by the width of the second. */
  lemma {:induction false} ValueAppend(s: seq<Byte>, t: seq<Byte>)
    ensures Value(s + t) == Value(s) * Pow2(8 * |t|) + Value(t)
  {
    if t == [] {
      assert s + t == s;
    } else {
      var m := |t|;
      var t', x := t[..m - 1], t[m - 1];
      assert s + t == (s + t') + [x];
      assert t == t' + [x];
      ValueSnoc(s + t', x);
      ValueSnoc(t', x);
      ValueAppend(s, t');
      Pow2Constants();
      Pow2Sum(8 * (m - 1), 8, 8 * m);
      Horner(Value(s), Pow2(8 * (m - 1)), Value(t'), 0x100, x);
    }
  }

  /** Byte strings of the same length with the same value are equal. */
  lemma {:induction false} ValueInjective(s: seq<Byte>, t: seq<Byte>)
    requires |s| == |t| && Value(s) == Value(t)
    ensures s == t
  {
    if s != [] {
      var n := |s|;
      LexOrder(Value(s[..n - 1]), s[n - 1], Value(t[..n - 1]), t[n - 1], 0x100);
      ValueInjective(s[..n - 1], t[..n - 1]);
      assert s == s[..n - 1] + [s[n - 1]];
      assert t == t[..n - 1] + [t[n - 1]];
    }
  }

  /** Equal leading bytes and a smaller byte at `i` make the smaller number. */
  lemma FirstDifference(a: seq<Byte>, b: seq<Byte>, i: nat)
    requires |a| == |b| && i < |a| && a[..i] == b[..i] && a[i] < b[i]
    ensures Value(a) < Value(b)
  {
    var ta, tb := a[i + 1..], b[i + 1..];
    assert a == (a[..i] + [a[i]]) + ta;
    assert b == (b[..i] + [b[i]]) + tb;
    ValueAppend(a[..i] + [a[i]], ta);
    ValueAppend(b[..i] + [b[i]], tb);
    ValueSnoc(a[..i], a[i]);
    ValueSnoc(b[..i], b[i]);
    ValueBound(ta);
    ValueBound(tb);
    LexOrder(Value(a[..i] + [a[i]]), Value(ta), Value(b[..i] + [b[i]]), Value(tb), Pow2(8 * |ta|));
  }

  // ---------------------------------------------------------------------
  // cmp6

  /** The first and the second 64-bit word of an address, each in host
      order after the byte swap, i.e. read big-endian. */
  function High(a: In6Addr): nat
  {
    Value(a[..8])
  }

  function Low(a: In6Addr): nat
  {
    Value(a[8..])
  }

  /** The 128-bit value is the high word shifted above the low word. */
  lemma HalvesValue(a: In6Addr)
    ensures Value(a) == High(a) * Pow2(64) + Low(a) && Low(a) < Pow2(64)
  {
    assert a == a[..8] + a[8..];
    ValueAppend(a[..8], a[8..]);
    ValueBound(a[8..]);
  }

  /** Two addresses with the same 128-bit value are the same address. */
  lemma SameValueSame(a: In6Addr, b: In6Addr)
    ensures Value(a) == Value(b) ==> a == b
  {
    if Value(a) == Value(b) {
      ValueInjective(a, b);
    }
  }

  /** `cmp6` on a host with byte-order macros: compare the high words, then
      the low words.  Its sign is the order of the two 128-bit values. */
  function Cmp6(a: In6Addr, b: In6Addr): (r: int)
    ensures r == -1 || r == 0 || r == 1
    ensures r < 0 <==> Value(a) < Value(b)
    ensures r == 0 <==> a == b
    ensures r > 0 <==> Value(a) > Value(b)
  {
    HalvesValue(a);
    HalvesValue(b);
    LexOrder(High(a), Low(a), High(b), Low(b), Pow2(64));
    LexOrder(High(b), Low(b), High(a), Low(a), Pow2(64));
    SameValueSame(a, b);
    if High(a) < High(b) then -1
    else if High(a) > High(b) then 1
    else if Low(a) < Low(b) then -1
    else if Low(a) > Low(b) then 1
    else 0
  }

  /** The fallback `cmp6`: the first differing byte decides.  It agrees with
      the word-wise comparison. */
  method Cmp6Bytes(a: In6Addr, b: In6Addr) returns (r: int)
    ensures r == Cmp6(a, b)
  {
    var i := 0;
    while i < 16
      invariant 0 <= i <= 16
      invariant a[..i] == b[..i]
    {
      if a[i] < b[i] {
        FirstDifference(a, b, i);
        return -1;
      } else if a[i] > b[i] {
        FirstDifference(b, a, i);
        return 1;
      }
      assert a[..i + 1] == a[..i] + [a[i]] && b[..i + 1] == b[..i] + [b[i]];
      i := i + 1;
    }
    assert a == a[..16] && b == b[..16];
    return 0;
  }

  // ---------------------------------------------------------------------
  // ip6_and, ip6_or and the complement

  function AndByte(x: Byte, y: Byte): Byte
  {
    Pow2Constants();
    And(x, y, 8)
  }

  function OrByte(x: Byte, y: Byte): Byte
  {
    Pow2Constants();
    Or(x, y, 8)
  }

  function NotByte(x: Byte): Byte
  {
    Pow2Constants();
    Not(x, 8)
  }

  function AndBytes(s: seq<Byte>, t: seq<Byte>): (r: seq<Byte>)
    requires |s| == |t|
    ensures |r| == |s| && forall i :: 0 <= i < |s| ==> r[i] == AndByte(s[i], t[i])
  {
    seq(|s|, i requires 0 <= i < |s| => AndByte(s[i], t[i]))
  }

  function OrBytes(s: seq<Byte>, t: seq<Byte>): (r: seq<Byte>)
    requires |s| == |t|
    ensures |r| == |s| && forall i :: 0 <= i < |s| ==> r[i] == OrByte(s[i], t[i])
  {
    seq(|s|, i requires 0 <= i < |s| => OrByte(s[i], t[i]))
  }

  function NotBytes(s: seq<Byte>): (r: seq<Byte>)
    ensures |r| == |s| && forall i :: 0 <= i < |s| ==> r[i] == NotByte(s[i])
  {
    seq(|s|, i requires 0 <= i < |s| => NotByte(s[i]))
  }

  /** AND of two numbers with a byte appended below each: the AND of the
      high parts above the AND of the two bytes. */
  lemma AndSnoc(ax: nat, a: nat, x: Byte, bx: nat, b: nat, y: Byte, k: nat, w: nat)
    requires ax == a * 0x100 + x && bx == b * 0x100 + y && w == k + 8
    ensures And(ax, bx, w) == And(a, b, k) * 0x100 + AndByte(x, y)
  {
    Pow2Constants();
    DivModUnique(ax, 0x100, a, x);
    DivModUnique(bx, 0x100, b, y);
    AndSplitAt(ax, bx, w, 8, k, x, y, a, b);
  }

  /** OR of two numbers with a byte appended below each: the OR of the
      high parts above the OR of the two bytes. */
  lemma OrSnoc(ax: nat, a: nat, x: Byte, bx: nat, b: nat, y: Byte, k: nat, w: nat)
    requires ax == a * 0x100 + x && bx == b * 0x100 + y && w == k + 8
    ensures Or(ax, bx, w) == Or(a, b, k) * 0x100 + OrByte(x, y)
  {
    Pow2Constants();
    DivModUnique(ax, 0x100, a, x);
    DivModUnique(bx, 0x100, b, y);
    OrSplitAt(ax, bx, w, 8, k, x, y, a, b);
  }

  lemma AndBytesSnoc(s: seq<Byte>, t: seq<Byte>)
    requires |s| == |t| > 0
    ensures AndBytes(s, t) == AndBytes(s[..|s| - 1], t[..|s| - 1]) + [AndByte(s[|s| - 1], t[|s| - 1])]
  {
  }

  /** Byte by byte AND is AND of the whole big-endian numbers. */
  lemma {:induction false} AndBytesValue(s: seq<Byte>, t: seq<Byte>)
    requires |s| == |t|
    ensures Value(AndBytes(s, t)) == And(Value(s), Value(t), 8 * |s|)
  {
    if s != [] {
      var n := |s|;
      var s', t', x, y := s[..n - 1], t[..n - 1], s[n - 1], t[n - 1];
      LastSplit(s);
      LastSplit(t);
      var r' := AndBytes(s', t');
      AndBytesSnoc(s, t);
      ValueSnoc(r', AndByte(x, y));
      AndBytesValue(s', t');
      ValueSnoc(s', x);
      ValueSnoc(t', y);
      AndSnoc(Value(s), Value(s'), x, Value(t), Value(t'), y, 8 * (n - 1), 8 * n);
    }
  }

  lemma OrBytesSnoc(s: seq<Byte>, t: seq<Byte>)
    requires |s| == |t| > 0
    ensures OrBytes(s, t) == OrBytes(s[..|s| - 1], t[..|s| - 1]) + [OrByte(s[|s| - 1], t[|s| - 1])]
  {
  }

  /** Byte by byte OR is OR of the whole big-endian numbers. */
  lemma {:induction false} OrBytesValue(s: seq<Byte>, t: seq<Byte>)
    requires |s| == |t|
    ensures Value(OrBytes(s, t)) == Or(Value(s), Value(t), 8 * |s|)
  {
    if s != [] {
      var n := |s|;
      var s', t', x, y := s[..n - 1], t[..n - 1], s[n - 1], t[n - 1];
      LastSplit(s);
      LastSplit(t);
      var r' := OrBytes(s', t');
      OrBytesSnoc(s, t);
      ValueSnoc(r', OrByte(x, y));
      OrBytesValue(s', t');
      ValueSnoc(s', x);
      ValueSnoc(t', y);
      OrSnoc(Value(s), Value(s'), x, Value(t), Value(t'), y, 8 * (n - 1), 8 * n);
    }
  }

  /** Complementing every byte complements the whole number. */
  lemma {:induction false} NotBytesValue(s: seq<Byte>)
    ensures Value(NotBytes(s)) == Pow2(8 * |s|) - 1 - Value(s)
  {
    if s != [] {
      var n := |s|;
      var s', x := s[..n - 1], s[n - 1];
      assert s == s' + [x];
      assert NotBytes(s) == NotBytes(s') + [NotByte(x)];
      ValueSnoc(NotBytes(s'), NotByte(x));
      ValueSnoc(s', x);
      NotBytesValue(s');
      Pow2Constants();
      Pow2Sum(8 * (n - 1), 8, 8 * n);
    }
  }

  /** `ip6_and`: AND of two addresses, byte by byte. */
  function Ip6And(a: In6Addr, b: In6Addr): In6Addr
  {
    AndBytes(a, b)
  }

  /** `ip6_or`: OR of two addresses, byte by byte. */
  function Ip6Or(a: In6Addr, b: In6Addr): In6Addr
  {
    OrBytes(a, b)
  }

  /** `~` on an address, byte by byte. */
  function Not6(a: In6Addr): In6Addr
  {
    NotBytes(a)
  }

  /** `ip6_and` is the AND of the two 128-bit numbers. */
  lemma Ip6AndValue(a: In6Addr, b: In6Addr)
    ensures Value(Ip6And(a, b)) == And(Value(a), Value(b), 128)
  {
    AndBytesValue(a, b);
  }

  /** `ip6_or` is the OR of the two 128-bit numbers. */
  lemma Ip6OrValue(a: In6Addr, b: In6Addr)
    ensures Value(Ip6Or(a, b)) == Or(Value(a), Value(b), 128)
  {
    OrBytesValue(a, b);
  }

  /** `~` on an address is the 128-bit complement of its number. */
  lemma Not6Value(a: In6Addr)
    ensures Value(a) < Pow2(128) && Value(Not6(a)) == Not(Value(a), 128)
  {
    ValueBound(a);
    NotBytesValue(a);
  }

  // ---------------------------------------------------------------------
  // Prefix masks

  /** `n` copies of the byte `b`. */
  function Fill(n: nat, b: Byte): (s: seq<Byte>)
    ensures |s| == n && forall i :: 0 <= i < n ==> s[i] == b
  {
    seq(n, i => b)
  }

  lemma {:induction false} FillZeroValue(n: nat)
    ensures Value(Fill(n, 0)) == 0
  {
    if n > 0 {
      assert Fill(n, 0) == Fill(n - 1, 0) + [0];
      ValueSnoc(Fill(n - 1, 0), 0);
      FillZeroValue(n - 1);
    }
  }

  lemma {:induction false} FillOnesValue(n: nat)
    ensures Value(Fill(n, 0xFF)) == Pow2(8 * n) - 1
  {
    if n > 0 {
      assert Fill(n, 0xFF) == Fill(n - 1, 0xFF) + [0xFF];
      ValueSnoc(Fill(n - 1, 0xFF), 0xFF);
      FillOnesValue(n - 1);
      Pow2Constants();
      Pow2Sum(8 * (n - 1), 8, 8 * n);
    }
  }

  /** The bytes `mask_from_bitcount6_make` leaves: `n` bytes of 0xFF, the
      byte `b`, then zero bytes. */
  function MaskLayout(n: nat, b: Byte): (s: seq<Byte>)
    requires n < 16
    ensures |s| == 16
  {
    Fill(n, 0xFF) + [b] + Fill(15 - n, 0)
  }

  /** A string of 16 bytes laid out as the mask: 0xFF below `n`, `b` at `n`,
      zero above. */
  lemma LayoutOf(a: seq<Byte>, n: nat, b: Byte)
    requires |a| == 16 && n < 16 && a[n] == b
    requires forall i :: 0 <= i < n ==> a[i] == 0xFF
    requires forall i :: n < i < 16 ==> a[i] == 0
    ensures a == MaskLayout(n, b)
  {
    var l := MaskLayout(n, b);
    forall i | 0 <= i < 16
      ensures a[i] == l[i]
    {
      if i < n {
        assert l[i] == Fill(n, 0xFF)[i];
      } else if i == n {
        assert l[i] == b;
      } else {
        assert l[i] == Fill(15 - n, 0)[i - n - 1];
      }
    }
  }

  /** `n` bytes of 0xFF followed by the byte `256 - 2^j`. */
  lemma MaskTopValue(n: nat, j: nat, b: Byte)
    requires j < 8 && b == 0x100 - Pow2(j)
    ensures Value(Fill(n, 0xFF) + [b]) == Pow2(8 * n + 8) - Pow2(j)
  {
    assert Pow2(8) == 0x100 by { Pow2Constants(); }
    ValueSnoc(Fill(n, 0xFF), b);
    FillOnesValue(n);
    Pow2Sum(8 * n, 8, 8 * n + 8);
  }

  /** With the partial byte `256 - 2^j` at index `n`, the mask's zero bits
      are the low `8 * (15 - n) + j`. */
  lemma MaskLayoutValue(n: nat, j: nat, zct: nat, b: Byte)
    requires n < 16 && j < 8 && zct == 8 * (15 - n) + j && b == 0x100 - Pow2(j)
    ensures Value(MaskLayout(n, b)) == Pow2(128) - Pow2(zct)
  {
    var top := Fill(n, 0xFF) + [b];
    var m := 15 - n;
    var e := 8 * n + 8;
    calc {
      Value(MaskLayout(n, b));
      Value(top + Fill(m, 0));
    == { ValueAppend(top, Fill(m, 0)); FillZeroValue(m); }
      Value(top) * Pow2(8 * m);
    == { MaskTopValue(n, j, b); }
      (Pow2(e) - Pow2(j)) * Pow2(8 * m);
    == { MulSub(Pow2(e), Pow2(j), Pow2(8 * m)); }
      Pow2(e) * Pow2(8 * m) - Pow2(j) * Pow2(8 * m);
    == { Pow2Sum(e, 8 * m, 128); Pow2Sum(j, 8 * m, zct); }
      Pow2(128) - Pow2(zct);
    }
  }

  lemma Pow2BelowByte(j: nat)
    requires j < 8
    ensures Pow2(j) < 0x100
  {
    Pow2Constants();
    Pow2Monotone(j + 1, 8);
  }

  /** The byte `mask_from_bitcount6_make` writes at index `n`,
      `~((1 << (zct & 7)) - 1)` computed on 32 bits and stored in a byte,
      is `256 - 2^(zct % 8)`. */
  lemma PartialByteValue(zct: U32)
    ensures Shl(1, And(zct, 7, 32), 32) == Pow2(zct % 8) < 0x100
    ensures Mod(Not(Shl(1, And(zct, 7, 32), 32) - 1, 32), 0x100) == 0x100 - Pow2(zct % 8)
  {
    Pow2Constants();
    var j := And(zct, 7, 32);
    AndLowMask(zct, 32, 3);
    Pow2BelowByte(j);
    ModSmall(Pow2(j), Pow2(32));
    var v := Not(Shl(1, j, 32) - 1, 32);
    DivModUnique(v, 0x100, 0xFF_FFFF, 0x100 - Pow2(j));
  }

  /** The byte `mask_from_bitcount6_make` writes at the boundary. */
  method PartialByte(zct: U32) returns (b: Byte)
    ensures b == 0x100 - Pow2(zct % 8)
  {
    PartialByteValue(zct);
    b := Mod(Not(Shl(1, And(zct, 7, 32), 32) - 1, 32), 0x100);
  }

  /** The bytes `mask_from_bitcount6_make` produces for `zct`. */
  function Mask6(zct: U32): In6Addr
  {
    if zct >= 128 then Zero6
    else
      Pow2BelowByte(zct % 8);
      MaskLayout(15 - zct / 8, 0x100 - Pow2(zct % 8))
  }

  lemma ZeroValue()
    ensures Value(Zero6) == 0
  {
    FillZeroValue(16);
  }

  lemma Mask6ValueBelow(zct: U32)
    requires zct < 128
    ensures Value(Mask6(zct)) == Pow2(128) - Pow2(zct)
  {
    Pow2BelowByte(zct % 8);
    MaskLayoutValue(15 - zct / 8, zct % 8, zct, 0x100 - Pow2(zct % 8));
  }

  /** The mask for `zct <= 128` zero bits has the value `2^128 - 2^zct`:
      `128 - zct` leading ones. */
  lemma Mask6Value(zct: U32)
    requires zct <= 128
    ensures Value(Mask6(zct)) == Pow2(128) - Pow2(zct)
  {
    if zct == 128 {
      ZeroValue();
    } else {
      Mask6ValueBelow(zct);
    }
  }

  /** The complement of the mask for `zct` zero bits is `2^zct - 1`. */
  lemma InvMask6Value(zct: U32)
    requires zct <= 128
    ensures Value(Not6(Mask6(zct))) == Pow2(zct) - 1
  {
    calc {
      Value(Not6(Mask6(zct)));
    == { Not6Value(Mask6(zct)); }
      Pow2(128) - 1 - Value(Mask6(zct));
    == { Mask6Value(zct); }
      Pow2(zct) - 1;
    }
  }

  /** `mask_from_bitcount6_make`: the mask whose low `zct` bits are zero and
      whose other bits are one; `zct >= 128` gives all zeros. */
  method MakeMask6(zct: U32) returns (a: In6Addr)
    ensures a == Mask6(zct)
  {
    var buf := new Byte[16];
    if zct >= 128 {
      forall i | 0 <= i < 16 {
        buf[i] := 0;
      }
      a := buf[..];
      assert a == Zero6;
    } else {
      var n := Shr(127 - zct, 3);
      assert n == 15 - zct / 8 by {
        Pow2Constants();
        DivModUnique(127 - zct, 8, 15 - zct / 8, 7 - zct % 8);
      }
      forall i | 0 <= i < n {
        buf[i] := 0xFF;
      }
      forall i | n <= i < 16 {
        buf[i] := 0;
      }
      var b := PartialByte(zct);
      buf[n] := b;
      a := buf[..];
      LayoutOf(a, n, b);
    }
  }

  /** The tables `ip6_mask[129]` and `ip6_inv_mask[129]`, indexed by the
      number of zero bits. */
  class MaskTables {
    var mask: array<In6Addr>
    var invMask: array<In6Addr>

    ghost predicate Valid()
      reads this
    {
      mask.Length == 129 && invMask.Length == 129 && mask != invMask
    }

    /** Both tables hold what `mask_from_bitcount6_prepare` puts there. */
    ghost predicate Ready()
      reads this, mask, invMask
    {
      Valid() && forall z :: 0 <= z <= 128 ==> mask[z] == Mask6(z) && invMask[z] == Not6(Mask6(z))
    }

    /** Static storage: zero until prepared. */
    constructor ()
      ensures Valid() && fresh(mask) && fresh(invMask)
      ensures forall z :: 0 <= z < 129 ==> mask[z] == Zero6 && invMask[z] == Zero6
    {
      mask := new In6Addr[129](_ => Zero6);
      invMask := new In6Addr[129](_ => Zero6);
    }

    /** `mask_from_bitcount6_prepare`: fill entry `zct` of each table for
        `zct` from 0 to 128, the second table with the complements. */
    method Prepare()
      requires Valid()
      modifies mask, invMask
      ensures Ready()
    {
      for zct := 0 to 129
        invariant Valid()
        invariant forall z :: 0 <= z < zct ==> mask[z] == Mask6(z)
        invariant forall z :: 0 <= z < zct ==> invMask[z] == Not6(Mask6(z))
      {
        var m := MakeMask6(zct);
        mask[zct] := m;
        invMask[zct] := Not6(m);
        assert mask[zct] == Mask6(zct);
      }
    }

    /** `mask_from_bitcount6(zct)`: `128 - zct` leading ones. */
    function MaskOf(zct: U32): (m: In6Addr)
      reads this, mask, invMask
      requires Ready() && zct <= 128
      ensures m == Mask6(zct)
      ensures Value(m) == Pow2(128) - Pow2(zct)
    {
      Mask6Value(zct);
      mask[zct]
    }

    /** `inv_mask_from_bitcount6(zct)`: the complement, `zct` trailing ones. */
    function InvMaskOf(zct: U32): (m: In6Addr)
      reads this, mask, invMask
      requires Ready() && zct <= 128
      ensures m == Not6(MaskOf(zct))
      ensures Value(m) == Pow2(zct) - 1
    {
      InvMask6Value(zct);
      invMask[zct]
    }
  }
}
