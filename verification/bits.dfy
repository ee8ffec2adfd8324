/** Fixed-width unsigned integers as bounded naturals, with the bitwise
    operators the filter uses (`&`, `|`, `~`, `<<`, `>>`).  AND and OR act on
    the `w`-bit binary expansion, least significant bit first; the lemmas
    connect them with prefix masks and with evaluation part by part. */
module Bits {

  type Byte = x: nat | x < 0x100
  type U32 = x: nat | x < 0x1_0000_0000

  function Pow2(n: nat): (r: nat)
    ensures r >= 1
  {
    if n == 0 then 1 else 2 * Pow2(n - 1)
  }

  /** Quotient of naturals (C's `/` on unsigned operands). */
  function Div(x: nat, d: nat): nat
    requires d > 0
  {
    x / d
  }

  /** Remainder of naturals (C's `%` on unsigned operands). */
  function Mod(x: nat, d: nat): (r: nat)
    requires d > 0
    ensures r < d
  {
    x % d
  }

  // ---------------------------------------------------------------------
  // Binary expansions

  /** The low `w` bits of `x`, least significant first. */
  function ToBits(x: nat, w: nat): (s: seq<bool>)
    ensures |s| == w
  {
    if w == 0 then [] else [x % 2 == 1] + ToBits(x / 2, w - 1)
  }

  /** The number a bit string denotes, least significant bit first. */
  function FromBits(s: seq<bool>): nat
  {
    if s == [] then 0 else (if s[0] then 1 else 0) + 2 * FromBits(s[1..])
  }

  function Zeros(n: nat): (s: seq<bool>)
    ensures |s| == n && forall i :: 0 <= i < n ==> !s[i]
  {
    seq(n, i => false)
  }

  function Ones(n: nat): (s: seq<bool>)
    ensures |s| == n && forall i :: 0 <= i < n ==> s[i]
  {
    seq(n, i => true)
  }

  function AndBits(s: seq<bool>, t: seq<bool>): (r: seq<bool>)
    requires |s| == |t|
    ensures |r| == |s| && forall i :: 0 <= i < |s| ==> r[i] == (s[i] && t[i])
  {
    seq(|s|, i requires 0 <= i < |s| => s[i] && t[i])
  }

  function OrBits(s: seq<bool>, t: seq<bool>): (r: seq<bool>)
    requires |s| == |t|
    ensures |r| == |s| && forall i :: 0 <= i < |s| ==> r[i] == (s[i] || t[i])
  {
    seq(|s|, i requires 0 <= i < |s| => s[i] || t[i])
  }

  function NotBits(s: seq<bool>): (r: seq<bool>)
    ensures |r| == |s| && forall i :: 0 <= i < |s| ==> r[i] == !s[i]
  {
    seq(|s|, i requires 0 <= i < |s| => !s[i])
  }

  // ---------------------------------------------------------------------
  // The operators

  /** `x & y` on `w` bits. */
  function And(x: nat, y: nat, w: nat): (r: nat)
    ensures r < Pow2(w)
  {
    var s := AndBits(ToBits(x, w), ToBits(y, w));
    FromBitsBound(s);
    FromBits(s)
  }

  /** `x | y` on `w` bits. */
  function Or(x: nat, y: nat, w: nat): (r: nat)
    ensures r < Pow2(w)
  {
    var s := OrBits(ToBits(x, w), ToBits(y, w));
    FromBitsBound(s);
    FromBits(s)
  }

  /** `~x` on `w` bits. */
  function Not(x: nat, w: nat): (r: nat)
    requires x < Pow2(w)
    ensures r < Pow2(w)
  {
    Pow2(w) - 1 - x
  }

  /** `x << k` on `w` bits: bits moved past the top are lost. */
  function Shl(x: nat, k: nat, w: nat): (r: nat)
    ensures r < Pow2(w)
  {
    Mod(x * Pow2(k), Pow2(w))
  }

  /** `x >> k` on an unsigned value. */
  function Shr(x: nat, k: nat): nat
  {
    Div(x, Pow2(k))
  }

  /** `m` has ones in its top `w - z` bits and zeros in its low `z` bits. */
  ghost predicate LeadingOnes(m: int, w: nat, z: nat)
    requires z <= w
  {
    m % Pow2(z) == 0 && m / Pow2(z) == Pow2(w - z) - 1
  }

  // ---------------------------------------------------------------------
  // Powers of two

  lemma {:induction false} Pow2Add(a: nat, b: nat)
    ensures Pow2(a + b) == Pow2(a) * Pow2(b)
  {
    if a > 0 {
      Pow2Add(a - 1, b);
      MulTwice(Pow2(a - 1), Pow2(b));
    }
  }

  lemma {:induction false} Pow2Monotone(a: nat, b: nat)
    requires a <= b
    ensures Pow2(a) <= Pow2(b)
  {
    if a < b {
      Pow2Monotone(a, b - 1);
    }
  }

  lemma Pow2Split(w: nat, h: nat)
    requires h <= w
    ensures Pow2(w) == Pow2(h) * Pow2(w - h)
  {
    var k := w - h;
    assert h + k == w;
    Pow2Add(h, k);
  }

  /** `Pow2Add` with the sum named by the caller. */
  lemma Pow2Sum(a: nat, b: nat, c: nat)
    requires a + b == c
    ensures Pow2(c) == Pow2(a) * Pow2(b)
  {
    Pow2Add(a, b);
  }

  lemma Pow2Constants()
    ensures Pow2(3) == 8 && Pow2(8) == 0x100 && Pow2(16) == 0x1_0000
    ensures Pow2(24) == 0x100_0000 && Pow2(32) == 0x1_0000_0000
  {
    assert Pow2(3) == 8 && Pow2(4) == 16 by {
      assert Pow2(2) == 4;
    }
    Pow2Add(4, 4);
    Pow2Add(8, 8);
    Pow2Add(16, 8);
    Pow2Add(16, 16);
  }

  // ---------------------------------------------------------------------
  // Arithmetic steps, each kept to a handful of variables

  lemma MulTwice(p: int, q: int)
    ensures 2 * (p * q) == (2 * p) * q
  {
  }

  lemma MulLessOne(a: int, b: int)
    ensures a * b - b == (a - 1) * b
  {
  }

  lemma MulGap(a: int, b: int, d: int)
    requires a > b && d > 0
    ensures a * d - b * d >= d
  {
    assert a * d - b * d == (a - b - 1) * d + d;
    assert (a - b - 1) * d >= 0;
  }

  /** Quotient and remainder are the only pair that rebuilds `x`. */
  lemma DivModUnique(x: int, d: int, q: int, r: int)
    requires d > 0 && 0 <= r < d && x == q * d + r
    ensures x / d == q && x % d == r
  {
    var q', r' := x / d, x % d;
    assert x == q' * d + r';
    if q > q' {
      MulGap(q, q', d);
    } else if q < q' {
      MulGap(q', q, d);
    }
  }

  lemma ModSmall(x: nat, d: nat)
    requires x < d
    ensures x % d == x && x / d == 0
  {
    DivModUnique(x, d, 0, x);
  }

  /** Removing the lowest bit first, then dividing by `p`, is dividing by `2p`. */
  lemma HalveMod(x: nat, p: nat)
    requires p > 0
    ensures x % (2 * p) == 2 * ((x / 2) % p) + x % 2
    ensures x / (2 * p) == (x / 2) / p
  {
    var q, r := (x / 2) / p, (x / 2) % p;
    assert x / 2 == q * p + r;
    assert x == q * (2 * p) + (2 * r + x % 2);
    DivModUnique(x, 2 * p, q, 2 * r + x % 2);
  }

  /** If `x < p * q` then `x / p < q`. */
  lemma DivBelow(x: nat, p: nat, q: nat)
    requires p > 0 && x < p * q
    ensures x / p < q
  {
    if x / p >= q {
      MulGap(x / p + 1, q, p);
    }
  }

  /** A digit appended below a number that is below `p` stays below `p * b`. */
  lemma DigitBound(v: int, p: int, x: int, b: int)
    requires 0 <= v < p && 0 <= x < b
    ensures v * b + x < p * b
  {
    MulGap(p, v, b);
  }

  /** Horner step: `(a * p + c) * d + x` regrouped. */
  lemma Horner(a: int, p: int, c: int, d: int, x: int)
    ensures (a * p + c) * d + x == a * (p * d) + (c * d + x)
  {
    assert (a * p) * d == a * (p * d);
  }

  /** Numbers written as `high * p + low` with `low < p` compare high part first. */
  lemma LexOrder(ha: int, la: int, hb: int, lb: int, p: int)
    requires 0 <= la < p && 0 <= lb < p
    ensures ha * p + la < hb * p + lb <==> ha < hb || (ha == hb && la < lb)
    ensures ha * p + la == hb * p + lb <==> ha == hb && la == lb
  {
    if ha < hb {
      MulGap(hb, ha, p);
    } else if hb < ha {
      MulGap(ha, hb, p);
    }
  }

  lemma MulSub(a: int, b: int, c: int)
    ensures (a - b) * c == a * c - b * c
  {
  }

  /** A binary expansion whose low part is all zeros and whose high part
      is `q - 1` is worth `p * q - p`, where `p` is the place of the high
      part. */
  lemma ScaledLessOne(f: int, z: int, p: int, o: int, q: int, r: int)
    requires f == z + p * o && z == 0 && o == q - 1 && r == p * q
    ensures f == r - p
  {
  }

  /** An expansion with a zero low part and the high part `x / p` is `x`
      with its low part `x % p` removed. */
  lemma ScaledQuotient(x: nat, p: nat, f: int, q: int)
    requires p > 0 && f == 0 + p * q && q == x / p
    ensures f == x - x % p
  {
  }

  /** An expansion `a + p * b` keeps its value when its low part `a` and its
      high part `b` are replaced by equal values. */
  lemma LowPlusScaled(f: int, a: int, p: int, b: int, a': int, b': int)
    requires f == a + p * b && a == a' && b == b'
    ensures f == a' + p * b'
  {
  }

  // ---------------------------------------------------------------------
  // Reading and writing binary expansions

  lemma {:induction false} FromBitsBound(s: seq<bool>)
    ensures FromBits(s) < Pow2(|s|)
  {
    if s != [] {
      FromBitsBound(s[1..]);
    }
  }

  /** Reading back the low `w` bits of `x` gives `x` modulo `2^w`. */
  lemma {:induction false} FromToBits(x: nat, w: nat)
    ensures FromBits(ToBits(x, w)) == x % Pow2(w)
  {
    if w > 0 {
      FromToBits(x / 2, w - 1);
      HalveMod(x, Pow2(w - 1));
      assert ToBits(x, w)[1..] == ToBits(x / 2, w - 1);
    }
  }

  /** A bit string is the low bits of the number it denotes. */
  lemma {:induction false} ToFromBits(s: seq<bool>)
    ensures ToBits(FromBits(s), |s|) == s
  {
    if s != [] {
      var v := FromBits(s);
      var t := FromBits(s[1..]);
      assert v / 2 == t && v % 2 == (if s[0] then 1 else 0);
      ToFromBits(s[1..]);
      assert ToBits(v, |s|) == [s[0]] + s[1..];
    }
  }

  /** A value below `2^w` is exactly what its `w` bits denote. */
  lemma FromToBitsSmall(x: nat, w: nat)
    requires x < Pow2(w)
    ensures FromBits(ToBits(x, w)) == x
  {
    FromToBits(x, w);
    ModSmall(x, Pow2(w));
  }

  /** Two values below `2^w` with the same `w` bits are equal. */
  lemma ToBitsInjective(x: nat, y: nat, w: nat)
    requires x < Pow2(w) && y < Pow2(w) && ToBits(x, w) == ToBits(y, w)
    ensures x == y
  {
    FromToBitsSmall(x, w);
    FromToBitsSmall(y, w);
  }

  /** The bits of a concatenation: the second part is worth `2^|s|` per unit. */
  lemma {:induction false} FromBitsAppend(s: seq<bool>, t: seq<bool>)
    ensures FromBits(s + t) == FromBits(s) + Pow2(|s|) * FromBits(t)
  {
    if s != [] {
      var b := if s[0] then 1 else 0;
      assert (s + t)[0] == s[0] && (s + t)[1..] == s[1..] + t;
      assert FromBits(s + t) == b + 2 * FromBits(s[1..] + t);
      FromBitsAppend(s[1..], t);
      MulTwice(Pow2(|s| - 1), FromBits(t));
      assert Pow2(|s|) == 2 * Pow2(|s| - 1);
    } else {
      assert s + t == t;
    }
  }

  /** The `w` bits of `x` are its low `h` bits followed by the `w - h` bits of `x >> h`. */
  lemma {:induction false} ToBitsSplit(x: nat, h: nat, w: nat)
    requires h <= w
    ensures ToBits(x, w) == ToBits(x, h) + ToBits(Div(x, Pow2(h)), w - h)
  {
    if h > 0 {
      ToBitsSplit(x / 2, h - 1, w - 1);
      HalveMod(x, Pow2(h - 1));
    }
  }

  /** The low `h` bits of `x` depend only on `x % 2^h`. */
  lemma ToBitsLow(x: nat, h: nat)
    ensures ToBits(x, h) == ToBits(Mod(x, Pow2(h)), h)
  {
    FromToBits(x, h);
    ToFromBits(ToBits(x, h));
  }

  lemma {:induction false} ZerosBits(n: nat)
    ensures ToBits(0, n) == Zeros(n)
  {
    if n > 0 {
      ZerosBits(n - 1);
    }
  }

  lemma {:induction false} OnesBits(n: nat)
    ensures ToBits(Pow2(n) - 1, n) == Ones(n)
  {
    if n > 0 {
      OnesBits(n - 1);
      assert (Pow2(n) - 1) / 2 == Pow2(n - 1) - 1;
    }
  }

  lemma FromZeros(n: nat)
    ensures FromBits(Zeros(n)) == 0
  {
    ZerosBits(n);
    FromToBits(0, n);
    ModSmall(0, Pow2(n));
  }

  lemma FromOnes(n: nat)
    ensures FromBits(Ones(n)) == Pow2(n) - 1
  {
    OnesBits(n);
    FromToBits(Pow2(n) - 1, n);
    ModSmall(Pow2(n) - 1, Pow2(n));
  }

  lemma HighMaskValue(w: nat, h: nat)
    requires h <= w
    ensures FromBits(Zeros(h) + Ones(w - h)) == Pow2(w) - Pow2(h)
  {
    FromBitsAppend(Zeros(h), Ones(w - h));
    FromZeros(h);
    FromOnes(w - h);
    Pow2Split(w, h);
    ScaledLessOne(FromBits(Zeros(h) + Ones(w - h)), FromBits(Zeros(h)), Pow2(|Zeros(h)|),
                  FromBits(Ones(w - h)), Pow2(w - h), Pow2(w));
  }

  /** `2^w - 2^h` on `w` bits: `h` zeros, then ones. */
  lemma HighMaskBits(w: nat, h: nat)
    requires h <= w
    ensures Pow2(h) <= Pow2(w)
    ensures ToBits(Pow2(w) - Pow2(h), w) == Zeros(h) + Ones(w - h)
  {
    Pow2Monotone(h, w);
    HighMaskValue(w, h);
    ToFromBits(Zeros(h) + Ones(w - h));
  }

  /** `2^h - 1` on `w` bits: `h` ones, then zeros. */
  lemma LowMaskBits(w: nat, h: nat)
    requires h <= w
    ensures ToBits(Pow2(h) - 1, w) == Ones(h) + Zeros(w - h)
  {
    FromBitsAppend(Ones(h), Zeros(w - h));
    FromOnes(h);
    FromZeros(w - h);
    LowPlusScaled(FromBits(Ones(h) + Zeros(w - h)), FromBits(Ones(h)), Pow2(|Ones(h)|),
                  FromBits(Zeros(w - h)), Pow2(h) - 1, 0);
    ToFromBits(Ones(h) + Zeros(w - h));
  }

  lemma AndBitsAppend(s: seq<bool>, s': seq<bool>, t: seq<bool>, t': seq<bool>)
    requires |s| == |t| && |s'| == |t'|
    ensures AndBits(s + s', t + t') == AndBits(s, t) + AndBits(s', t')
  {
    assert forall i :: 0 <= i < |s| + |s'| ==>
      AndBits(s + s', t + t')[i] == (AndBits(s, t) + AndBits(s', t'))[i];
  }

  lemma OrBitsAppend(s: seq<bool>, s': seq<bool>, t: seq<bool>, t': seq<bool>)
    requires |s| == |t| && |s'| == |t'|
    ensures OrBits(s + s', t + t') == OrBits(s, t) + OrBits(s', t')
  {
    assert forall i :: 0 <= i < |s| + |s'| ==>
      OrBits(s + s', t + t')[i] == (OrBits(s, t) + OrBits(s', t'))[i];
  }

  // ---------------------------------------------------------------------
  // AND and OR with masks

  /** AND with a mask of `w - h` leading ones clears the low `h` bits. */
  lemma AndHighMask(x: nat, w: nat, h: nat)
    requires h <= w && x < Pow2(w)
    ensures Pow2(h) <= Pow2(w)
    ensures And(x, Pow2(w) - Pow2(h), w) == x - x % Pow2(h)
  {
    Pow2Monotone(h, w);
    var p, q := Pow2(h), Pow2(w - h);
    var hi := ToBits(Div(x, p), w - h);
    ToBitsSplit(x, h, w);
    HighMaskBits(w, h);
    AndBitsAppend(ToBits(x, h), hi, Zeros(h), Ones(w - h));
    assert AndBits(ToBits(x, h), Zeros(h)) == Zeros(h);
    assert AndBits(hi, Ones(w - h)) == hi;
    FromBitsAppend(Zeros(h), hi);
    FromZeros(h);
    Pow2Split(w, h);
    DivBelow(x, p, q);
    FromToBitsSmall(Div(x, p), w - h);
    ScaledQuotient(x, p, FromBits(Zeros(h) + hi), FromBits(hi));
  }

  /** AND with `2^h - 1` keeps the low `h` bits. */
  lemma AndLowMask(x: nat, w: nat, h: nat)
    requires h <= w
    ensures And(x, Pow2(h) - 1, w) == x % Pow2(h)
  {
    var lo := ToBits(x, h);
    ToBitsSplit(x, h, w);
    LowMaskBits(w, h);
    AndBitsAppend(lo, ToBits(Div(x, Pow2(h)), w - h), Ones(h), Zeros(w - h));
    assert AndBits(lo, Ones(h)) == lo;
    assert AndBits(ToBits(Div(x, Pow2(h)), w - h), Zeros(w - h)) == Zeros(w - h);
    FromBitsAppend(lo, Zeros(w - h));
    FromZeros(w - h);
    FromToBits(x, h);
  }

  /** OR of a value whose low `h` bits are clear with a value below `2^h` is their sum. */
  lemma OrDisjoint(x: nat, y: nat, w: nat, h: nat)
    requires h <= w && x < Pow2(w) && x % Pow2(h) == 0 && y < Pow2(h)
    ensures Or(x, y, w) == x + y
  {
    var p, q := Pow2(h), Pow2(w - h);
    var hi := ToBits(Div(x, p), w - h);
    ToBitsSplit(x, h, w);
    ToBitsSplit(y, h, w);
    ToBitsLow(x, h);
    ZerosBits(h);
    ModSmall(y, p);
    ZerosBits(w - h);
    OrBitsAppend(Zeros(h), hi, ToBits(y, h), Zeros(w - h));
    assert OrBits(Zeros(h), ToBits(y, h)) == ToBits(y, h);
    assert OrBits(hi, Zeros(w - h)) == hi;
    FromBitsAppend(ToBits(y, h), hi);
    FromToBitsSmall(y, h);
    Pow2Split(w, h);
    DivBelow(x, p, q);
    FromToBitsSmall(Div(x, p), w - h);
    ScaledQuotient(x, p, FromBits(ToBits(y, h) + hi) - y, FromBits(hi));
  }

  /** AND splits at bit `h` into the AND of the low parts and of the high parts. */
  lemma AndSplit(x: nat, y: nat, w: nat, h: nat)
    requires h <= w
    ensures And(x, y, w) ==
      And(Mod(x, Pow2(h)), Mod(y, Pow2(h)), h) + Pow2(h) * And(Div(x, Pow2(h)), Div(y, Pow2(h)), w - h)
  {
    var p := Pow2(h);
    var hx, hy := ToBits(Div(x, p), w - h), ToBits(Div(y, p), w - h);
    ToBitsSplit(x, h, w);
    ToBitsSplit(y, h, w);
    ToBitsLow(x, h);
    ToBitsLow(y, h);
    AndBitsAppend(ToBits(x, h), hx, ToBits(y, h), hy);
    FromBitsAppend(AndBits(ToBits(x, h), ToBits(y, h)), AndBits(hx, hy));
  }

  /** OR splits at bit `h` into the OR of the low parts and of the high parts. */
  lemma OrSplit(x: nat, y: nat, w: nat, h: nat)
    requires h <= w
    ensures Or(x, y, w) ==
      Or(Mod(x, Pow2(h)), Mod(y, Pow2(h)), h) + Pow2(h) * Or(Div(x, Pow2(h)), Div(y, Pow2(h)), w - h)
  {
    var p := Pow2(h);
    var hx, hy := ToBits(Div(x, p), w - h), ToBits(Div(y, p), w - h);
    ToBitsSplit(x, h, w);
    ToBitsSplit(y, h, w);
    ToBitsLow(x, h);
    ToBitsLow(y, h);
    OrBitsAppend(ToBits(x, h), hx, ToBits(y, h), hy);
    FromBitsAppend(OrBits(ToBits(x, h), ToBits(y, h)), OrBits(hx, hy));
  }

  /** `AndSplit` with the parts named by the caller. */
  lemma AndSplitAt(x: nat, y: nat, w: nat, h: nat, k: nat, xl: nat, yl: nat, xh: nat, yh: nat)
    requires h + k == w
    requires xl == Mod(x, Pow2(h)) && yl == Mod(y, Pow2(h))
    requires xh == Div(x, Pow2(h)) && yh == Div(y, Pow2(h))
    ensures And(x, y, w) == And(xl, yl, h) + Pow2(h) * And(xh, yh, k)
  {
    AndSplit(x, y, w, h);
    assert w - h == k;
  }

  /** `OrSplit` with the parts named by the caller. */
  lemma OrSplitAt(x: nat, y: nat, w: nat, h: nat, k: nat, xl: nat, yl: nat, xh: nat, yh: nat)
    requires h + k == w
    requires xl == Mod(x, Pow2(h)) && yl == Mod(y, Pow2(h))
    requires xh == Div(x, Pow2(h)) && yh == Div(y, Pow2(h))
    ensures Or(x, y, w) == Or(xl, yl, h) + Pow2(h) * Or(xh, yh, k)
  {
    OrSplit(x, y, w, h);
    assert w - h == k;
  }

  /** `Not` flips every one of the `w` bits. */
  lemma {:induction false} NotFlipsBits(x: nat, w: nat)
    requires x < Pow2(w)
    ensures ToBits(Not(x, w), w) == NotBits(ToBits(x, w))
  {
    if w > 0 {
      var r := Not(x, w);
      assert r / 2 == Pow2(w - 1) - 1 - x / 2 && r % 2 == 1 - x % 2;
      NotFlipsBits(x / 2, w - 1);
      assert NotBits(ToBits(x, w)) == [!(x % 2 == 1)] + NotBits(ToBits(x / 2, w - 1));
    }
  }

  // ---------------------------------------------------------------------
  // Prefix blocks (RFC 4632 section 3.1, RFC 4291 section 2.3)

  /** Clearing the low `h` bits of `a` and then setting them gives the
      aligned block of `2^h` values that holds `a`: exactly the values that
      agree with `a` above bit `h`. */
  lemma Block(a: nat, h: nat, lo: nat, hi: nat)
    requires lo == a - a % Pow2(h) && hi == lo + Pow2(h) - 1
    ensures lo <= a <= hi && lo % Pow2(h) == 0 && hi - lo == Pow2(h) - 1
    ensures forall x: nat :: lo <= x <= hi <==> x / Pow2(h) == a / Pow2(h)
  {
    var p := Pow2(h);
    var q := a / p;
    assert lo == q * p;
    DivModUnique(lo, p, q, 0);
    forall x: nat
      ensures lo <= x <= hi <==> x / p == q
    {
      if lo <= x <= hi {
        DivModUnique(x, p, q, x - lo);
      }
    }
  }

  /** A CIDR block computed with masks: `lo = a & m` for the mask `m` with
      `z` trailing zeros on `w` bits, and `hi = lo | inv` for its
      complement `inv = 2^z - 1`. */
  lemma MaskedBlock(a: nat, w: nat, z: nat, m: nat, inv: nat, lo: nat, hi: nat)
    requires z <= w && a < Pow2(w) && m == Pow2(w) - Pow2(z) && inv == Pow2(z) - 1
    requires lo == And(a, m, w) && hi == Or(lo, inv, w)
    ensures lo <= a <= hi && lo % Pow2(z) == 0 && hi - lo == Pow2(z) - 1
    ensures forall x: nat :: lo <= x <= hi <==> x / Pow2(z) == a / Pow2(z)
  {
    AndHighMask(a, w, z);
    Block(a, z, lo, lo + Pow2(z) - 1);
    OrDisjoint(lo, inv, w, z);
  }

  /** `2^w - 2^z` factors as `(2^(w-z) - 1) * 2^z`. */
  lemma Pow2Difference(w: nat, z: nat)
    requires z <= w
    ensures Pow2(z) <= Pow2(w)
    ensures Pow2(w) - Pow2(z) == (Pow2(w - z) - 1) * Pow2(z)
  {
    Pow2Monotone(z, w);
    Pow2Split(w, z);
    MulLessOne(Pow2(w - z), Pow2(z));
  }

  /** The leading-ones reading of `2^w - 2^z`. */
  lemma LeadingOnesValue(w: nat, z: nat)
    requires z <= w
    ensures Pow2(z) <= Pow2(w)
    ensures (Pow2(w) - Pow2(z)) % Pow2(z) == 0
    ensures (Pow2(w) - Pow2(z)) / Pow2(z) == Pow2(w - z) - 1
    ensures LeadingOnes(Pow2(w) - Pow2(z), w, z)
  {
    Pow2Difference(w, z);
    DivModUnique(Pow2(w) - Pow2(z), Pow2(z), Pow2(w - z) - 1, 0);
  }
}
