/**
 * The conversion between 4-byte and 8-byte floating point of floating_point.h (single and double format
 * of section 3.4 of IEEE 754-2008), for nodes whose `double` has four bytes.
 */
module FloatingPoint {
  import opened Wrappers

  type Bits = bv8

  // ---------------------------------------------------------------------------------------------
  // The bit moves, on bytes in order of significance
  // ---------------------------------------------------------------------------------------------

  /** Sign and first exponent bit, three more exponent bits moved down, and 111 in between iff the first
      exponent bit is 0. */
  function WideFirst(b: Bits): Bits {
    ((b & (0x80 | 0x40)) | ((b >> 3) & 0x07)) | (if b & 0x40 == 0 then 0x38 else 0)
  }

  function WideSecond(b: Bits, c: Bits): Bits {
    (((b << 5) & 0xe0) | ((c >> 3) & 0x10)) | ((c >> 3) & 0x0f)
  }

  function WideNext(b: Bits, c: Bits): Bits {
    ((b << 5) & 0xe0) | ((c >> 3) & 0x1f)
  }

  function WideLast(b: Bits): Bits {
    (b << 5) & 0xe0
  }

  function Widen(v: seq<Bits>): (t: seq<Bits>)
    requires |v| == 4
    ensures |t| == 8
  {
    [WideFirst(v[0]), WideSecond(v[0], v[1]), WideNext(v[1], v[2]), WideNext(v[2], v[3]), WideLast(v[3]), 0, 0, 0]
  }

  function NarrowFirst(b: Bits, c: Bits): Bits {
    (b & 0xc0) | ((b << 3) & 0x38) | ((c >> 5) & 0x07)
  }

  function NarrowNext(b: Bits, c: Bits): Bits {
    ((b << 3) & 0xf8) | ((c >> 5) & 0x07)
  }

  function Narrow(t: seq<Bits>): (v: seq<Bits>)
    requires |t| == 8
    ensures |v| == 4
  {
    [NarrowFirst(t[0], t[1]), NarrowNext(t[1], t[2]), NarrowNext(t[2], t[3]), NarrowNext(t[3], t[4])]
  }

  lemma WideFirstCases(b: Bits)
    ensures b & 0x40 == 0 ==> (0 | ((b & (0x80 | 0x40)) | ((b >> 3) & 0x07))) | 0x38 == WideFirst(b)
    ensures b & 0x40 != 0 ==> 0 | ((b & (0x80 | 0x40)) | ((b >> 3) & 0x07)) == WideFirst(b)
  {
  }

  lemma WideOthers(b: Bits, c: Bits)
    ensures (0 | (((b << 5) & 0xe0) | ((c >> 3) & 0x10))) | ((c >> 3) & 0x0f) == WideSecond(b, c)
    ensures 0 | (((b << 5) & 0xe0) | ((c >> 3) & 0x1f)) == WideNext(b, c)
    ensures 0 | ((c << 5) & 0xe0) == WideLast(c)
  {
  }

  // ---------------------------------------------------------------------------------------------
  // The serialisers
  // ---------------------------------------------------------------------------------------------

  /** memset( target, 0, n ) */
  method Clear(target: array<Bits>, n: nat)
    requires n <= target.Length
    modifies target
    ensures forall k | 0 <= k < n :: target[k] == 0
    ensures target[n..] == old(target[n..])
  {
    forall i | 0 <= i < n { target[i] := 0; }
  }

  /** *(target + i) |= bits */
  method OrInto(target: array<Bits>, i: nat, bits: Bits)
    requires i < target.Length
    modifies target
    ensures target[..] == old(target[..])[i := old(target[i]) | bits]
  {
    target[i] := target[i] | bits;
  }

  method PutFirst(target: array<Bits>, b: Bits)
    requires target.Length >= 8 && target[0] == 0
    modifies target
    ensures target[..] == old(target[..])[0 := WideFirst(b)]
  {
    hide WideFirst;
    WideFirstCases(b);
    OrInto(target, 0, (b & (0x80 | 0x40)) | ((b >> 3) & 0x07));
    if b & 0x40 == 0 {
      OrInto(target, 0, 0x38);
    }
  }

  method PutSecond(target: array<Bits>, b: Bits, c: Bits)
    requires target.Length >= 8 && target[1] == 0
    modifies target
    ensures target[..] == old(target[..])[1 := WideSecond(b, c)]
  {
    hide WideSecond;
    WideOthers(b, c);
    OrInto(target, 1, ((b << 5) & 0xe0) | ((c >> 3) & 0x10));
    OrInto(target, 1, (c >> 3) & 0x0f);
  }

  method PutNext(target: array<Bits>, i: nat, b: Bits, c: Bits)
    requires i < target.Length && target[i] == 0
    modifies target
    ensures target[..] == old(target[..])[i := WideNext(b, c)]
  {
    hide WideNext;
    WideOthers(b, c);
    OrInto(target, i, ((b << 5) & 0xe0) | ((c >> 3) & 0x1f));
  }

  method PutLast(target: array<Bits>, b: Bits)
    requires target.Length >= 8 && target[4] == 0
    modifies target
    ensures target[..] == old(target[..])[4 := WideLast(b)]
  {
    hide WideLast;
    WideOthers(b, b);
    OrInto(target, 4, (b << 5) & 0xe0);
  }

  lemma Assembled(t: seq<Bits>, a: Bits, b: Bits, c: Bits, d: Bits, e: Bits)
    requires |t| >= 8 && forall k | 0 <= k < 8 :: t[k] == 0
    ensures t[0 := a][1 := b][2 := c][3 := d][4 := e][..8] == [a, b, c, d, e, 0, 0, 0]
    ensures t[0 := a][1 := b][2 := c][3 := d][4 := e][8..] == t[8..]
  {
  }

  method WriteLittleEndian(target: array<Bits>, val: array<Bits>)
    requires target.Length >= 8 && val.Length == 4 && target != val
    modifies target
    ensures target[..8] == Widen(Reverse(val[..]))
    ensures target[8..] == old(target[8..])
  {
    hide WideFirst, WideSecond, WideNext, WideLast;
    Clear(target, 8);
    ghost var cleared := target[..];
    Assembled(cleared, WideFirst(val[3]), WideSecond(val[3], val[2]), WideNext(val[2], val[1]),
      WideNext(val[1], val[0]), WideLast(val[0]));
    PutFirst(target, val[3]);
    PutSecond(target, val[3], val[2]);
    PutNext(target, 2, val[2], val[1]);
    PutNext(target, 3, val[1], val[0]);
    PutLast(target, val[0]);
  }

  method ReadLittleEndian(target: array<Bits>, val: array<Bits>)
    requires target.Length >= 8 && val.Length == 4 && target != val
    modifies val
    ensures Reverse(val[..]) == Narrow(target[..8])
  {
    forall i | 0 <= i < 4 { val[i] := 0; }
    val[3] := val[3] | ((target[0] & 0xc0) | ((target[0] << 3) & 0x38) | ((target[1] >> 5) & 0x07));
    val[2] := val[2] | (((target[1] << 3) & 0xf8) | ((target[2] >> 5) & 0x07));
    val[1] := val[1] | (((target[2] << 3) & 0xf8) | ((target[3] >> 5) & 0x07));
    val[0] := val[0] | (((target[3] << 3) & 0xf8) | ((target[4] >> 5) & 0x07));
  }

  method WriteBigEndian(target: array<Bits>, val: array<Bits>)
    requires target.Length >= 8 && val.Length == 4 && target != val
    modifies target
    ensures target[..8] == Widen(val[..])
    ensures target[8..] == old(target[8..])
  {
    hide WideFirst, WideSecond, WideNext, WideLast;
    Clear(target, 8);
    ghost var cleared := target[..];
    Assembled(cleared, WideFirst(val[0]), WideSecond(val[0], val[1]), WideNext(val[1], val[2]),
      WideNext(val[2], val[3]), WideLast(val[3]));
    PutFirst(target, val[0]);
    PutSecond(target, val[0], val[1]);
    PutNext(target, 2, val[1], val[2]);
    PutNext(target, 3, val[2], val[3]);
    PutLast(target, val[3]);
  }

  method ReadBigEndian(target: array<Bits>, val: array<Bits>)
    requires target.Length >= 8 && val.Length == 4 && target != val
    modifies val
    ensures val[..] == Narrow(target[..8])
  {
    forall i | 0 <= i < 4 { val[i] := 0; }
    val[0] := val[0] | ((target[0] & 0xc0) | ((target[0] << 3) & 0x38) | ((target[1] >> 5) & 0x07));
    val[1] := val[1] | (((target[1] << 3) & 0xf8) | ((target[2] >> 5) & 0x07));
    val[2] := val[2] | (((target[2] << 3) & 0xf8) | ((target[3] >> 5) & 0x07));
    val[3] := val[3] | (((target[3] << 3) & 0xf8) | ((target[4] >> 5) & 0x07));
  }

  // ---------------------------------------------------------------------------------------------
  // The formats
  // ---------------------------------------------------------------------------------------------

  const TWO_23: int := 0x80_0000
  const TWO_29: int := 0x2000_0000
  const TWO_52: int := 0x10_0000_0000_0000

  function Val(b: Bits): (n: int)
    ensures 0 <= n < 256
  {
    b as int
  }

  /** The part of a number above and below a power of two. */
  function Hi(n: int, k: int): int
    requires k > 0
  {
    n / k
  }

  function Lo(n: int, k: int): int
    requires k > 0
  {
    n % k
  }

  lemma HiLo(n: int, k: int)
    requires k > 0
    ensures n == k * Hi(n, k) + Lo(n, k) && 0 <= Lo(n, k) < k
  {
  }

  lemma HiLoUnique(n: int, k: int, q: int, r: int)
    requires k > 0 && n == k * q + r && 0 <= r < k
    ensures Hi(n, k) == q && Lo(n, k) == r
  {
    var d := Hi(n, k) - q;
    assert k * d == r - n % k;
    Between(k, d);
  }

  /** Sign, exponent field and fraction field. */
  datatype Fields = Fields(sign: int, exponent: int, fraction: int)

  function SingleFields(v: seq<Bits>): Fields
    requires |v| == 4
  {
    Fields(Hi(Val(v[0]), 128),
           Lo(Val(v[0]), 128) * 2 + Hi(Val(v[1]), 128),
           Lo(Val(v[1]), 128) * 0x1_0000 + Val(v[2]) * 0x100 + Val(v[3]))
  }

  function DoubleFields(t: seq<Bits>): Fields
    requires |t| == 8
  {
    Fields(Hi(Val(t[0]), 128),
           Lo(Val(t[0]), 128) * 16 + Hi(Val(t[1]), 16),
           Lo(Val(t[1]), 16) * 0x1_0000_0000_0000 + Val(t[2]) * 0x100_0000_0000 + Val(t[3]) * 0x1_0000_0000
             + Val(t[4]) * 0x100_0000 + Val(t[5]) * 0x1_0000 + Val(t[6]) * 0x100 + Val(t[7]))
  }

  lemma FieldRanges(v: seq<Bits>, t: seq<Bits>)
    requires |v| == 4 && |t| == 8
    ensures var s := SingleFields(v);
      0 <= s.sign <= 1 && 0 <= s.exponent < 256 && 0 <= s.fraction < TWO_23
    ensures var d := DoubleFields(t);
      0 <= d.sign <= 1 && 0 <= d.exponent < 2048 && 0 <= d.fraction < TWO_52
  {
    hide Hi, Lo, Val;
    HiLo(Val(v[0]), 128);
    HiLo(Val(v[1]), 128);
    HiLo(Val(t[0]), 128);
    HiLo(Val(t[1]), 16);
    forall i | 0 <= i < 8 ensures 0 <= Val(t[i]) < 256 { ValRange(t[i]); }
    forall i | 0 <= i < 4 ensures 0 <= Val(v[i]) < 256 { ValRange(v[i]); }
  }

  lemma ValRange(b: Bits)
    ensures 0 <= Val(b) < 256
  {
  }

  // ---------------------------------------------------------------------------------------------
  // Bits and numbers
  // ---------------------------------------------------------------------------------------------

  lemma OrAdd3(x: Bits, y: Bits)
    requires x & 0x07 == 0 && y & 0xf8 == 0
    ensures Val(x | y) == Val(x) + Val(y)
  {
  }

  lemma OrAdd5(x: Bits, y: Bits)
    requires x & 0x1f == 0 && y & 0xe0 == 0
    ensures Val(x | y) == Val(x) + Val(y)
  {
  }

  lemma OrAdd6(x: Bits, y: Bits)
    requires x & 0x3f == 0 && y & 0xc0 == 0
    ensures Val(x | y) == Val(x) + Val(y)
  {
  }

  lemma Top2(b: Bits)
    ensures Val(b & 0xc0) == Hi(Val(b), 64) * 64
  {
  }

  lemma DownThree(b: Bits)
    ensures Val(b >> 3) == Hi(Val(b), 8)
  {
  }

  lemma DownThreeLow(b: Bits)
    ensures Val((b >> 3) & 0x07) == Lo(Hi(Val(b), 8), 8)
  {
    hide Val, Hi, Lo;
    DownThree(b);
    LowThree(b >> 3);
  }

  lemma LowThree(b: Bits)
    ensures Val(b & 0x07) == Lo(Val(b), 8)
  {
  }

  lemma DownFive(b: Bits)
    ensures Val((b >> 5) & 0x07) == Hi(Val(b), 32)
  {
  }

  lemma UpFive(b: Bits)
    ensures Val((b << 5) & 0xe0) == Lo(Val(b), 8) * 32
  {
  }

  lemma UpThree(b: Bits)
    ensures Val((b << 3) & 0xf8) == Lo(Val(b), 32) * 8
  {
  }

  lemma UpThreeLow(b: Bits)
    ensures Val((b << 3) & 0x38) == Lo(Val(b), 8) * 8
  {
  }

  lemma SecondBit(b: Bits)
    ensures b & 0x40 == 0 <==> Lo(Hi(Val(b), 64), 2) == 0
  {
  }

  lemma WideFirstValue(b: Bits)
    ensures Val(WideFirst(b)) ==
      Hi(Val(b), 64) * 64 + (if Lo(Hi(Val(b), 64), 2) == 0 then 56 else 0) + Lo(Hi(Val(b), 8), 8)
  {
    hide Hi, Lo;
    var top, low := b & 0xc0, (b >> 3) & 0x07;
    var mid: Bits := if b & 0x40 == 0 then 0x38 else 0;
    assert WideFirst(b) == (top | mid) | low;
    assert Val(0x38) == 56 && Val(0) == 0;
    OrAdd3(top | mid, low);
    OrAdd6(top, mid);
    Top2(b);
    DownThreeLow(b);
    SecondBit(b);
  }

  lemma WideNextValue(b: Bits, c: Bits)
    ensures Val(WideNext(b, c)) == Lo(Val(b), 8) * 32 + Hi(Val(c), 8)
    ensures WideSecond(b, c) == WideNext(b, c)
  {
    hide Val, Hi, Lo;
    var x, y := (b << 5) & 0xe0, (c >> 3) & 0x1f;
    assert y == c >> 3;
    OrAdd5(x, y);
    UpFive(b);
    DownThree(c);
  }

  lemma WideLastValue(b: Bits)
    ensures Val(WideLast(b)) == Lo(Val(b), 8) * 32 && Val(0) == 0
  {
    UpFive(b);
  }

  lemma NarrowFirstValue(b: Bits, c: Bits)
    ensures Val(NarrowFirst(b, c)) == Hi(Val(b), 64) * 64 + Lo(Val(b), 8) * 8 + Hi(Val(c), 32)
  {
    hide Val, Hi, Lo;
    var x, y, z := b & 0xc0, (b << 3) & 0x38, (c >> 5) & 0x07;
    assert (x | y) & 0x07 == 0;
    OrAdd3(x | y, z);
    OrAdd6(x, y);
    Top2(b);
    UpThreeLow(b);
    DownFive(c);
  }

  lemma NarrowNextValue(b: Bits, c: Bits)
    ensures Val(NarrowNext(b, c)) == Lo(Val(b), 32) * 8 + Hi(Val(c), 32)
  {
    hide Val, Hi, Lo;
    OrAdd3((b << 3) & 0xf8, (c >> 5) & 0x07);
    UpThree(b);
    DownFive(c);
  }

  // ---------------------------------------------------------------------------------------------
  // What the bit moves do to the fields
  // ---------------------------------------------------------------------------------------------

  /** Widening adds 896, the difference of the biases, to every exponent field and shifts the fraction. */
  lemma WidenFields(v: seq<Bits>)
    requires |v| == 4
    ensures var s, d := SingleFields(v), DoubleFields(Widen(v));
      d == Fields(s.sign, s.exponent + 896, s.fraction * TWO_29)
  {
    hide Val, Hi, Lo, Widen;
    forall i | 0 <= i < 4 ensures 0 <= Val(v[i]) < 256 { ValRange(v[i]); }
    var a, b, c, d := Val(v[0]), Val(v[1]), Val(v[2]), Val(v[3]);
    WidenValues(v);
    WidenHigh(a, b);
    HiLo(a, 8);
    WidenLow(Lo(a, 8), b, c, d);
  }

  /** The bytes that are written, as numbers. */
  lemma WidenValues(v: seq<Bits>)
    requires |v| == 4
    ensures var a, b, c, d, t := Val(v[0]), Val(v[1]), Val(v[2]), Val(v[3]), Widen(v);
      && Val(t[0]) == Hi(a, 64) * 64 + (if Lo(Hi(a, 64), 2) == 0 then 56 else 0) + Lo(Hi(a, 8), 8)
      && Val(t[1]) == Lo(a, 8) * 32 + Hi(b, 8) && Val(t[2]) == Lo(b, 8) * 32 + Hi(c, 8)
      && Val(t[3]) == Lo(c, 8) * 32 + Hi(d, 8) && Val(t[4]) == Lo(d, 8) * 32
      && Val(t[5]) == Val(t[6]) == Val(t[7]) == 0
  {
    hide Val, Hi, Lo, WideFirst, WideSecond, WideNext, WideLast;
    WideFirstValue(v[0]);
    WideNextValue(v[0], v[1]);
    WideNextValue(v[1], v[2]);
    WideNextValue(v[2], v[3]);
    WideLastValue(v[3]);
  }

  /** A byte in parts of 1, 1, 3 and 3 bits. */
  lemma ByteParts(a: int) returns (s: int, e: int, m: int, l: int)
    requires 0 <= a < 256
    ensures 0 <= s < 2 && 0 <= e < 2 && 0 <= m < 8 && 0 <= l < 8 && a == 128 * s + 64 * e + 8 * m + l
    ensures Hi(a, 128) == s && Lo(a, 128) == 64 * e + 8 * m + l
    ensures Hi(a, 64) == 2 * s + e && Lo(Hi(a, 64), 2) == e
    ensures Hi(a, 8) == 16 * s + 8 * e + m && Lo(a, 8) == l && Lo(Hi(a, 8), 8) == m
  {
    s, l := Hi(a, 128), Lo(a, 8);
    e, m := Lo(Hi(a, 64), 2), Lo(Hi(a, 8), 8);
    var h := Hi(a, 8);
    var g := Hi(h, 8);
    hide Hi, Lo;
    HiLo(a, 8);
    HiLo(h, 8);
    HiLo(g, 2);
    HiLoUnique(a, 64, g, 8 * m + l);
    HiLoUnique(a, 128, Hi(g, 2), 64 * e + 8 * m + l);
  }

  lemma WidenHigh(a: int, b: int)
    requires 0 <= a < 256 && 0 <= b < 256
    ensures var t0 := Hi(a, 64) * 64 + (if Lo(Hi(a, 64), 2) == 0 then 56 else 0) + Lo(Hi(a, 8), 8);
      && Hi(t0, 128) == Hi(a, 128)
      && Lo(t0, 128) * 16 + Hi(Lo(a, 8) * 32 + Hi(b, 8), 16) == Lo(a, 128) * 2 + Hi(b, 128) + 896
  {
    hide Hi, Lo;
    var s, e, m, l := ByteParts(a);
    var f, g, n, k := ByteParts(b);
    var fill := if e == 0 then 56 else 0;
    HiLoUnique(Hi(a, 64) * 64 + fill + m, 128, s, 64 * e + fill + m);
    HiLoUnique(l * 32 + Hi(b, 8), 16, 2 * l + f, 8 * g + n);
  }

  lemma WidenLow(top: int, b: int, c: int, d: int)
    requires 0 <= top < 8 && 0 <= b < 256 && 0 <= c < 256 && 0 <= d < 256
    ensures
      Lo(top * 32 + Hi(b, 8), 16) * 0x1_0000_0000_0000 + (Lo(b, 8) * 32 + Hi(c, 8)) * 0x100_0000_0000
        + (Lo(c, 8) * 32 + Hi(d, 8)) * 0x1_0000_0000 + Lo(d, 8) * 32 * 0x100_0000
      == (Lo(b, 128) * 0x1_0000 + c * 0x100 + d) * TWO_29
  {
    hide Hi, Lo;
    var f, g, n, k := ByteParts(b);
    HiLo(c, 8);
    HiLo(d, 8);
    HiLoUnique(top * 32 + Hi(b, 8), 16, 2 * top + f, 8 * g + n);
  }

  /** Narrowing drops three exponent bits and the low fraction bits. */
  lemma NarrowFields(t: seq<Bits>)
    requires |t| == 8
    ensures var d, s := DoubleFields(t), SingleFields(Narrow(t));
      s == Fields(d.sign, Hi(d.exponent, 1024) * 128 + Lo(d.exponent, 128), Hi(d.fraction, TWO_29))
  {
    hide Val, Hi, Lo, NarrowFirst, NarrowNext;
    NarrowFirstValue(t[0], t[1]);
    NarrowNextValue(t[1], t[2]);
    NarrowNextValue(t[2], t[3]);
    NarrowNextValue(t[3], t[4]);
    forall i | 0 <= i < 8 ensures 0 <= Val(t[i]) < 256 { ValRange(t[i]); }
    NarrowHigh(Val(t[0]), Val(t[1]), Val(t[2]));
    NarrowLow(Val(t[1]), Val(t[2]), Val(t[3]), Val(t[4]), Val(t[5]) * 0x1_0000 + Val(t[6]) * 0x100 + Val(t[7]));
  }

  /** A byte in parts of 3, 1 and 4 bits. */
  lemma NarrowParts(b: int) returns (x: int, y: int, z: int)
    requires 0 <= b < 256
    ensures 0 <= x < 8 && 0 <= y < 2 && 0 <= z < 16 && b == 32 * x + 16 * y + z
    ensures Hi(b, 32) == x && Lo(b, 32) == 16 * y + z && Hi(b, 16) == 2 * x + y && Lo(b, 16) == z
  {
    z := Lo(b, 16);
    var h := Hi(b, 16);
    x, y := Hi(h, 2), Lo(h, 2);
    hide Hi, Lo;
    HiLo(b, 16);
    HiLo(h, 2);
    HiLoUnique(b, 32, x, 16 * y + z);
  }

  lemma NarrowHigh(a: int, b: int, c: int)
    requires 0 <= a < 256 && 0 <= b < 256 && 0 <= c < 256
    ensures var v0, v1 := Hi(a, 64) * 64 + Lo(a, 8) * 8 + Hi(b, 32), Lo(b, 32) * 8 + Hi(c, 32);
      var exponent := Lo(a, 128) * 16 + Hi(b, 16);
      && Hi(v0, 128) == Hi(a, 128)
      && Lo(v0, 128) * 2 + Hi(v1, 128) == Hi(exponent, 1024) * 128 + Lo(exponent, 128)
  {
    hide Hi, Lo;
    var s, e, m, l := ByteParts(a);
    var x, y, z := NarrowParts(b);
    HiLo(c, 32);
    HiLoUnique(Hi(a, 64) * 64 + l * 8 + x, 128, s, 64 * e + l * 8 + x);
    HiLoUnique(Lo(b, 32) * 8 + Hi(c, 32), 128, y, z * 8 + Hi(c, 32));
    HiLoUnique(Lo(a, 128) * 16 + Hi(b, 16), 1024, e, 128 * m + 16 * l + 2 * x + y);
    HiLoUnique(Lo(a, 128) * 16 + Hi(b, 16), 128, 8 * e + m, 16 * l + 2 * x + y);
  }

  lemma NarrowLow(b: int, c: int, d: int, e: int, low: int)
    requires 0 <= b < 256 && 0 <= c < 256 && 0 <= d < 256 && 0 <= e < 256 && 0 <= low < 0x100_0000
    ensures var v1, v2, v3 := Lo(b, 32) * 8 + Hi(c, 32), Lo(c, 32) * 8 + Hi(d, 32), Lo(d, 32) * 8 + Hi(e, 32);
      Lo(v1, 128) * 0x1_0000 + v2 * 0x100 + v3 ==
        Hi(Lo(b, 16) * 0x1_0000_0000_0000 + c * 0x100_0000_0000 + d * 0x1_0000_0000 + e * 0x100_0000 + low, TWO_29)
  {
    hide Hi, Lo;
    var x, y, z := NarrowParts(b);
    HiLo(c, 32);
    HiLo(d, 32);
    HiLo(e, 32);
    HiLoUnique(Lo(b, 32) * 8 + Hi(c, 32), 128, y, z * 8 + Hi(c, 32));
    HiLoUnique(Lo(b, 16) * 0x1_0000_0000_0000 + c * 0x100_0000_0000 + d * 0x1_0000_0000 + e * 0x100_0000 + low,
               TWO_29, z * 0x8_0000 + c * 0x800 + d * 8 + Hi(e, 32), Lo(e, 32) * 0x100_0000 + low);
  }

  lemma ValInjective(x: Bits, y: Bits)
    requires Val(x) == Val(y)
    ensures x == y
  {
  }

  lemma SameBytes(a: int, b: int, c: int, d: int, a': int, b': int, c': int, d': int)
    requires 0 <= c < 256 && 0 <= d < 256 && 0 <= c' < 256 && 0 <= d' < 256
    requires Hi(a, 128) == Hi(a', 128)
    requires Lo(a, 128) * 2 + Hi(b, 128) == Lo(a', 128) * 2 + Hi(b', 128)
    requires 0 <= Hi(b, 128) < 2 && 0 <= Hi(b', 128) < 2
    requires Lo(b, 128) * 0x1_0000 + c * 0x100 + d == Lo(b', 128) * 0x1_0000 + c' * 0x100 + d'
    ensures a == a' && b == b' && c == c' && d == d'
  {
    hide Hi, Lo;
    HiLo(a, 128);
    HiLo(b, 128);
    HiLo(a', 128);
    HiLo(b', 128);
  }

  lemma TopBit(b: Bits)
    ensures 0 <= Hi(Val(b), 128) < 2 && 0 <= Val(b) < 256
  {
  }

  lemma SingleInjective(v: seq<Bits>, w: seq<Bits>)
    requires |v| == |w| == 4 && SingleFields(v) == SingleFields(w)
    ensures v == w
  {
    hide Val, Hi, Lo;
    TopBit(v[1]);
    TopBit(v[2]);
    TopBit(v[3]);
    TopBit(w[1]);
    TopBit(w[2]);
    TopBit(w[3]);
    SameBytes(Val(v[0]), Val(v[1]), Val(v[2]), Val(v[3]), Val(w[0]), Val(w[1]), Val(w[2]), Val(w[3]));
    ValInjective(v[0], w[0]);
    ValInjective(v[1], w[1]);
    ValInjective(v[2], w[2]);
    ValInjective(v[3], w[3]);
  }

  /** Reading what was written gives every 4-byte pattern back. */
  lemma RoundTrip(v: seq<Bits>)
    requires |v| == 4
    ensures Narrow(Widen(v)) == v
  {
    hide *;
    FieldRanges(v, Widen(v));
    WidenFields(v);
    NarrowFields(Widen(v));
    RoundTripFields(SingleFields(v));
    SingleInjective(Narrow(Widen(v)), v);
  }

  lemma RoundTripFields(s: Fields)
    requires 0 <= s.exponent < 256 && 0 <= s.fraction
    ensures Hi(s.exponent + 896, 1024) * 128 + Lo(s.exponent + 896, 128) == s.exponent
    ensures Hi(s.fraction * TWO_29, TWO_29) == s.fraction
  {
    hide Hi, Lo;
    HiLoUnique(s.fraction * TWO_29, TWO_29, s.fraction, 0);
    if s.exponent < 128 {
      HiLoUnique(s.exponent + 896, 1024, 0, s.exponent + 896);
      HiLoUnique(s.exponent + 896, 128, 7, s.exponent);
    } else {
      HiLoUnique(s.exponent + 896, 1024, 1, s.exponent - 128);
      HiLoUnique(s.exponent + 896, 128, 8, s.exponent - 128);
    }
  }

  /** Nodes of either endianness, holding the same number in their memories, put the same bytes on the wire. */
  method SameWireBytes(little: array<Bits>, big: array<Bits>, fromLittle: array<Bits>, fromBig: array<Bits>)
    requires little.Length == big.Length == 4 && little[..] == Reverse(big[..])
    requires fromLittle.Length >= 8 && fromBig.Length >= 8
    requires fromLittle !in {little, big, fromBig} && fromBig !in {little, big}
    modifies fromLittle, fromBig
    ensures fromLittle[..8] == fromBig[..8]
  {
    hide Widen;
    assert Reverse(little[..]) == big[..];
    WriteLittleEndian(fromLittle, little);
    WriteBigEndian(fromBig, big);
  }

  /** What a little-endian node writes, a big-endian node reads back, in its own byte order. */
  method AcrossNodes(little: array<Bits>, wire: array<Bits>, big: array<Bits>)
    requires little.Length == big.Length == 4 && wire.Length >= 8 && wire !in {little, big} && little != big
    modifies wire, big
    ensures big[..] == Reverse(old(little[..])) && little[..] == old(little[..])
  {
    hide Widen, Narrow;
    WriteLittleEndian(wire, little);
    RoundTrip(Reverse(little[..]));
    ReadBigEndian(wire, big);
  }

  // ---------------------------------------------------------------------------------------------
  // The numbers the formats stand for
  // ---------------------------------------------------------------------------------------------

  function Pow2(k: int): (p: real)
    ensures p > 0.0
    decreases if k < 0 then -k else k
  {
    if k == 0 then 1.0 else if k > 0 then 2.0 * Pow2(k - 1) else Pow2(k + 1) / 2.0
  }

  lemma {:induction false} Pow2Shift(k: int, n: nat)
    ensures Pow2(k) == Pow2(n) * Pow2(k - n)
    decreases n
  {
    hide *;
    if n > 0 {
      Pow2Shift(k, n - 1);
      Pow2Double(k - n);
      Pow2Double(n - 1);
      MoveTwo(Pow2(k), Pow2(n - 1), Pow2(k - (n - 1)), Pow2(n), Pow2(k - n));
    } else {
      PowOfZero();
    }
  }

  lemma MoveTwo(p: real, a: real, c: real, d: real, b: real)
    requires p == a * c && c == 2.0 * b && d == 2.0 * a
    ensures p == d * b
  {
  }

  lemma PowOfZero()
    ensures Pow2(0) == 1.0
  {
  }

  lemma Pow2Double(k: int)
    ensures Pow2(k + 1) == 2.0 * Pow2(k)
  {
  }

  lemma Pow2Of29()
    ensures Pow2(29) == 536870912.0
  {
    assert Pow2(8) == 256.0;
    Pow2Shift(16, 8);
    Pow2Shift(24, 8);
    assert Pow2(5) == 32.0;
    Pow2Shift(29, 5);
  }

  /** The number with this sign, significand and exponent. */
  function Scaled(sign: int, significand: int, exponent: int): real {
    (if sign == 0 then significand as real else -(significand as real)) * Pow2(exponent)
  }

  /** Single format: None for the infinities and NaNs. */
  function SingleValue(s: Fields): Option<real> {
    if s.exponent == 255 then None
    else if s.exponent == 0 then Some(Scaled(s.sign, s.fraction, -149))
    else Some(Scaled(s.sign, TWO_23 + s.fraction, s.exponent - 150))
  }

  /** Double format. */
  function DoubleValue(d: Fields): Option<real> {
    if d.exponent == 2047 then None
    else if d.exponent == 0 then Some(Scaled(d.sign, d.fraction, -1074))
    else Some(Scaled(d.sign, TWO_52 + d.fraction, d.exponent - 1075))
  }

  lemma ScaledShift(sign: int, significand: int, exponent: int)
    ensures Scaled(sign, significand * TWO_29, exponent - 29) == Scaled(sign, significand, exponent)
  {
    Pow2Of29();
    Pow2Shift(exponent, 29);
    var p := Pow2(exponent - 29);
    assert (significand * TWO_29) as real == significand as real * 536870912.0;
    hide Pow2;
    if sign == 0 {
      assert significand as real * 536870912.0 * p == significand as real * (536870912.0 * p);
    } else {
      assert -(significand as real * 536870912.0) * p == -(significand as real) * (536870912.0 * p);
    }
  }

  lemma ScaledDifferent(sign: int, m: int, n: int, exponent: int)
    requires m != n
    ensures Scaled(sign, m, exponent) != Scaled(sign, n, exponent)
  {
    var p := Pow2(exponent);
    Cancel(m as real, n as real, p);
    Cancel(-(m as real), -(n as real), p);
  }

  lemma Cancel(x: real, y: real, p: real)
    requires p > 0.0 && x != y
    ensures x * p != y * p
  {
    assert (x - y) * p != 0.0;
  }

  /** The eight bytes stand for the same real number exactly for normal singles: a zero, a denormal, an
      infinity or a NaN comes out as some other number. */
  lemma WidenKeepsValue(v: seq<Bits>)
    requires |v| == 4
    ensures var s, d := SingleFields(v), DoubleFields(Widen(v));
      (SingleValue(s).Some? && DoubleValue(d) == SingleValue(s)) <==> 1 <= s.exponent <= 254
  {
    hide *;
    FieldRanges(v, Widen(v));
    WidenFields(v);
    WidenedValue(SingleFields(v), DoubleFields(Widen(v)));
  }

  lemma WidenedValue(s: Fields, d: Fields)
    requires 0 <= s.exponent < 256 && 0 <= s.fraction < TWO_23
    requires d == Fields(s.sign, s.exponent + 896, s.fraction * TWO_29)
    ensures (SingleValue(s).Some? && DoubleValue(d) == SingleValue(s)) <==> 1 <= s.exponent <= 254
  {
    assert TWO_52 + d.fraction == (TWO_23 + s.fraction) * TWO_29;
    ScaledShift(s.sign, TWO_23 + s.fraction, s.exponent - 150);
    if s.exponent == 0 {
      HalvedExponent(s.sign, s.fraction, -149);
      ScaledDifferent(s.sign, TWO_23 + s.fraction, 2 * s.fraction, -150);
    }
  }

  lemma HalvedExponent(sign: int, significand: int, exponent: int)
    ensures Scaled(sign, significand, exponent) == Scaled(sign, 2 * significand, exponent - 1)
  {
    Pow2Double(exponent - 1);
    assert (2 * significand) as real == 2.0 * significand as real;
  }

  /** The magnitude a single stands for. */
  function Magnitude(significand: int, exponent: int): real {
    Scaled(0, significand, exponent)
  }

  /** Reading a double whose exponent a normal single can hold truncates towards zero, by less than one
      unit in the last place of the single. */
  lemma NarrowTruncates(t: seq<Bits>)
    requires |t| == 8 && 897 <= DoubleFields(t).exponent <= 1150
    ensures var d, s := DoubleFields(t), SingleFields(Narrow(t));
      && s.sign == d.sign && s.exponent == d.exponent - 896
      && (var error := Magnitude(TWO_52 + d.fraction, d.exponent - 1075) - Magnitude(TWO_23 + s.fraction,
        s.exponent - 150);
          0.0 <= error < Pow2(s.exponent - 150))
  {
    hide *;
    FieldRanges(Narrow(t), t);
    NarrowFields(t);
    NarrowedValue(DoubleFields(t), SingleFields(Narrow(t)));
  }

  lemma NarrowedValue(d: Fields, s: Fields)
    requires 897 <= d.exponent <= 1150 && 0 <= d.fraction
    requires s == Fields(d.sign, Hi(d.exponent, 1024) * 128 + Lo(d.exponent, 128), Hi(d.fraction, TWO_29))
    ensures s.exponent == d.exponent - 896
    ensures var error := Magnitude(TWO_52 + d.fraction, d.exponent - 1075) - Magnitude(TWO_23 + s.fraction,
      s.exponent - 150);
      0.0 <= error < Pow2(s.exponent - 150)
  {
    hide Hi, Lo, Pow2;
    if d.exponent < 1024 {
      HiLoUnique(d.exponent, 1024, 0, d.exponent);
      HiLoUnique(d.exponent, 128, 7, d.exponent - 896);
    } else {
      HiLoUnique(d.exponent, 1024, 1, d.exponent - 1024);
      HiLoUnique(d.exponent, 128, 8, d.exponent - 1024);
    }
    HiLo(d.fraction, TWO_29);
    var e, r, m := s.exponent - 150, Lo(d.fraction, TWO_29), TWO_23 + s.fraction;
    assert TWO_52 + d.fraction == m * TWO_29 + r;
    ScaledShift(0, m, e);
    ErrorBound(m * TWO_29, r, e - 29);
    Pow2Of29();
    Pow2Shift(e, 29);
  }

  lemma ErrorBound(m: int, r: int, exponent: int)
    requires 0 <= r < TWO_29
    ensures 0.0 <= Scaled(0, m + r, exponent) - Scaled(0, m, exponent) < 536870912.0 * Pow2(exponent)
  {
    hide Pow2;
    var p, x, y := Pow2(exponent), m as real, r as real;
    assert (m + r) as real == x + y && 0.0 <= y < 536870912.0;
    Distribute(x, y, p);
    PowerIsPositive(exponent);
    Scale(y, 536870912.0, p);
  }

  lemma PowerIsPositive(exponent: int)
    ensures Pow2(exponent) > 0.0
  {
  }

  lemma Distribute(x: real, y: real, p: real)
    ensures (x + y) * p - x * p == y * p
  {
  }

  lemma Scale(x: real, y: real, p: real)
    requires 0.0 <= x < y && p > 0.0
    ensures 0.0 <= x * p < y * p
  {
    assert (y - x) * p > 0.0;
  }
}
