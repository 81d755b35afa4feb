/** The tick conversions of tinyos_clock.h: 1024 ticks a second, no division, no multiplication. */
module TinyOsClock {
  import opened Wrappers

  const CLOCKS_PER_SEC := 1024

  /** The shifts `>> 7` are divisions by 128. */
  function TicksToMilliseconds(x: nat): int {
    x - x / 128 - (x + 42) / 128 - (x + 85) / 128
  }

  /** A shift by seven is a division by 128. */
  lemma ShiftIsDivision(x: bv16)
    ensures (x >> 7) as int == x as int / 128
  {
    assert x == (x >> 7) * 128 + (x & 127);
    InRange(x >> 7, x & 127);
  }

  lemma InRange(q: bv16, r: bv16)
    requires q < 512 && r < 128
    ensures (q * 128 + r) as int == q as int * 128 + r as int && (r as int) < 128
  {
  }

  /** A number in 16 bits. */
  function Wrap16(x: int): nat {
    x % 0x1_0000
  }

  /** The conversion with every sum in 16 bits. */
  function TicksIn16Bits(x: nat): nat {
    Wrap16(x - x / 128 - Wrap16(x + 42) / 128 - Wrap16(x + 85) / 128)
  }

  /** In 16 bits the conversion is right exactly as long as adding 85 does not overflow, so for all numbers of
      ticks below 1024. */
  lemma RightUntilOverflow(x: nat)
    requires x < 0x1_0000
    ensures TicksIn16Bits(x) == CeilDiv(1000 * x, 1024) <==> x + 85 < 0x1_0000
  {
    hide Wrap16, TicksToMilliseconds, CeilDiv;
    TicksRefine(x);
    Unfolded(x);
    WrapsOnce(x + 42);
    WrapsOnce(x + 85);
    if x + 85 < 0x1_0000 {
      WrapsOnce(TicksToMilliseconds(x));
    } else {
      assert x / 128 == 511;
      WrapsOnce(x - x / 128 - Wrap16(x + 42) / 128 - Wrap16(x + 85) / 128);
    }
  }

  lemma Unfolded(x: nat)
    ensures TicksToMilliseconds(x) == x - x / 128 - (x + 42) / 128 - (x + 85) / 128
    ensures x < 0x1_0000 ==> 0 <= TicksToMilliseconds(x) <= x
  {
    var q, r := x / 128, x % 128;
    assert x == 128 * q + r;
    assert (x + 42) / 128 == q + (if r >= 86 then 1 else 0) && (x + 85) / 128 == q + if r >= 43 then 1 else 0;
  }

  lemma WrapsOnce(x: int)
    requires 0 <= x < 0x2_0000
    ensures Wrap16(x) == if x < 0x1_0000 then x else x - 0x1_0000
  {
  }

  function Milliseconds(time: nat): int {
    TicksToMilliseconds(time % 1024)
  }

  function Seconds(time: nat): int {
    time / CLOCKS_PER_SEC
  }

  function Reading(time: nat): int {
    1000 * Seconds(time) + Milliseconds(time)
  }

  function CeilDiv(a: nat, b: nat): int
    requires b > 0
  {
    (a + b - 1) / b
  }

  /** Three thirds of a 128th: floor(3x/128) is the sum of the three shifted terms. */
  lemma ThreeShifts(x: nat)
    ensures 3 * x / 128 == x / 128 + (x + 42) / 128 + (x + 85) / 128
  {
    var q, r := x / 128, x % 128;
    assert x == 128 * q + r;
    assert 3 * x == 128 * (3 * q) + 3 * r;
    assert 3 * x / 128 == 3 * q + 3 * r / 128;
    assert 3 * r / 128 == if r >= 86 then 2 else if r >= 43 then 1 else 0;
    assert (x + 42) / 128 == q + if r >= 86 then 1 else 0;
    assert (x + 85) / 128 == q + if r >= 43 then 1 else 0;
  }

  /** For every tick count at all, the shift form is the rounded-up quotient. */
  lemma TicksRefine(x: nat)
    ensures TicksToMilliseconds(x) == CeilDiv(1000 * x, 1024)
  {
    ThreeShifts(x);
    var m := 3 * x / 128;
    assert 128 * m <= 3 * x < 128 * m + 128;
    assert 1024 * (x - m) <= 1000 * x + 1023 < 1024 * (x - m) + 1024;
    DivUnique(1000 * x + 1023, 1024, x - m);
  }

  lemma DivUnique(a: int, b: int, q: int)
    requires b > 0 && b * q <= a < b * q + b
    ensures a / b == q
  {
    var d := a / b - q;
    assert b * d < b && -b < b * d;
    Between(b, d);
  }

  /** Seconds and milliseconds together are the time in milliseconds, rounded up. */
  lemma ReadingIsCeiling(time: nat)
    ensures Reading(time) == CeilDiv(1000 * time, 1024)
  {
    var s, x := time / 1024, time % 1024;
    TicksRefine(x);
    assert time == 1024 * s + x;
    var c := CeilDiv(1000 * x, 1024);
    assert 1024 * c <= 1000 * x + 1023 < 1024 * c + 1024;
    DivUnique(1000 * time + 1023, 1024, 1000 * s + c);
  }

  /** So it never runs backwards and is less than a millisecond ahead. */
  lemma ReadingIsMonotone(t: nat, u: nat)
    requires t <= u
    ensures Reading(t) <= Reading(u)
    ensures 1000 * t <= 1024 * Reading(t) < 1000 * t + 1024
  {
    ReadingIsCeiling(t);
    ReadingIsCeiling(u);
    var a, b := Reading(t), Reading(u);
    assert 1024 * a <= 1000 * t + 1023 < 1024 * a + 1024;
    assert 1024 * b <= 1000 * u + 1023 < 1024 * b + 1024;
  }

  /** The millisecond part alone reaches 1000, at the last tick of a second and only there. */
  lemma MillisecondsReachThousand(time: nat)
    ensures 0 <= Milliseconds(time) <= 1000
    ensures Milliseconds(time) == 1000 <==> time % 1024 == 1023
  {
    TicksRefine(time % 1024);
  }
}
