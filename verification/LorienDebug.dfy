/**
 * The integer-to-text routines of lorien_debug.h: digits are written least significant first through a
 * moving index, then the buffer is reversed in place.
 */
module LorienDebug {
  import opened Wrappers

  /** The table the code indexes with 35 plus a signed digit: it reads the same in both directions. */
  const DIGITS: string := "zyxwvutsrqponmlkjihgfedcba987654321" + "0123456789abcdefghijklmnopqrstuvwxyz"

  predicate ValidBase(base: int) {
    2 <= base <= 36
  }

  // ---------------------------------------------------------------------------------------------
  // Numerals
  // ---------------------------------------------------------------------------------------------

  function DigitChar(d: nat): char
    requires d < 36
  {
    if d < 10 then '0' + (d as char) else 'a' + ((d - 10) as char)
  }

  function DigitValue(c: char): int {
    if '0' <= c <= '9' then c as int - '0' as int
    else if 'a' <= c <= 'z' then c as int - 'a' as int + 10
    else -1
  }

  /** The digits, one by one. */
  lemma Digits(d: nat)
    requires d < 36
    ensures DigitChar(d) == "0123456789abcdefghijklmnopqrstuvwxyz"[d]
  {
  }

  lemma DigitRoundTrip(d: nat)
    requires d < 36
    ensures DigitValue(DigitChar(d)) == d
  {
  }

  lemma CharRoundTrip(c: char)
    requires 0 <= DigitValue(c) < 36
    ensures DigitChar(DigitValue(c)) == c
  {
  }

  function Magnitude(n: nat, base: int): (s: string)
    requires ValidBase(base)
    ensures s != ""
  {
    if n < base then [DigitChar(n)] else
      QuotientSmaller(n, base);
      Magnitude(n / base, base) + [DigitChar(n % base)]
  }

  function AbsInt(v: int): nat {
    if v < 0 then -v else v
  }

  function Numeral(v: int, base: int): (s: string)
    requires ValidBase(base)
    ensures s != ""
  {
    (if v < 0 then "-" else "") + Magnitude(AbsInt(v), base)
  }

  // ---------------------------------------------------------------------------------------------
  // Reading a numeral
  // ---------------------------------------------------------------------------------------------

  /** A string of digits below the base. */
  predicate IsDigits(s: string, base: int) {
    forall i | 0 <= i < |s| :: 0 <= DigitValue(s[i]) < base
  }

  function EvalDigits(s: string, base: int): int {
    if s == "" then 0 else EvalDigits(s[..|s| - 1], base) * base + DigitValue(s[|s| - 1])
  }

  /** Digits, not none, and no leading zero but in "0" itself. */
  predicate IsCanonicalMagnitude(s: string, base: int) {
    s != "" && IsDigits(s, base) && (|s| > 1 ==> s[0] != '0')
  }

  predicate IsNegative(s: string) {
    s != "" && s[0] == '-'
  }

  predicate IsCanonical(s: string, base: int) {
    if IsNegative(s) then IsCanonicalMagnitude(s[1..], base) && s[1..] != "0"
    else IsCanonicalMagnitude(s, base)
  }

  function Eval(s: string, base: int): int {
    if IsNegative(s) then -EvalDigits(s[1..], base) else EvalDigits(s, base)
  }

  lemma {:induction false} MagnitudeCanonical(n: nat, base: int)
    requires ValidBase(base)
    ensures IsCanonicalMagnitude(Magnitude(n, base), base)
    ensures EvalDigits(Magnitude(n, base), base) == n
    ensures Magnitude(n, base)[0] == '0' <==> n == 0
  {
    var s := Magnitude(n, base);
    if n < base {
      DigitRoundTrip(n);
      assert s[..0] == "";
    } else {
      var q, r := n / base, n % base;
      QuotientSmaller(n, base);
      MagnitudeCanonical(q, base);
      DigitRoundTrip(r);
      assert s[..|s| - 1] == Magnitude(q, base);
    }
  }

  lemma QuotientSmaller(n: nat, base: int)
    requires 2 <= base <= n
    ensures 1 <= n / base < n && n == n / base * base + n % base && 0 <= n % base < base
  {
    var q := n / base;
    assert n == q * base + n % base;
    PositiveFactor(q, base);
    assert q * (base - 1) >= q;
  }

  lemma PositiveFactor(q: int, base: int)
    requires base > 0 && q * base > 0
    ensures q > 0
  {
  }

  /** Every integer's numeral is canonical and evaluates back to it, in every base. */
  lemma NumeralRoundTrip(v: int, base: int)
    requires ValidBase(base)
    ensures IsCanonical(Numeral(v, base), base)
    ensures Eval(Numeral(v, base), base) == v
    ensures IsNegative(Numeral(v, base)) <==> v < 0
  {
    MagnitudeCanonical(AbsInt(v), base);
    var m, s := Magnitude(AbsInt(v), base), Numeral(v, base);
    if v < 0 {
      assert s[1..] == m;
    } else {
      assert s == m;
      assert DigitValue(m[0]) >= 0;
    }
  }

  lemma {:induction false} EvalBounds(s: string, base: int)
    requires ValidBase(base) && IsCanonicalMagnitude(s, base)
    ensures EvalDigits(s, base) >= if s[0] == '0' then 0 else 1
    ensures EvalDigits(s, base) < base <==> |s| == 1
  {
    var h, d := s[..|s| - 1], DigitValue(s[|s| - 1]);
    assert 0 <= d < base;
    if |s| == 1 {
      assert h == "" && EvalDigits(s, base) == d;
    } else {
      assert h[0] == s[0];
      EvalBounds(h, base);
      AtLeast(EvalDigits(h, base), base);
    }
  }

  lemma AtLeast(q: int, base: int)
    requires q >= 1 && base > 0
    ensures q * base >= base
  {
  }

  /** The canonical numeral of a number is unique. */
  lemma {:induction false} MagnitudeUnique(s: string, base: int)
    requires ValidBase(base) && IsCanonicalMagnitude(s, base)
    ensures EvalDigits(s, base) >= 0 && s == Magnitude(EvalDigits(s, base), base)
  {
    EvalBounds(s, base);
    var h, d := s[..|s| - 1], DigitValue(s[|s| - 1]);
    CharRoundTrip(s[|s| - 1]);
    if |s| == 1 {
      assert h == "" && EvalDigits(s, base) == d;
    } else {
      assert h[0] == s[0];
      MagnitudeUnique(h, base);
      QuotientOf(EvalDigits(h, base), base, d);
      assert s == h + [s[|s| - 1]];
    }
  }

  lemma QuotientOf(q: int, base: int, d: int)
    requires 0 <= d < base
    ensures (q * base + d) / base == q && (q * base + d) % base == d
  {
    var n := q * base + d;
    var k := n / base - q;
    assert n == n / base * base + n % base;
    assert k * base == d - n % base;
    Between(base, k);
  }

  lemma NumeralUnique(s: string, base: int)
    requires ValidBase(base) && IsCanonical(s, base)
    ensures s == Numeral(Eval(s, base), base)
  {
    if IsNegative(s) {
      MagnitudeUnique(s[1..], base);
      EvalBounds(s[1..], base);
      assert s == "-" + s[1..];
    } else {
      MagnitudeUnique(s, base);
    }
  }

  // ---------------------------------------------------------------------------------------------
  // The routines
  // ---------------------------------------------------------------------------------------------

  /** Division as in C++: towards zero. */
  function TruncDiv(v: int, base: int): int
    requires base > 0
  {
    if v >= 0 then v / base else -(-v / base)
  }

  /** The digits of a magnitude, least significant first. */
  function LowFirst(n: nat, base: int): string
    requires ValidBase(base)
  {
    if n < base then [DigitChar(n)] else
      QuotientSmaller(n, base);
      [DigitChar(n % base)] + LowFirst(n / base, base)
  }

  lemma {:induction false} LowFirstReversed(n: nat, base: int)
    requires ValidBase(base)
    ensures Reverse(LowFirst(n, base)) == Magnitude(n, base)
  {
    if n >= base {
      QuotientSmaller(n, base);
      LowFirstReversed(n / base, base);
      ReverseCons(DigitChar(n % base), LowFirst(n / base, base));
    } else {
      assert Reverse([DigitChar(n)]) == [DigitChar(n)];
    }
  }

  lemma ReverseCons(c: char, s: string)
    ensures Reverse([c] + s) == Reverse(s) + [c]
  {
  }

  /** The sign cannot spoil the table access: the entry depends on the digit's absolute value only. */
  lemma SymmetricTable(d: int)
    requires -36 < d < 36
    ensures |DIGITS| == 71 && DIGITS[35 + d] == DigitChar(AbsInt(d))
  {
    assert |DIGITS| == 71;
    if d < -17 {
      TableLow(d);
    } else if d < 0 {
      TableMiddle(d);
    } else {
      TableHigh(d);
    }
  }

  lemma TableLow(d: int)
    requires -36 < d < -17
    ensures DIGITS[35 + d] == DigitChar(-d)
  {
  }

  lemma TableMiddle(d: int)
    requires -17 <= d < 0
    ensures DIGITS[35 + d] == DigitChar(-d)
  {
  }

  lemma TableHigh(d: int)
    requires 0 <= d < 36
    ensures DIGITS[35 + d] == DigitChar(d)
  {
  }

  lemma DivMod(n: nat, base: int)
    requires ValidBase(base)
    ensures n == n / base * base + n % base && 0 <= n % base < base
    ensures 0 <= n / base && (n / base > 0 <==> n >= base)
  {
    if n >= base {
      QuotientSmaller(n, base);
    } else {
      assert n / base == 0 && n % base == n;
    }
  }

  lemma NegatedProduct(q: int, base: int)
    ensures -q * base == -(q * base)
  {
  }

  /** What truncating division leaves behind is the sign times the digit of the magnitude. */
  lemma TruncatedDigit(v: int, base: int)
    requires ValidBase(base)
    ensures var d := v - TruncDiv(v, base) * base; -base < d < base && AbsInt(d) == AbsInt(v) % base
    ensures AbsInt(TruncDiv(v, base)) == AbsInt(v) / base
    ensures TruncDiv(v, base) == 0 <==> AbsInt(v) < base
    ensures v > 0 ==> TruncDiv(v, base) >= 0
    ensures v < 0 ==> TruncDiv(v, base) <= 0
  {
    DivMod(AbsInt(v), base);
    NegatedProduct(AbsInt(v) / base, base);
  }

  /** One turn of the digit loop. */
  lemma DigitStep(v: int, base: int, done: string, all: string)
    requires ValidBase(base) && all == done + LowFirst(AbsInt(v), base)
    ensures var next := TruncDiv(v, base);
      && 0 <= 35 + (v - next * base) < |DIGITS|
      && (var more := done + [DIGITS[35 + (v - next * base)]];
          && |more| <= |all|
          && all == if next == 0 then more else more + LowFirst(AbsInt(next), base))
    ensures v != 0 ==> AbsInt(TruncDiv(v, base)) < AbsInt(v)
    ensures var next := TruncDiv(v, base); (next < 0 ==> v < 0) && (next > 0 ==> v > 0)
  {
    TruncatedDigit(v, base);
    var d, n := v - TruncDiv(v, base) * base, AbsInt(v);
    SymmetricTable(d);
    hide DIGITS, TruncDiv;
    if n >= base {
      QuotientSmaller(n, base);
      assert done + ([DigitChar(n % base)] + LowFirst(n / base, base))
          == done + [DigitChar(n % base)] + LowFirst(n / base, base);
    } else {
      assert n % base == n;
    }
  }

  lemma SignedReverse(v: int, base: int)
    requires ValidBase(base)
    ensures Reverse(LowFirst(AbsInt(v), base) + if v < 0 then "-" else "") == Numeral(v, base)
  {
    var low := LowFirst(AbsInt(v), base);
    LowFirstReversed(AbsInt(v), base);
    hide LowFirst, Magnitude;
    if v < 0 {
      assert Reverse(low + "-") == ['-'] + Reverse(low);
    } else {
      assert low + "" == low;
    }
  }

  lemma BufferNeed(v: int, base: int)
    requires ValidBase(base)
    ensures base > 0 && |Numeral(v, base)| == |LowFirst(AbsInt(v), base)| + if v < 0 then 1 else 0
  {
    SignedReverse(v, base);
  }

  /** Reverses the first `n` characters. */
  method ReverseInPlace(result: array<char>, n: nat)
    requires 0 < n <= result.Length
    modifies result
    ensures result[..n] == Reverse(old(result[..n]))
    ensures result[n..] == old(result[n..])
  {
    var low, high := 0, n - 1;
    while low < high
      invariant 0 <= low <= high + 1 && low + high == n - 1
      invariant forall k | 0 <= k < result.Length ::
          result[k] == (if k < low || high < k < n then old(result[n - 1 - k]) else old(result[k]))
    {
      var c := result[high];
      result[high] := result[low];
      high := high - 1;
      result[low] := c;
      low := low + 1;
    }
    assert forall k | 0 <= k < n :: result[k] == old(result[n - 1 - k]);
  }

  method Ltoa(value0: int, result: array<char>, base: int)
    requires result.Length >= if ValidBase(base) then |Numeral(value0, base)| + 1 else 1
    modifies result
    ensures !ValidBase(base) ==> result[0] == '\0'
    ensures ValidBase(base) ==> var s := Numeral(value0, base); result[..|s|] == s && result[|s|] == '\0'
  {
    if base < 2 || base > 36 {
      result[0] := '\0';
      return;
    }
    var n := WriteDigits(value0, result, base);
    SignedReverse(value0, base);
    result[n] := '\0';
    ghost var low := result[..n];
    ReverseInPlace(result, n);
    assert result[n] == result[n..][0];
  }

  /** The digits, least significant first, and the sign. */
  method WriteDigits(value0: int, result: array<char>, base: int) returns (n: nat)
    requires ValidBase(base) && result.Length > |Numeral(value0, base)|
    modifies result
    ensures 0 < n == |Numeral(value0, base)| < result.Length
    ensures result[..n] == LowFirst(AbsInt(value0), base) + if value0 < 0 then "-" else ""
  {
    hide *;
    BufferNeed(value0, base);
    var value, tmpValue, first := value0, value0, true;
    n := 0;
    ghost var all := LowFirst(AbsInt(value0), base);
    ghost var done := "";
    assert all == done + LowFirst(AbsInt(value), base);
    while first || value != 0
      invariant n == |done| <= |all| && result[..n] == done
      invariant if first || value != 0 then all == done + LowFirst(AbsInt(value), base) else all == done
      invariant first ==> value == value0
      invariant value0 < 0 <==> tmpValue < 0
      invariant value < 0 ==> value0 < 0
      invariant value > 0 ==> value0 >= 0
      decreases first, AbsInt(value)
    {
      DigitStep(value, base, done, all);
      first := false;
      tmpValue := value;
      value := TruncDiv(value, base);
      result[n] := DIGITS[35 + (tmpValue - value * base)];
      done := done + [result[n]];
      n := n + 1;
    }
    if tmpValue < 0 {
      result[n] := '-';
      n := n + 1;
    }
  }

  /** The unsigned routine gives the numeral that the signed one gives. */
  method Ultoa(value0: nat, result: array<char>, base: int)
    requires result.Length >= if ValidBase(base) then |Numeral(value0, base)| + 1 else 1
    modifies result
    ensures !ValidBase(base) ==> result[0] == '\0'
    ensures ValidBase(base) ==> var s := Numeral(value0, base); result[..|s|] == s && result[|s|] == '\0'
  {
    if base < 2 || base > 36 {
      result[0] := '\0';
      return;
    }
    var n := WriteUnsignedDigits(value0, result, base);
    SignedReverse(value0, base);
    result[n] := '\0';
    ghost var low := result[..n];
    ReverseInPlace(result, n);
    assert result[n] == result[n..][0];
  }

  method WriteUnsignedDigits(value0: nat, result: array<char>, base: int) returns (n: nat)
    requires ValidBase(base) && result.Length > |Numeral(value0, base)|
    modifies result
    ensures 0 < n == |Numeral(value0, base)| < result.Length
    ensures result[..n] == LowFirst(AbsInt(value0), base) + ""
  {
    hide *;
    BufferNeed(value0, base);
    var value: nat, first := value0, true;
    n := 0;
    ghost var all := LowFirst(AbsInt(value0), base);
    ghost var done := "";
    assert all == done + LowFirst(AbsInt(value), base);
    while first || value != 0
      invariant n == |done| <= |all| && result[..n] == done
      invariant if first || value != 0 then all == done + LowFirst(AbsInt(value), base) else all == done
      decreases first, AbsInt(value)
    {
      DigitStep(value, base, done, all);
      UnsignedDiv(value, base);
      first := false;
      var tmpValue := value;
      value := value / base;
      result[n] := DIGITS[35 + (tmpValue - value * base)];
      done := done + [result[n]];
      n := n + 1;
    }
    assert all + "" == all;
  }

  lemma UnsignedDiv(v: nat, base: int)
    requires ValidBase(base)
    ensures TruncDiv(v, base) == v / base >= 0
  {
  }
}
