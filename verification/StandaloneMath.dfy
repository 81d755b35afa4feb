/**
 * The square root of standalone_math.h: Newton's iteration, started at the argument itself and stopped
 * when the square is within epsilon. Numbers are exact reals.
 */
module StandaloneMath {

  function Abs(x: real): real {
    if x < 0.0 then -x else x
  }

  function NewtonStep(x: real, y: real): real
    requires y != 0.0
  {
    (y + x / y) / 2.0
  }

  /** The `n`-th value of the loop variable, for a positive argument. */
  function Iterate(x: real, n: nat): (y: real)
    requires x > 0.0
    ensures y > 0.0
  {
    if n == 0 then x else NewtonStep(x, Iterate(x, n - 1))
  }

  /** By how much the square of the `n`-th value exceeds the argument. */
  function Excess(x: real, n: nat): real
    requires x > 0.0
  {
    Iterate(x, n) * Iterate(x, n) - x
  }

  function Pow4(n: nat): (p: real)
    ensures p >= 1.0
  {
    if n == 0 then 1.0 else 4.0 * Pow4(n - 1)
  }

  /** After a step the square is at least the argument. */
  lemma StepFromAnywhere(x: real, y: real)
    requires x > 0.0 && y > 0.0
    ensures NewtonStep(x, y) > 0.0
    ensures NewtonStep(x, y) * NewtonStep(x, y) - x == ((y - x / y) / 2.0) * ((y - x / y) / 2.0)
    ensures NewtonStep(x, y) * NewtonStep(x, y) >= x
  {
    var q := x / y;
    assert q * y == x;
    var d, z := (y - q) / 2.0, (y + q) / 2.0;
    assert z * z - d * d == q * y;
    assert d * d >= 0.0;
  }

  lemma NonNegativeFactor(d: real, y: real)
    requires y > 0.0 && d * y >= 0.0
    ensures d >= 0.0
  {
  }

  /** A step from above divides the excess by at least four. */
  lemma StepFromAbove(x: real, y: real)
    requires x > 0.0 && y > 0.0 && y * y >= x
    ensures 0.0 <= NewtonStep(x, y) * NewtonStep(x, y) - x <= (y * y - x) / 4.0
  {
    StepFromAnywhere(x, y);
    var q := x / y;
    assert q * y == x;
    var d := y - q;
    assert d * y == y * y - x >= 0.0;
    NonNegativeFactor(d, y);
    assert q > 0.0;
    assert d * d == d * y - d * q;
    assert d * q >= 0.0;
    assert (d / 2.0) * (d / 2.0) == d * d / 4.0;
  }

  lemma ExcessStep(x: real, n: nat)
    requires x > 0.0 && n >= 1
    ensures 0.0 <= Excess(x, n)
    ensures n >= 2 && 0.0 <= Excess(x, n - 1) ==> Excess(x, n) <= Excess(x, n - 1) / 4.0
  {
    var y := Iterate(x, n - 1);
    hide NewtonStep;
    StepFromAnywhere(x, y);
    if y * y >= x {
      StepFromAbove(x, y);
    }
  }

  /** The excess of every value but the first is non-negative and shrinks geometrically. */
  lemma {:induction false} ExcessShrinks(x: real, n: nat)
    requires x > 0.0 && n >= 1
    ensures 0.0 <= Excess(x, n)
    ensures Excess(x, n) * Pow4(n - 1) <= Excess(x, 1)
  {
    hide Excess, Iterate, NewtonStep;
    ExcessStep(x, n);
    if n > 1 {
      ExcessShrinks(x, n - 1);
      ScaleDown(Excess(x, n), Excess(x, n - 1), Pow4(n - 2));
    }
  }

  lemma ScaleDown(e: real, e0: real, p: real)
    requires e <= e0 / 4.0 && p >= 0.0
    ensures e * (4.0 * p) <= e0 * p
  {
    assert (e0 / 4.0 - e) * p >= 0.0;
  }

  lemma {:induction false} Pow4Grows(n: nat)
    ensures Pow4(n) >= n as real + 1.0
  {
    if n > 0 {
      Pow4Grows(n - 1);
    }
  }

  ghost predicate Near(x: real, n: nat, epsilon: real)
    requires x > 0.0
  {
    IsWithin(Iterate(x, n), x, epsilon)
  }

  /** Some value is within epsilon: the number of turns is bounded by the quotient of the excess. */
  lemma EnoughTurns(x: real, epsilon: real) returns (n: nat)
    requires x > 0.0 && epsilon > 0.0
    ensures Near(x, n, epsilon)
  {
    hide Excess;
    ExcessShrinks(x, 1);
    var q := Excess(x, 1) / epsilon;
    assert q * epsilon == Excess(x, 1);
    NonNegativeFactor(q, epsilon);
    var m: nat := q.Floor;
    n := m + 1;
    Pow4Grows(m);
    ExcessShrinks(x, n);
    WithinEpsilon(Excess(x, n), Pow4(m), q, epsilon);
    SmallExcess(x, n, epsilon);
  }

  lemma SmallExcess(x: real, n: nat, epsilon: real)
    requires x > 0.0 && 0.0 <= Excess(x, n) <= epsilon
    ensures Near(x, n, epsilon)
  {
    hide Iterate;
  }

  lemma WithinEpsilon(e: real, p: real, q: real, epsilon: real)
    requires epsilon > 0.0 && p > 0.0 && p >= q && e * p <= q * epsilon
    ensures e <= epsilon
  {
    assert (p - q) * epsilon >= 0.0;
    assert (epsilon - e) * p >= 0.0;
    NonNegativeFactor(epsilon - e, p);
  }

  predicate IsWithin(y: real, x: real, epsilon: real) {
    Abs(y * y - x) <= epsilon
  }

  lemma WithinMeans(y: real, x: real, epsilon: real)
    ensures IsWithin(y, x, epsilon) <==> -epsilon <= y * y - x <= epsilon
  {
  }

  /** `n` counts the turns. The result is the first Newton value whose square is within epsilon. */
  method SqrtEps(x: real, epsilon: real) returns (y: real, ghost n: nat)
    requires epsilon > 0.0
    ensures x < 0.0 ==> y == -1.0
    ensures x >= 0.0 ==> y >= 0.0 && IsWithin(y, x, epsilon) && -epsilon <= y * y - x <= epsilon
    ensures x > 0.0 ==> y == Iterate(x, n) && forall m: nat | m < n :: !Near(x, m, epsilon)
    ensures x > 0.0 && n > 0 ==> y * y >= x
  {
    hide *;
    n := 0;
    if x < 0.0 {
      return -1.0, 0;
    }
    y := x;
    if x == 0.0 {
      ZeroIsExact(epsilon);
    }
    ghost var last := 0;
    if x > 0.0 {
      last := EnoughTurns(x, epsilon);
      FirstValue(x);
    }
    while !IsWithin(y, x, epsilon)
      invariant x == 0.0 ==> y == 0.0
      invariant x > 0.0 ==> y > 0.0 && y == Iterate(x, n) && n <= last && Near(x, last, epsilon)
      invariant x > 0.0 ==> forall m: nat | m < n :: !Near(x, m, epsilon)
      decreases last - n
    {
      Turn(x, y, n);
      Guard(x, y, n, epsilon);
      y := (y + (x / y)) / 2.0;
      n := n + 1;
    }
    if x > 0.0 && n > 0 {
      AboveRoot(x, y, n);
    }
    WithinMeans(y, x, epsilon);
  }

  lemma ZeroIsExact(epsilon: real)
    requires epsilon > 0.0
    ensures IsWithin(0.0, 0.0, epsilon)
  {
  }

  lemma Turn(x: real, y: real, n: nat)
    requires x > 0.0 && y == Iterate(x, n)
    ensures y > 0.0
    ensures Iterate(x, n + 1) == (y + (x / y)) / 2.0
    ensures (y + (x / y)) / 2.0 > 0.0
  {
  }

  lemma Guard(x: real, y: real, n: nat, epsilon: real)
    requires x > 0.0 && y == Iterate(x, n)
    ensures !IsWithin(y, x, epsilon) ==> !Near(x, n, epsilon)
  {
    hide Iterate;
  }

  lemma FirstValue(x: real)
    requires x > 0.0
    ensures Iterate(x, 0) == x
  {
  }

  lemma AboveRoot(x: real, y: real, n: nat)
    requires x > 0.0 && n > 0 && y == Iterate(x, n)
    ensures y * y >= x
  {
    ExcessShrinks(x, n);
  }

  predicate IsRoot(r: real, x: real) {
    r >= 0.0 && r * r == x
  }

  method Sqrt(x: real) returns (y: real)
    ensures x < 0.0 ==> y == -1.0
    ensures x >= 0.0 ==> y >= 0.0 && IsWithin(y, x, 0.00000001)
    ensures forall r | IsRoot(r, x) :: Abs(y - r) <= 0.0001
  {
    ghost var n;
    y, n := SqrtEps(x, 0.00000001);
    forall r | IsRoot(r, x)
      ensures Abs(y - r) <= 0.0001
    {
      CloseToRoot(y, r, 0.0001);
    }
  }

  /** Squares within delta^2 mean values within delta. */
  lemma CloseToRoot(y: real, r: real, delta: real)
    requires y >= 0.0 && r >= 0.0 && delta > 0.0
    requires Abs(y * y - r * r) <= delta * delta
    ensures Abs(y - r) <= delta
  {
    var d, s := Abs(y - r), y + r;
    assert Abs(y * y - r * r) == d * s;
    ProductNonNegative(d, s - d);
    assert d * d <= delta * delta;
    SquareMonotone(d, delta);
  }

  lemma ProductNonNegative(a: real, b: real)
    requires a >= 0.0 && b >= 0.0
    ensures a * b >= 0.0
  {
  }

  lemma SquareMonotone(d: real, delta: real)
    requires d >= 0.0 && delta > 0.0 && d * d <= delta * delta
    ensures d <= delta
  {
  }
}
