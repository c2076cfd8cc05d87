/**
 Binary32 rounding of real numbers. Rounding is what the laws of quantization need of it; Binary32 is the rounding of
 IEEE 754 itself, to nearest with ties to even, with subnormals and without a largest value.
 */
module Roundings {
  import opened Bits

  /** The largest finite binary32 value, and the largest binary32 value below 2^32. */
  const MAX_FINITE: real := 340282346638528859811704183484516925440.0
  const MAX_INTEGER: nat := 4294967040

  /**
   Monotone, leaving what is representable alone: zero, a half, one, the largest integer code and the largest finite
   value. Half a unit above the largest code does not reach 2^32, and two values that differ have a difference that
   does not vanish (gradual underflow).
   */
  ghost predicate Rounding(round: real -> real) {
    && (forall x: real, y: real :: x <= y ==> round(x) <= round(y))
    && (forall x: real :: round(round(x)) == round(x))
    && round(0.0) == 0.0 && round(0.5) == 0.5 && round(1.0) == 1.0 && round(MAX_INTEGER as real) == MAX_INTEGER as real
    && round(MAX_INTEGER as real + 0.5) < 4294967296.0
    && round(MAX_FINITE) == MAX_FINITE
    && (forall x: real, y: real :: round(x) == x && round(y) == y && x < y ==> round(y - x) > 0.0)
  }

  lemma Monotone(round: real -> real, x: real, y: real)
    requires Rounding(round) && x <= y
    ensures round(x) <= round(y)
  {
  }

  lemma FixedPoints(round: real -> real)
    requires Rounding(round)
    ensures round(0.0) == 0.0 && round(0.5) == 0.5 && round(1.0) == 1.0
    ensures round(MAX_INTEGER as real) == MAX_INTEGER as real
    ensures round(MAX_INTEGER as real + 0.5) < 4294967296.0
  {
  }

  lemma Idempotent(round: real -> real, x: real)
    requires Rounding(round)
    ensures round(round(x)) == round(x)
  {
  }

  predicate IsFinite(x: real) {
    -MAX_FINITE <= x <= MAX_FINITE
  }

  // ---- to nearest, ties to even, in units of the least positive value ----

  const SIGNIFICANDS: nat := 0x100_0000

  /** The exponent of the spacing at n units: the least that leaves a significand of 24 bits. */
  function Exponent(n: nat): nat {
    if n < SIGNIFICANDS then 0 else 1 + Exponent(n / 2)
  }

  /** m steps and a rest below one step, to the nearest number of steps, an even one when there are two. */
  function Nearest(m: nat, rest: real, step: nat): nat {
    if 2.0 * rest > step as real || (2.0 * rest == step as real && m % 2 == 1) then m + 1 else m
  }

  function Steps(n: nat, step: nat): nat
    requires step > 0
  {
    n / step
  }

  function RoundUnits(y: real): nat
    requires y >= 0.0
  {
    var step := Pow2(Exponent(y.Floor));
    var m := Steps(y.Floor, step);
    Nearest(m, y - (m * step) as real, step) * step
  }

  lemma {:induction false} ExponentGives(n: nat)
    ensures n < SIGNIFICANDS * Pow2(Exponent(n))
    ensures Exponent(n) > 0 ==> SIGNIFICANDS / 2 * Pow2(Exponent(n)) <= n
  {
    if n >= SIGNIFICANDS {
      ExponentGives(n / 2);
    }
  }

  lemma {:induction false} ExponentLeast(n: nat, k: nat)
    requires n < SIGNIFICANDS * Pow2(k)
    ensures Exponent(n) <= k
  {
    if k > 0 && n >= SIGNIFICANDS {
      ExponentLeast(n / 2, k - 1);
    }
  }

  lemma SpacingsGrow(j: nat, k: nat)
    requires j < k
    ensures SIGNIFICANDS * Pow2(j) <= SIGNIFICANDS / 2 * Pow2(k)
  {
    hide Pow2;
    Pow2Doubles(k - 1);
    Pow2Monotone(j, k - 1);
    MulMonotone(Pow2(j), Pow2(k - 1), SIGNIFICANDS);
  }

  lemma ExponentIs(n: nat, k: nat)
    requires n < SIGNIFICANDS * Pow2(k) && (k > 0 ==> SIGNIFICANDS / 2 * Pow2(k) <= n)
    ensures Exponent(n) == k
  {
    hide Pow2, Exponent;
    ExponentLeast(n, k);
    ExponentGives(n);
    var j := Exponent(n);
    if j < k {
      SpacingsGrow(j, k);
    }
  }

  /** Between two neighbouring multiples of the spacing, the nearer one. */
  lemma UnitsRound(y: real, m: nat, k: nat)
    requires m < SIGNIFICANDS && (k > 0 ==> SIGNIFICANDS / 2 <= m)
    requires (m * Pow2(k)) as real <= y < ((m + 1) * Pow2(k)) as real
    ensures RoundUnits(y) == Nearest(m, y - (m * Pow2(k)) as real, Pow2(k)) * Pow2(k)
  {
    hide Pow2, Exponent, Nearest;
    var step, n := Pow2(k), y.Floor;
    MulMonotone(0, m, step);
    assert m * step <= n < (m + 1) * step;
    MulDistributes(m, 1, step);
    MulMonotone(m + 1, SIGNIFICANDS, step);
    if k > 0 {
      MulMonotone(SIGNIFICANDS / 2, m, step);
    }
    ExponentIs(n, k);
    DivModUnique(n, step, m, n - m * step);
  }

  /** What RoundUnits gives: the spacing, the multiple below, and the distance moved. */
  lemma UnitsForm(y: real)
    requires y >= 0.0
    ensures var k := Exponent(y.Floor); var step := Pow2(k); var m := Steps(y.Floor, step);
            && m < SIGNIFICANDS && (k > 0 ==> SIGNIFICANDS / 2 <= m)
            && (m * step) as real <= y < ((m + 1) * step) as real
            && (RoundUnits(y) == m * step || RoundUnits(y) == (m + 1) * step)
            && -(step as real) <= 2.0 * (RoundUnits(y) as real - y) <= step as real
  {
    hide Pow2, Exponent;
    var n := y.Floor;
    var k := Exponent(n);
    var step := Pow2(k);
    var m := Steps(n, step);
    ExponentGives(n);
    var r := n % step;
    assert n == m * step + r;
    MulDistributes(m, 1, step);
    if m >= SIGNIFICANDS {
      MulMonotone(SIGNIFICANDS, m, step);
      assert false;
    }
    if k > 0 && m < SIGNIFICANDS / 2 {
      MulMonotone(m + 1, SIGNIFICANDS / 2, step);
      assert false;
    }
  }

  lemma NearestMonotone(m: nat, r: real, s: real, step: nat)
    requires r <= s
    ensures m <= Nearest(m, r, step) <= Nearest(m, s, step) <= m + 1
  {
  }

  lemma UnitsSpan(y: real)
    requires y >= 0.0
    ensures var k := Exponent(y.Floor);
            && RoundUnits(y) <= SIGNIFICANDS * Pow2(k)
            && (k > 0 ==> SIGNIFICANDS / 2 * Pow2(k) <= RoundUnits(y))
  {
    hide Pow2, Exponent, RoundUnits;
    UnitsForm(y);
    var k := Exponent(y.Floor);
    var m, step := Steps(y.Floor, Pow2(k)), Pow2(k);
    MulMonotone(m, m + 1, step);
    MulMonotone(m + 1, SIGNIFICANDS, step);
    if k > 0 {
      MulMonotone(SIGNIFICANDS / 2, m, step);
    }
  }

  lemma ExponentMonotone(m: nat, n: nat)
    requires m <= n
    ensures Exponent(m) <= Exponent(n)
  {
    hide Pow2, Exponent;
    ExponentGives(n);
    ExponentLeast(m, Exponent(n));
  }

  lemma UnitsMonotoneAcross(y: real, z: real)
    requires 0.0 <= y <= z && Exponent(y.Floor) < Exponent(z.Floor)
    ensures RoundUnits(y) <= RoundUnits(z)
  {
    hide Pow2, Exponent, RoundUnits, Steps, Nearest;
    var j, k := Exponent(y.Floor), Exponent(z.Floor);
    UnitsSpan(y);
    UnitsSpan(z);
    SpacingsGrow(j, k);
  }

  lemma UnitsMonotoneWithin(y: real, z: real, l: nat, m: nat, k: nat)
    requires y <= z && l < SIGNIFICANDS && m < SIGNIFICANDS
    requires k > 0 ==> SIGNIFICANDS / 2 <= l && SIGNIFICANDS / 2 <= m
    requires (l * Pow2(k)) as real <= y < ((l + 1) * Pow2(k)) as real
    requires (m * Pow2(k)) as real <= z < ((m + 1) * Pow2(k)) as real
    ensures RoundUnits(y) <= RoundUnits(z)
  {
    hide Pow2, Exponent, RoundUnits, Nearest;
    var step := Pow2(k);
    UnitsRound(y, l, k);
    UnitsRound(z, m, k);
    if m < l {
      MulMonotone(m + 1, l, step);
      assert false;
    }
    var a, b := Nearest(l, y - (l * step) as real, step), Nearest(m, z - (m * step) as real, step);
    if l < m {
      NearestMonotone(l, y - (l * step) as real, y - (l * step) as real, step);
      NearestMonotone(m, z - (m * step) as real, z - (m * step) as real, step);
    } else {
      NearestMonotone(l, y - (l * step) as real, z - (m * step) as real, step);
    }
    MulMonotone(a, b, step);
  }

  lemma UnitsMonotoneAt(y: real, z: real)
    requires 0.0 <= y <= z && Exponent(y.Floor) == Exponent(z.Floor)
    ensures RoundUnits(y) <= RoundUnits(z)
  {
    hide Pow2, Exponent, RoundUnits, Steps, Nearest;
    var k := Exponent(y.Floor);
    UnitsForm(y);
    UnitsForm(z);
    UnitsMonotoneWithin(y, z, Steps(y.Floor, Pow2(k)), Steps(z.Floor, Pow2(k)), k);
  }

  lemma UnitsMonotone(y: real, z: real)
    requires 0.0 <= y <= z
    ensures RoundUnits(y) <= RoundUnits(z)
  {
    hide Pow2, Exponent, RoundUnits, Steps, Nearest;
    ExponentMonotone(y.Floor, z.Floor);
    if Exponent(y.Floor) < Exponent(z.Floor) {
      UnitsMonotoneAcross(y, z);
    } else {
      UnitsMonotoneAt(y, z);
    }
  }

  lemma UnitsFixedBelow(m: nat, k: nat)
    requires m < SIGNIFICANDS
    ensures RoundUnits((m * Pow2(k)) as real) == m * Pow2(k)
  {
    hide Pow2, Exponent;
    var n := m * Pow2(k);
    MulMonotone(m + 1, SIGNIFICANDS, Pow2(k));
    MulDistributes(m, 1, Pow2(k));
    ExponentLeast(n, k);
    var j := Exponent(n);
    Pow2Add(k - j, j);
    MulAssociates(m, Pow2(k - j), Pow2(j));
    DivModUnique(n, Pow2(j), m * Pow2(k - j), 0);
  }

  /** A significand of 24 bits at any spacing is left alone. */
  lemma UnitsFixed(m: nat, k: nat)
    requires m <= SIGNIFICANDS
    ensures RoundUnits((m * Pow2(k)) as real) == m * Pow2(k)
  {
    hide Pow2, Exponent, RoundUnits;
    if m == SIGNIFICANDS {
      Pow2Doubles(k);
      UnitsFixedBelow(m / 2, k + 1);
    } else {
      UnitsFixedBelow(m, k);
    }
  }

  lemma UnitsIdempotent(y: real)
    requires y >= 0.0
    ensures RoundUnits(RoundUnits(y) as real) == RoundUnits(y)
  {
    hide Pow2, Exponent, RoundUnits;
    UnitsForm(y);
    var k := Exponent(y.Floor);
    var m := Steps(y.Floor, Pow2(k));
    UnitsFixed(m, k);
    UnitsFixed(m + 1, k);
  }

  lemma UnitsMoved(y: real)
    requires y >= 0.0
    ensures var step := Pow2(Exponent(y.Floor)) as real; -step <= 2.0 * (RoundUnits(y) as real - y) <= step
  {
    hide Pow2, Exponent, RoundUnits, Steps, Nearest;
    UnitsForm(y);
  }

  lemma SpacingFits(y: real)
    requires y >= (SIGNIFICANDS / 2) as real
    ensures (SIGNIFICANDS / 2 * Pow2(Exponent(y.Floor))) as real <= y
  {
    SmallPowers();
    hide Pow2, Exponent;
    ExponentGives(y.Floor);
  }

  lemma WithinSpacing(y: real, z: real, step: real)
    requires -step <= 2.0 * (z - y) <= step && 8388608.0 * step <= y
    ensures -y <= 16777216.0 * (z - y) <= y
  {
  }

  /** Nothing moves by more than 2^-24 of itself, from the least normal value up. */
  lemma UnitsNear(y: real)
    requires y >= (SIGNIFICANDS / 2) as real
    ensures -y <= 16777216.0 * (RoundUnits(y) as real - y) <= y
  {
    hide Pow2, Exponent, RoundUnits, Steps, Nearest;
    UnitsMoved(y);
    SpacingFits(y);
    WithinSpacing(y, RoundUnits(y) as real, Pow2(Exponent(y.Floor)) as real);
  }

  // ---- binary32 ----

  /** The reciprocal of the least positive binary32 value: 2^149. */
  const UNIT: real := 713623846352979940529142984724747568191373312.0

  function Magnitude(x: real): real
    requires x >= 0.0
  {
    RoundUnits(x * UNIT) as real / UNIT
  }

  /** The nearest binary32 value, the one with an even significand when there are two. */
  function Binary32(x: real): real {
    if x < 0.0 then -Magnitude(-x) else Magnitude(x)
  }

  lemma PowersOfUnit()
    ensures Pow2(148) as real == UNIT / 2.0 && Pow2(149) as real == UNIT
    ensures Pow2(157) as real == 256.0 * UNIT
    ensures Pow2(253) as real == 20282409603651670423947251286016.0 * UNIT
  {
    SmallPowers();
    hide Pow2;
    Pow2Widths();
    Pow2Add(16, 4);
    Pow2Add(128, 20);
    Pow2Doubles(148);
    Pow2Add(149, 8);
    Pow2Add(64, 32);
    Pow2Add(96, 8);
    Pow2Add(149, 104);
  }

  lemma MagnitudeMonotone(x: real, y: real)
    requires 0.0 <= x <= y
    ensures 0.0 <= Magnitude(x) <= Magnitude(y)
  {
    hide RoundUnits;
    UnitsMonotone(x * UNIT, y * UNIT);
  }

  lemma MagnitudeFixed(x: real, m: nat, k: nat)
    requires m <= SIGNIFICANDS && x * UNIT == (m * Pow2(k)) as real
    ensures x >= 0.0 && Magnitude(x) == x
  {
    hide RoundUnits, Pow2;
    MulMonotone(0, m, Pow2(k));
    UnitsFixed(m, k);
  }

  /** What Binary32 gives is a whole number of units, and is left alone. */
  lemma MagnitudeForm(x: real)
    requires x >= 0.0
    ensures Magnitude(x) * UNIT == RoundUnits(x * UNIT) as real && Magnitude(Magnitude(x)) == Magnitude(x)
  {
    hide RoundUnits;
    UnitsIdempotent(x * UNIT);
  }

  lemma Binary32Monotone(x: real, y: real)
    requires x <= y
    ensures Binary32(x) <= Binary32(y)
  {
    hide Magnitude;
    if x < 0.0 {
      if y < 0.0 {
        MagnitudeMonotone(-y, -x);
      } else {
        MagnitudeMonotone(0.0, -x);
        MagnitudeMonotone(0.0, y);
      }
    } else {
      MagnitudeMonotone(x, y);
    }
  }

  lemma Binary32Zero()
    ensures Magnitude(0.0) == 0.0
  {
    SmallPowers();
    hide Pow2;
    MagnitudeFixed(0.0, 0, 0);
  }

  lemma Binary32Idempotent(x: real)
    ensures Binary32(Binary32(x)) == Binary32(x)
  {
    hide Magnitude;
    Binary32Zero();
    MagnitudeForm(if x < 0.0 then -x else x);
    MagnitudeMonotone(0.0, if x < 0.0 then -x else x);
  }

  lemma WholeIs(y: real, n: int)
    requires y == n as real
    ensures y == y.Floor as real
  {
  }

  /** A binary32 value is a whole number of units. */
  lemma WholeUnits(x: real)
    requires Binary32(x) == x
    ensures x * UNIT == (x * UNIT).Floor as real
  {
    hide Magnitude, RoundUnits;
    if x < 0.0 {
      MagnitudeForm(-x);
      WholeIs(x * UNIT, -(RoundUnits(-x * UNIT) as int));
    } else {
      MagnitudeForm(x);
      WholeIs(x * UNIT, RoundUnits(x * UNIT));
    }
  }

  /** Two binary32 values that differ differ by at least the least one. */
  lemma Binary32Apart(x: real, y: real)
    requires Binary32(x) == x < y == Binary32(y)
    ensures Binary32(y - x) > 0.0
  {
    hide Magnitude, RoundUnits;
    WholeUnits(x);
    WholeUnits(y);
    var m, n := (x * UNIT).Floor, (y * UNIT).Floor;
    assert (y - x) * UNIT == (n - m) as real >= 1.0;
    SmallPowers();
    hide Pow2;
    MagnitudeFixed(1.0 / UNIT, 1, 0);
    MagnitudeMonotone(1.0 / UNIT, y - x);
  }

  lemma AboveMaxInteger()
    ensures Magnitude(MAX_INTEGER as real + 0.5) == MAX_INTEGER as real
  {
    hide RoundUnits, Pow2;
    PowersOfUnit();
    UnitsRound((MAX_INTEGER as real + 0.5) * UNIT, SIGNIFICANDS - 1, 157);
  }

  lemma Binary32Points()
    ensures Binary32(0.0) == 0.0 && Binary32(0.5) == 0.5 && Binary32(1.0) == 1.0
    ensures Binary32(MAX_INTEGER as real) == MAX_INTEGER as real && Binary32(MAX_FINITE) == MAX_FINITE
    ensures Binary32(MAX_INTEGER as real + 0.5) == MAX_INTEGER as real
  {
    hide Magnitude, Pow2;
    PowersOfUnit();
    Binary32Zero();
    MagnitudeFixed(0.5, 1, 148);
    MagnitudeFixed(1.0, 1, 149);
    MagnitudeFixed(MAX_INTEGER as real, SIGNIFICANDS - 1, 157);
    MagnitudeFixed(MAX_FINITE, SIGNIFICANDS - 1, 253);
    AboveMaxInteger();
  }

  /** IEEE rounding to nearest is a Rounding. */
  lemma Binary32IsRounding()
    ensures Rounding(Binary32)
  {
    Binary32Points();
    hide Binary32;
    forall x: real, y: real | x <= y ensures Binary32(x) <= Binary32(y) {
      Binary32Monotone(x, y);
    }
    forall x: real ensures Binary32(Binary32(x)) == Binary32(x) {
      Binary32Idempotent(x);
    }
    forall x: real, y: real | Binary32(x) == x && Binary32(y) == y && x < y ensures Binary32(y - x) > 0.0 {
      Binary32Apart(x, y);
    }
  }

  // ---- how far it moves, and what it leaves alone ----

  function Abs(x: real): real { if x < 0.0 then -x else x }

  /** Rounding moves x by at most e of itself. */
  predicate Near(round: real -> real, e: real, x: real) {
    -(e * Abs(x)) <= round(x) - x <= e * Abs(x)
  }

  lemma MagnitudeNear(x: real)
    requires x * UNIT >= 8388608.0
    ensures -x <= 16777216.0 * (Magnitude(x) - x) <= x
  {
    hide RoundUnits;
    UnitsNear(x * UNIT);
  }

  /** From the least normal value up, 2^-126, binary32 moves nothing by more than 2^-24 of itself. */
  lemma Binary32Near(x: real)
    requires x == 0.0 || Abs(x) * UNIT >= 8388608.0
    ensures Near(Binary32, 1.0 / 16777216.0, x)
  {
    hide Magnitude;
    Binary32Zero();
    if x != 0.0 {
      MagnitudeNear(Abs(x));
    }
  }

  /** Smallest integer not below x. */
  function Ceil(x: real): int {
    if x == x.Floor as real then x.Floor else x.Floor + 1
  }

  /** Integers up to 2^24 are binary32 values. */
  lemma SmallIntegers(n: nat)
    requires n <= SIGNIFICANDS
    ensures Binary32(n as real) == n as real
  {
    hide Pow2, Magnitude;
    PowersOfUnit();
    MagnitudeFixed(n as real, n, 149);
  }

  /** From 2^24 on, every binary32 value is an integer. */
  lemma LargeAreWhole(x: real)
    requires Binary32(x) == x >= 16777216.0
    ensures x == x.Floor as real
  {
    hide Pow2, Exponent, RoundUnits, Steps;
    MagnitudeForm(x);
    var y := x * UNIT;
    var k := Exponent(y.Floor);
    var m := Steps(y.Floor, Pow2(k));
    UnitsForm(y);
    PowersOfUnit();
    if k < 149 {
      ExponentGives(y.Floor);
      Pow2Monotone(k, 149);
      assert false;
    }
    Pow2Add(k - 149, 149);
    var n := if RoundUnits(y) == m * Pow2(k) then m else m + 1;
    MulAssociates(n, Pow2(k - 149), Pow2(149));
    assert x == (n * Pow2(k - 149)) as real;
  }

  /** The ceiling of a binary32 value is one. */
  lemma CeilingFixed(x: real)
    requires Binary32(x) == x >= 0.0
    ensures Binary32(Ceil(x) as real) == Ceil(x) as real
  {
    hide Binary32;
    if x < 16777216.0 {
      SmallIntegers(Ceil(x));
    } else {
      LargeAreWhole(x);
    }
  }

  /** Between two neighbouring binary32 values, low of significand m and the one a step above it, the nearer one. */
  lemma RoundsTo(x: real, low: real, step: real, m: nat, k: nat)
    requires m < SIGNIFICANDS && (k > 0 ==> SIGNIFICANDS / 2 <= m)
    requires low * UNIT == (m * Pow2(k)) as real && step * UNIT == Pow2(k) as real
    requires low <= x < low + step
    ensures Binary32(x)
         == if 2.0 * (x - low) > step || (2.0 * (x - low) == step && m % 2 == 1) then low + step else low
  {
    hide Pow2, RoundUnits;
    MulDistributes(m, 1, Pow2(k));
    MulMonotone(0, m, Pow2(k));
    UnitsRound(x * UNIT, m, k);
  }

  /** Rounding down to an integer leaves a binary32 value one. */
  lemma FloorFixed(x: real)
    requires Binary32(x) == x >= 0.0
    ensures Binary32(x.Floor as real) == x.Floor as real
  {
    hide Binary32;
    if x < 16777216.0 {
      SmallIntegers(x.Floor);
    } else {
      LargeAreWhole(x);
    }
  }

  /** 2^24 + 1 is not a binary32 value; 2^25 is. */
  lemma PastSmallIntegers()
    ensures Binary32(16777217.0) == 16777216.0 && Binary32(33554432.0) == 33554432.0
  {
    hide Pow2, Binary32;
    PowersOfUnit();
    Pow2Doubles(149);
    Pow2Doubles(150);
    RoundsTo(16777217.0, 16777216.0, 2.0, 8388608, 150);
    RoundsTo(33554432.0, 33554432.0, 4.0, 8388608, 151);
  }

  /** The spacing of the largest binary32 values, 2^104, and where they overflow: half a spacing above the largest. */
  const TOP_SPACING: real := 20282409603651670423947251286016.0
  const OVERFLOW: real := 340282356779733661637539395458142568448.0

  /** No binary32 value lies between the largest code and 2^32, nor a spacing above the largest finite value. */
  lemma LargestValues(x: real)
    requires Binary32(x) == x
    ensures x < 4294967296.0 ==> x <= MAX_INTEGER as real
    ensures x < MAX_FINITE + TOP_SPACING ==> x <= MAX_FINITE
  {
    hide Pow2, Binary32;
    PowersOfUnit();
    if MAX_INTEGER as real < x < 4294967296.0 {
      RoundsTo(x, MAX_INTEGER as real, 256.0, SIGNIFICANDS - 1, 157);
    }
    if MAX_FINITE < x < MAX_FINITE + TOP_SPACING {
      RoundsTo(x, MAX_FINITE, TOP_SPACING, SIGNIFICANDS - 1, 253);
    }
  }

  lemma FiniteMagnitude(x: real)
    requires x >= 0.0
    ensures Magnitude(x) <= MAX_FINITE <==> x < OVERFLOW
  {
    hide Pow2, Magnitude;
    PowersOfUnit();
    Binary32Points();
    RoundsTo(OVERFLOW, MAX_FINITE, TOP_SPACING, SIGNIFICANDS - 1, 253);
    if x <= MAX_FINITE {
      MagnitudeMonotone(x, MAX_FINITE);
    } else if x < OVERFLOW {
      RoundsTo(x, MAX_FINITE, TOP_SPACING, SIGNIFICANDS - 1, 253);
    } else {
      MagnitudeMonotone(OVERFLOW, x);
    }
  }

  /** A number rounds to a finite value exactly when it is below 2^128 - 2^103. */
  lemma OverflowThreshold(x: real)
    ensures IsFinite(Binary32(x)) <==> Abs(x) < OVERFLOW
  {
    hide Pow2, Magnitude;
    FiniteMagnitude(Abs(x));
    MagnitudeMonotone(0.0, Abs(x));
    Binary32Zero();
  }
}
