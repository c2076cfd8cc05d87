/**
 Compressed floats in binary32: the laws of Accuracy without a condition on the steps, since a sum of binary32 values is
 near whatever its size and no quotient or product on the way to a code or a decode is subnormal; and worked values
 that any other order of the same operations, or one rounding fewer, would get wrong.
 */
module SinglePrecision {
  import opened Bits
  import opened Words
  import opened Params
  import opened Roundings
  import opened Quantizations
  import opened Accuracy

  /** How near binary32 is: a part 2^-24. */
  const PART: real := 1.0 / 16777216.0

  /** The least normal binary32 value: 2^-126. */
  const LEAST_NORMAL: real := 1.0 / 85070591730234615865843651857942052864.0

  /** A whole number of the least positive value, as every sum of binary32 values is. */
  predicate Whole(x: real) {
    x * UNIT == (x * UNIT).Floor as real
  }

  /** Sums and differences of binary32 values are near: those too small to be normal are exact. */
  lemma WholeNear(x: real)
    requires Whole(x)
    ensures Near(Binary32, PART, x)
  {
    hide Magnitude, Pow2;
    if Roundings.Abs(x) * UNIT >= 8388608.0 {
      Binary32Near(x);
    } else {
      SmallPowers();
      var n := (x * UNIT).Floor;
      MagnitudeFixed(Roundings.Abs(x), if n < 0 then -n else n, 0);
    }
  }

  lemma WholeSum(x: real, y: real)
    requires Whole(x) && Whole(y)
    ensures Whole(x + y) && Whole(x - y)
  {
    var m, n := (x * UNIT).Floor, (y * UNIT).Floor;
    WholeIs((x + y) * UNIT, m + n);
    WholeIs((x - y) * UNIT, m - n);
  }

  lemma WholePoints(n: nat)
    ensures Whole(n as real) && Whole(0.5)
  {
    WholeIs(n as real * UNIT, n * UNIT.Floor);
    WholeIs(0.5 * UNIT, UNIT.Floor / 2);
  }

  lemma NormalNear(x: real)
    requires x == 0.0 || x >= LEAST_NORMAL
    ensures Near(Binary32, PART, x)
  {
    hide Magnitude;
    Binary32Near(x);
  }

  lemma RoundedWhole(x: real)
    ensures Whole(Binary32(x))
  {
    hide Binary32;
    Binary32Idempotent(x);
    WholeUnits(Binary32(x));
  }

  lemma AtLeast(x: real, b: real)
    requires b <= x && Binary32(b) == b
    ensures b <= Binary32(x)
  {
    hide Binary32;
    Binary32Monotone(b, x);
  }

  lemma AtMost(x: real, b: real)
    requires x <= b && Binary32(b) == b
    ensures Binary32(x) <= b
  {
    hide Binary32;
    Binary32Monotone(x, b);
  }

  /** Powers of two are binary32 values: 2^-126, 2^-32 and a quarter among them, and so is three quarters. */
  lemma SmallPoints()
    ensures Binary32(LEAST_NORMAL) == LEAST_NORMAL && Binary32(1.0 / 4294967296.0) == 1.0 / 4294967296.0
    ensures Binary32(0.25) == 0.25 && Binary32(0.75) == 0.75
  {
    SmallPowers();
    hide Magnitude, Pow2;
    Pow2Widths();
    PowersOfUnit();
    Pow2Doubles(3);
    Pow2Add(16, 4);
    Pow2Add(20, 3);
    Pow2Add(64, 32);
    Pow2Add(96, 20);
    Pow2Doubles(116);
    Pow2Add(128, 16);
    Pow2Add(144, 3);
    MagnitudeFixed(LEAST_NORMAL, 1, 23);
    MagnitudeFixed(1.0 / 4294967296.0, 1, 117);
    MagnitudeFixed(0.25, 1, 147);
    MagnitudeFixed(0.75, 3, 147);
  }

  lemma BinaryWhole(x: real)
    requires Binary32(x) == x
    ensures Whole(x)
  {
    WholeUnits(x);
  }

  lemma NormalTimes(n: real, t: real)
    requires n == 0.0 || n >= LEAST_NORMAL
    requires t >= 1.0
    ensures Times(n, t) == 0.0 || Times(n, t) >= LEAST_NORMAL
  {
    if n != 0.0 {
      TimesMonotone(LEAST_NORMAL, n, 1.0);
      TimesCommutes(n, t);
      TimesMonotone(1.0, t, n);
    }
  }

  /** What binary32 rounds on the way to a code is near, when the ratio is zero or normal. */
  lemma Binary32EncodeNear(c: Constants, min: real, value: real)
    requires ConstantsValid(c) && Binary32(min) == min <= value == Binary32(value)
    requires var q := Over(Binary32(value - min), c.delta); q == 0.0 || q >= LEAST_NORMAL
    ensures EncodeNear(Binary32, PART, c, min, value)
  {
    hide Binary32, Near, Over, Times, Whole, Rounding;
    Binary32IsRounding();
    BinaryWhole(min);
    BinaryWhole(value);
    WholeSum(value, min);
    WholeNear(value - min);
    var q, top := Over(Binary32(value - min), c.delta), c.maxInteger as real;
    NormalNear(q);
    WholePoints(c.maxInteger);
    WholeNear(top);
    TopIsPositive(Binary32, c);
    FixedPoints(Binary32);
    SmallPoints();
    if q != 0.0 {
      AtLeast(q, LEAST_NORMAL);
    }
    var n, t := Normalized(Binary32, c, min, value), Binary32(top);
    NormalTimes(n, t);
    NormalNear(Times(n, t));
    var p := Binary32(Times(n, t));
    RoundedWhole(Times(n, t));
    WholeSum(p, 0.5);
    WholeNear(p + 0.5);
  }

  lemma NearHalf(round: real -> real, d: real)
    requires Near(round, PART, d) && d >= 0.0
    ensures d <= 2.0 * round(d)
  {
  }

  lemma TinyOver(x: real, y: real, d: real)
    requires 0.0 < x <= 2.0 * y && d > 0.0
    ensures 0.0 < Over(x, d) <= 2.0 * Over(y, d)
  {
    OverMonotone(x, 2.0 * y, d);
    OverIsTimes(y, d);
    OverIsTimes(2.0 * y, d);
  }

  lemma TinyTimes(n: real, t: real)
    requires 0.0 <= n <= 2.0 * LEAST_NORMAL && 1.0 <= t <= MAX_INTEGER as real
    ensures 0.0 <= Times(n, t) < 0.25 && n <= Times(n, t)
  {
    TimesMonotone(n, 2.0 * LEAST_NORMAL, t);
    TimesMonotone(t, MAX_INTEGER as real, LEAST_NORMAL);
    TimesCommutes(n, t);
    TimesMonotone(1.0, t, n);
  }

  /** A value so close above the lower bound that its ratio is not normal gets the code 0, and is that close to it. */
  lemma TinyRatio(c: Constants, min: real, value: real)
    requires ConstantsValid(c) && Binary32(min) == min < value == Binary32(value)
    requires Over(Binary32(value - min), c.delta) < LEAST_NORMAL
    ensures Quantize(Binary32, c, min, value) == 0
    ensures 0.0 < Times(Over(value - min, c.delta), c.maxInteger as real) < 0.5
  {
    hide Binary32, Near, Over, Whole, Rounding;
    Binary32IsRounding();
    BinaryWhole(min);
    BinaryWhole(value);
    WholeSum(value, min);
    WholeNear(value - min);
    SmallPoints();
    FixedPoints(Binary32);
    var d, top := value - min, c.maxInteger as real;
    NearHalf(Binary32, d);
    OverPositive(d, c.delta);
    TinyOver(d, Binary32(d), c.delta);
    TinyTimes(Over(d, c.delta), top);
    AtMost(Over(Binary32(d), c.delta), LEAST_NORMAL);
    RatioPositive(Binary32, c, d);
    AtLeast(Over(Binary32(d), c.delta), 0.0);
    AtMost(top, MAX_INTEGER as real);
    TopIsPositive(Binary32, c);
    var n, t := Normalized(Binary32, c, min, value), Binary32(top);
    TinyTimes(n, t);
    AtMost(Times(n, t), 0.25);
    AtLeast(Times(n, t), 0.0);
    AtMost(Binary32(Times(n, t)) + 0.5, 0.75);
    AtLeast(Binary32(Times(n, t)) + 0.5, 0.0);
  }

  lemma TinyShare(c: Constants, min: real, value: real)
    requires ConstantsValid(c) && min < value && 0.0 < Times(Over(value - min, c.delta), c.maxInteger as real) < 0.5
    ensures 0.0 < Times(Share(c, min, value), c.maxInteger as real) < 0.5
  {
    var x := Over(value - min, c.delta);
    if value >= min + c.delta {
      Units(c.delta);
      OverMonotone(c.delta, value - min, c.delta);
      TimesMonotone(1.0, x, c.maxInteger as real);
    }
  }
  lemma LowerShare(c: Constants, min: real, value: real)
    requires c.delta > 0.0 && value <= min
    ensures Times(Share(c, min, value), c.maxInteger as real) == 0.0
  {
  }

  /** In binary32 every value's code is nearest to its place, but for a part 7 of 2^24 of the codes. */
  lemma Binary32Code(c: Constants, min: real, value: real)
    requires ConstantsValid(c) && Binary32(c.delta) == c.delta && Binary32(min) == min && Binary32(value) == value
    ensures IsNearest(PART, c, min, value, Quantize(Binary32, c, min, value))
  {
    hide Binary32, Quantize, EncodeNear, Rounding, Times, Over, IsNearest, Share;
    Binary32IsRounding();
    PartOf(PART, c.maxInteger as real);
    if value <= min {
      EndCodes(Binary32, c, min, value);
      LowerShare(c, min, value);
      NearestForm(PART, c, min, value, 0);
    } else if Over(Binary32(value - min), c.delta) >= LEAST_NORMAL {
      Binary32EncodeNear(c, min, value);
      NearestCode(Binary32, PART, c, min, value);
    } else {
      TinyRatio(c, min, value);
      TinyShare(c, min, value);
      NearestForm(PART, c, min, value, 0);
    }
  }

  /** 2^-90: a range this wide or wider meets no subnormal on the way to a decode. */
  const LEAST_RANGE: real := 1.0 / 1237940039285380274899124224.0

  lemma LeastQuotient(a: real, top: real)
    requires 1.0 <= top <= MAX_INTEGER as real && (a == 0.0 || a >= 1.0)
    ensures a == 0.0 ==> Over(a, top) == 0.0
    ensures a >= 1.0 ==> Over(a, top) >= 1.0 / 4294967296.0
  {
    if a >= 1.0 {
      var q := Over(a, top);
      TimesOver(a, top);
      TimesCommutes(q, top);
      if q < 1.0 / 4294967296.0 {
        OverPositive(a, top);
        TimesMonotone(top, 4294967295.0, q);
      }
    }
  }

  lemma LeastProduct(q: real, delta: real)
    requires delta >= LEAST_RANGE && (q == 0.0 || q >= 1.0 / 4294967296.0)
    ensures Times(q, delta) == 0.0 || Times(q, delta) >= LEAST_NORMAL
  {
    if q != 0.0 {
      TimesMonotone(LEAST_RANGE, delta, q);
      TimesCommutes(LEAST_RANGE, q);
      TimesCommutes(delta, q);
      TimesMonotone(1.0 / 4294967296.0, q, LEAST_RANGE);
    }
  }

  lemma Binary32DecodeNear(c: Constants, min: real, code: nat)
    requires ConstantsValid(c) && code <= c.maxInteger && c.delta >= LEAST_RANGE && Binary32(min) == min
    ensures Binary32(c.maxInteger as real) != 0.0 && DecodeNear(Binary32, PART, c, min, code)
  {
    hide Binary32, Near, Over, Times, Whole, Rounding;
    Binary32IsRounding();
    FixedPoints(Binary32);
    SmallPoints();
    TopIsPositive(Binary32, c);
    WholePoints(code);
    WholeNear(code as real);
    WholePoints(c.maxInteger);
    WholeNear(c.maxInteger as real);
    var a, top := Binary32(code as real), Binary32(c.maxInteger as real);
    if code >= 1 {
      AtLeast(code as real, 1.0);
    }
    LeastQuotient(a, top);
    var q := Over(a, top);
    NormalNear(q);
    if code >= 1 {
      AtLeast(q, 1.0 / 4294967296.0);
    }
    var p := Times(Binary32(q), c.delta);
    LeastProduct(Binary32(q), c.delta);
    NormalNear(p);
    RoundedWhole(p);
    BinaryWhole(min);
    WholeSum(Binary32(p), min);
    WholeNear(Binary32(p) + min);
  }

  /** In binary32 every decode is its code's place in the range, but for a part 7 of 2^24 of range and lower bound. */
  lemma Binary32Decode(c: Constants, min: real, code: nat)
    requires ConstantsValid(c) && code <= c.maxInteger && c.delta >= LEAST_RANGE && Binary32(min) == min
    ensures Binary32(c.maxInteger as real) != 0.0
    ensures IsPlace(PART, c, min, code, Decode(Binary32, c, min, code))
  {
    hide Binary32, DecodeNear, Decode, Rounding, IsPlace;
    Binary32IsRounding();
    Binary32DecodeNear(c, min, code);
    DecodeIsPlace(Binary32, PART, c, min, code);
  }

  lemma LastRatio(d: real, delta: real, top: real)
    requires 8.0 * Times(d, top) >= 3.0 * delta && 0.0 < delta && 1.0 <= top <= MAX_INTEGER as real && d >= 0.0
    ensures Over(d, delta) >= LEAST_NORMAL
  {
    var q := Over(d, delta);
    OverPositive(d, delta);
    TimesOver(d, delta);
    if q < LEAST_NORMAL {
      TimesMonotone(q, LEAST_NORMAL, delta);
      TimesMonotone(d, Times(LEAST_NORMAL, delta), top);
      TimesCommutes(Times(LEAST_NORMAL, delta), top);
      TimesMonotone(top, MAX_INTEGER as real, Times(LEAST_NORMAL, delta));
    }
  }

  lemma RoundedRatio(x: real, delta: real, top: real)
    requires 0.0 <= x && Whole(x) && 0.0 < delta && 1.0 <= top <= MAX_INTEGER as real
    requires 4.0 * Times(x, top) >= 3.0 * delta
    ensures Over(Binary32(x), delta) >= LEAST_NORMAL
  {
    hide Binary32, Over, Times, Whole, Near;
    var d := Binary32(x);
    WholeNear(x);
    NearHalf(Binary32, x);
    TimesMonotone(x, 2.0 * d, top);
    PartScaled(2.0 * d, 2.0, d, top);
    LastRatio(d, delta, top);
  }

  lemma DecodeFixed(c: Constants, min: real, code: nat)
    requires c.maxInteger >= 1 && Binary32(c.maxInteger as real) != 0.0
    ensures Binary32(Decode(Binary32, c, min, code)) == Decode(Binary32, c, min, code)
  {
    hide Binary32, Times, Over;
    var p := Binary32(Times(Binary32(Over(Binary32(code as real), Binary32(c.maxInteger as real))), c.delta));
    Binary32Idempotent(p + min);
  }

  lemma StepAbove(d: real, code: real, delta: real, m: real, top: real)
    requires 1.0 <= code <= top && 0.0 < delta && 0.0 <= m
    requires 28.0 * Times(Times(PART, top), delta + m) < delta
    requires d >= Times(Over(code, top), delta) - 7.0 * Times(PART, delta + m)
    ensures 4.0 * Times(d, top) >= 3.0 * delta
  {
    hide Times, Over;
    var r, w := Over(code, top), Times(PART, delta + m);
    TimesOver(code, top);
    TimesMonotone(Times(r, delta) - 7.0 * w, d, top);
    TimesDistributes(Times(r, delta), 7.0 * w, top);
    PartScaled(7.0 * w, 7.0, w, top);
    TimesAssociates(r, delta, top);
    TimesCommutes(delta, top);
    TimesAssociates(r, top, delta);
    TimesMonotone(1.0, code, delta);
    Units(delta);
    TimesAssociates(PART, top, delta + m);
    TimesCommutes(top, delta + m);
    TimesAssociates(PART, delta + m, top);
  }

  /** A decode of a code above 0 lies most of a step above the lower bound, so its ratio is not tiny. */
  lemma DecodedRatio(c: Constants, min: real, code: nat)
    requires ConstantsValid(c) && code <= c.maxInteger && c.delta >= LEAST_RANGE
    requires Binary32(c.delta) == c.delta && Binary32(min) == min
    requires 28.0 * (PART * c.maxInteger as real * (c.delta + Roundings.Abs(min))) < c.delta
    ensures Binary32(c.maxInteger as real) != 0.0
    ensures var y := Decode(Binary32, c, min, code);
            var q := Over(Binary32(y - min), c.delta);
            min <= y == Binary32(y) && (q == 0.0 || q >= LEAST_NORMAL)
  {
    hide Binary32, DecodeNear, Over, Times, Rounding, Decode, Whole;
    Binary32IsRounding();
    FixedPoints(Binary32);
    Binary32DecodeNear(c, min, code);
    DecodeEnds(Binary32, c, min);
    DecodeMonotone(Binary32, c, min, 0, code);
    DecodeFixed(c, min, code);
    var y := Decode(Binary32, c, min, code);
    if code == 0 {
      Units(c.delta);
    } else {
      PlaceNear(Binary32, PART, c, min, code);
      TimesOfThree(PART, c.maxInteger as real, c.delta + Roundings.Abs(min));
      StepAbove(y - min, code as real, c.delta, Roundings.Abs(min), c.maxInteger as real);
      BinaryWhole(min);
      BinaryWhole(y);
      WholeSum(y, min);
      RoundedRatio(y - min, c.delta, c.maxInteger as real);
    }
  }

  /**
   In binary32 every code survives being read and written again, of every range from 2^-90 up whose codes, scaled by
   how far the range stands from zero, are fewer than 2^24 / 28.
   */
  lemma Binary32Stable(c: Constants, min: real, code: nat)
    requires ConstantsValid(c) && code <= c.maxInteger && c.delta >= LEAST_RANGE
    requires Binary32(c.delta) == c.delta && Binary32(min) == min
    requires 28.0 * (PART * c.maxInteger as real * (c.delta + Roundings.Abs(min))) < c.delta
    ensures Binary32(c.maxInteger as real) != 0.0
    ensures Quantize(Binary32, c, min, Decode(Binary32, c, min, code)) == code
  {
    hide Binary32, DecodeNear, EncodeNear, Decode, Rounding, Over, Quantize;
    Binary32IsRounding();
    Binary32DecodeNear(c, min, code);
    DecodedRatio(c, min, code);
    Binary32EncodeNear(c, min, Decode(Binary32, c, min, code));
    CodesAreStable(Binary32, PART, c, min, code);
  }

  lemma LowerRatio(c: Constants, min: real)
    requires c.delta > 0.0
    ensures Over(Binary32(min - min), c.delta) == 0.0
  {
    hide Magnitude;
    Binary32Zero();
  }

  lemma TinyQuantum(d: real, delta: real, top: real, e: real, m: real)
    requires 0.0 < d && 0.0 < delta && 1.0 <= top && 0.0 <= e && 0.0 <= m
    requires Times(Over(d, delta), top) < 0.5
    ensures var bound := delta + 28.0 * Times(Times(e, top), delta + m);
            -bound <= 2.0 * Times(-d, top) <= bound
  {
    hide Times, Over;
    var q := Over(d, delta);
    TimesOver(d, delta);
    TimesAssociates(q, delta, top);
    TimesCommutes(delta, top);
    TimesAssociates(q, top, delta);
    TimesMonotone(Times(q, top), 0.5, delta);
    ProductNonnegative(e, top);
    ProductNonnegative(Times(e, top), delta + m);
    ProductNonnegative(d, top);
    PartScaled(-d, -1.0, d, top);
    AsProduct(0.5, delta);
  }

  /** A value whose ratio is not normal comes back as the lower bound. */
  lemma LeastQuantum(c: Constants, min: real, value: real)
    requires ConstantsValid(c) && Binary32(c.delta) == c.delta && Binary32(c.maxInteger as real) != 0.0
    requires Binary32(min) == min < value == Binary32(value) && Over(Binary32(value - min), c.delta) < LEAST_NORMAL
    ensures Quantize(Binary32, c, min, value) == 0 && WithinQuantum(PART, c, min, value, Decode(Binary32, c, min, 0))
  {
    hide Binary32, Decode, Rounding, Over, Quantize, Times, WithinQuantum;
    Binary32IsRounding();
    TinyRatio(c, min, value);
    DecodeEnds(Binary32, c, min);
    TinyQuantum(value - min, c.delta, c.maxInteger as real, PART, Roundings.Abs(min));
    QuantumForm(PART, c, min, value, min);
  }

  /** In binary32 a round trip returns a value within half a quantum of the original, but for what rounding may add. */
  lemma Binary32Quantum(c: Constants, min: real, value: real)
    requires ConstantsValid(c) && c.delta >= LEAST_RANGE && Binary32(c.delta) == c.delta
    requires Binary32(min) == min <= value <= min + c.delta && Binary32(value) == value
    ensures Binary32(c.maxInteger as real) != 0.0
    ensures 0 <= Quantize(Binary32, c, min, value) <= c.maxInteger
    ensures WithinQuantum(PART, c, min, value, Decode(Binary32, c, min, Quantize(Binary32, c, min, value)))
  {
    hide Binary32, DecodeNear, EncodeNear, Decode, Rounding, Over, Quantize, Times, WithinQuantum;
    Binary32IsRounding();
    CodeFits(Binary32, c, min, value);
    Binary32DecodeNear(c, min, Quantize(Binary32, c, min, value));
    if value == min || Over(Binary32(value - min), c.delta) >= LEAST_NORMAL {
      LowerRatio(c, min);
      Binary32EncodeNear(c, min, value);
      NearestQuantum(Binary32, PART, c, min, value);
    } else {
      LeastQuantum(c, min, value);
    }
  }

  // ---- worked values ----

  lemma Spacing(j: nat)
    requires j <= 149
    ensures Times(Pow2(149 - j) as real, Pow2(j) as real) == UNIT
  {
    hide Pow2;
    PowersOfUnit();
    Pow2Add(149 - j, j);
  }

  /** Rounding to a multiple of 2^-j, where the significand below is m. */
  lemma RoundsAt(x: real, low: real, step: real, m: nat, j: nat)
    requires j <= 149 && m < SIGNIFICANDS && (j < 149 ==> SIGNIFICANDS / 2 <= m)
    requires Times(step, Pow2(j) as real) == 1.0 && low == m as real * step
    requires low <= x < low + step
    ensures Binary32(x)
         == if 2.0 * (x - low) > step || (2.0 * (x - low) == step && m % 2 == 1) then low + step else low
  {
    hide Pow2, Binary32, Times;
    var k, p := Pow2(149 - j) as real, Pow2(j) as real;
    Spacing(j);
    TimesCommutes(k, p);
    TimesAssociates(step, p, k);
    Units(k);
    TimesAssociates(m as real, step, UNIT);
    AsProduct(step, UNIT);
    AsProduct(m as real, step);
    AsProduct(low, UNIT);
    AsProduct(m as real, k);
    RoundsTo(x, low, step, m, 149 - j);
  }

  lemma FewPowers()
    ensures Pow2(0) == 1 && Pow2(9) == 512 && Pow2(10) == 1024 && Pow2(14) == 16384 && Pow2(15) == 32768
    ensures Pow2(16) == 65536 && Pow2(17) == 131072 && Pow2(18) == 262144 && Pow2(22) == 4194304
    ensures Pow2(24) == 16777216 && Pow2(25) == 33554432
    ensures Pow2(26) == 67108864 && Pow2(29) == 536870912 && Pow2(31) == 2147483648 && Pow2(34) == 17179869184
  {
    Pow2Add(8, 1);
    Pow2Add(17, 17);
  }

  lemma QuantizeSteps(c: Constants, min: real, value: real, d: real, n: real, t: real, p: real, s: real)
    requires c.delta > 0.0 && Binary32(value - min) == d && Binary32(Over(d, c.delta)) == n && 0.0 <= n <= 1.0
    requires Binary32(c.maxInteger as real) == t && Binary32(Times(n, t)) == p && Binary32(p + 0.5) == s
    ensures Normalized(Binary32, c, min, value) == n
    ensures Quantize(Binary32, c, min, value) == if s.Floor > c.maxInteger then c.maxInteger else s.Floor
  {
    hide Binary32, Over, Times;
  }

  lemma DecodeSteps(c: Constants, min: real, code: nat, a: real, t: real, q: real, p: real, s: real)
    requires c.maxInteger >= 1 && Binary32(code as real) == a && Binary32(c.maxInteger as real) == t != 0.0
    requires Binary32(Over(a, t)) == q && Binary32(Times(q, c.delta)) == p && Binary32(p + min) == s
    ensures Decode(Binary32, c, min, code) == s
  {
    hide Binary32, Over, Times;
  }

  /**
   One of the documented cases where the product's own rounding decides: 0.005 over [0, 10] at 0.01 is written as 1,
   where one rounding for product and sum together would give 0.
   */
  lemma TwoRoundings()
    ensures var c, value := Constants(1000, 10, 10.0), 5368709.0 / 1073741824.0;
            && Quantize(Binary32, c, 0.0, value) == 1
            && Binary32(Normalized(Binary32, c, 0.0, value) * 1000.0 + 0.5).Floor == 0
  {
    hide Pow2, Binary32, Quantize, Normalized;
    FewPowers();
    SmallIntegers(1000);
    var value, n, p := 5368709.0 / 1073741824.0, 4294967.0 / 8589934592.0, 16777215.0 / 33554432.0;
    RoundsAt(value, 10737418.0 / 2147483648.0, 1.0 / 2147483648.0, 10737418, 31);
    RoundsAt(value / 10.0, 8589934.0 / 17179869184.0, 1.0 / 17179869184.0, 8589934, 34);
    RoundsAt(n * 1000.0, 16777214.0 / 33554432.0, 1.0 / 33554432.0, 16777214, 25);
    RoundsAt(p + 0.5, 16777215.0 / 16777216.0, 1.0 / 16777216.0, 16777215, 24);
    RoundsAt(n * 1000.0 + 0.5, 16777215.0 / 16777216.0, 1.0 / 16777216.0, 16777215, 24);
    QuantizeSteps(Constants(1000, 10, 10.0), 0.0, value, value, n, 1000.0, p, 1.0);
  }

  /** Above 2^24 the spacing is 2, and above 2^25 it is 4. */
  lemma WideSpacing(x: real, m: nat)
    requires SIGNIFICANDS / 2 <= m < SIGNIFICANDS
    ensures 2.0 * m as real <= x < 2.0 * m as real + 2.0 ==>
              var rest := x - 2.0 * m as real;
              Binary32(x) == 2.0 * m as real + (if rest > 1.0 || (rest == 1.0 && m % 2 == 1) then 2.0 else 0.0)
    ensures 4.0 * m as real <= x < 4.0 * m as real + 4.0 ==>
              var rest := x - 4.0 * m as real;
              Binary32(x) == 4.0 * m as real + (if rest > 2.0 || (rest == 2.0 && m % 2 == 1) then 4.0 else 0.0)
  {
    hide Pow2, Binary32;
    PowersOfUnit();
    Pow2Doubles(149);
    Pow2Doubles(150);
    if 2.0 * m as real <= x < 2.0 * m as real + 2.0 {
      RoundsTo(x, 2.0 * m as real, 2.0, m, 150);
    }
    if 4.0 * m as real <= x < 4.0 * m as real + 4.0 {
      RoundsTo(x, 4.0 * m as real, 4.0, m, 151);
    }
  }

  /** A case in which each of the five roundings of a write decides the code. */
  lemma EveryWriteRounding()
    ensures var c := Constants(51909627, 26, 4428361.0 / 16384.0);
            Quantize(Binary32, c, -9586981.0 / 524288.0, 9377265.0 / 262144.0) == 10381928
  {
    hide Pow2, Binary32, Quantize, Normalized;
    FewPowers();
    var c := Constants(51909627, 26, 4428361.0 / 16384.0);
    var min, value := -9586981.0 / 524288.0, 9377265.0 / 262144.0;
    var d, n, t := 3542689.0 / 65536.0, 6710887.0 / 33554432.0, 51909628.0;
    RoundsAt(value - min, 14170755.0 / 262144.0, 1.0 / 262144.0, 14170755, 18);
    RoundsAt(d / c.delta, 13421773.0 / 67108864.0, 1.0 / 67108864.0, 13421773, 26);
    WideSpacing(51909627.0, 12977406);
    RoundsAt(n * t, 10381926.0, 1.0, 10381926, 0);
    RoundsAt(10381927.5, 10381927.0, 1.0, 10381927, 0);
    QuantizeSteps(c, min, value, d, n, t, 10381927.0, 10381928.0);
  }

  lemma OddRounding(x: real)
    requires x > 0.0
    ensures Binary32(-x) == -Binary32(x)
  {
  }

  /** Code 384 over [-100, 100] at 0.01 decodes as documented, which one rounding for product and sum would not give. */
  lemma TwoDecodeRoundings()
    ensures var c := Constants(20000, 15, 200.0);
            && Binary32(c.maxInteger as real) != 0.0
            && Decode(Binary32, c, -100.0, 384) == -3150971.0 / 32768.0
            && Binary32(5153961.0 / 268435456.0 * 200.0 - 100.0) != -3150971.0 / 32768.0
            && Binary32(384.0 / 20000.0) == 5153961.0 / 268435456.0
  {
    hide Pow2, Binary32, Decode;
    FewPowers();
    SmallIntegers(384);
    SmallIntegers(20000);
    var q, p := 5153961.0 / 268435456.0, 1006633.0 / 262144.0;
    RoundsAt(384.0 / 20000.0, 10307921.0 / 536870912.0, 1.0 / 536870912.0, 10307921, 29);
    RoundsAt(q * 200.0, 16106128.0 / 4194304.0, 1.0 / 4194304.0, 16106128, 22);
    RoundsAt(100.0 - p, 12603883.0 / 131072.0, 1.0 / 131072.0, 12603883, 17);
    RoundsAt(100.0 - q * 200.0, 12603883.0 / 131072.0, 1.0 / 131072.0, 12603883, 17);
    OddRounding(100.0 - p);
    OddRounding(100.0 - q * 200.0);
    DecodeSteps(Constants(20000, 15, 200.0), -100.0, 384, 384.0, 20000.0, q, p, -3150971.0 / 32768.0);
  }

  /** A case in which each of the five roundings of a decode decides the value. */
  lemma EveryDecodeRounding()
    ensures var c := Constants(26561889, 25, 251.0);
            && Binary32(c.maxInteger as real) != 0.0
            && Decode(Binary32, c, 89.0, 23407199) == 5082143.0 / 16384.0
  {
    hide Pow2, Binary32, Decode;
    FewPowers();
    WideSpacing(23407199.0, 11703599);
    WideSpacing(26561889.0, 13280944);
    var q, p := 14784629.0 / 16777216.0, 14495867.0 / 65536.0;
    RoundsAt(23407200.0 / 26561888.0, 14784628.0 / 16777216.0, 1.0 / 16777216.0, 14784628, 24);
    RoundsAt(q * 251.0, 14495866.0 / 65536.0, 1.0 / 65536.0, 14495866, 16);
    RoundsAt(p + 89.0, 10164285.0 / 32768.0, 1.0 / 32768.0, 10164285, 15);
    DecodeSteps(Constants(26561889, 25, 251.0), 89.0, 23407199, 23407200.0, 26561888.0, q, p, 5082143.0 / 16384.0);
  }

  lemma Width(n: uint32, w: nat)
    requires n >= 1 && w >= 1 && n < Pow2(w) && Pow2(w - 1) <= n
    ensures BitsRequired(0, n) == w
  {
    hide Pow2, BitLen, BitsRequired;
    WidthIsLength(n);
    BitLenLeast(n, w);
    BitLenLeast(n, w - 1);
  }

  /** The constants of the documented declarations: 0.01, in binary32, over [0, 10] and over [-100, 100]. */
  lemma DocumentedConstants()
    ensures var resolution := 5368709.0 / 536870912.0;
            && CompressedFloatParams(Binary32, 0.0, 10.0, resolution) == Constants(1000, 10, 10.0)
            && CompressedFloatParams(Binary32, -100.0, 100.0, resolution) == Constants(20000, 15, 200.0)
  {
    hide Pow2, Binary32, BitsRequired, BitLen;
    FewPowers();
    SmallIntegers(10);
    SmallIntegers(200);
    var resolution := 5368709.0 / 536870912.0;
    RoundsAt(10.0 / resolution, 1000.0, 1.0 / 16384.0, 16384000, 14);
    RoundsAt(200.0 / resolution, 20000.0, 1.0 / 512.0, 10240000, 9);
    Width(1000, 10);
    Width(20000, 15);
  }

  /** Of those two declarations, every code is read and written again as itself. */
  lemma DocumentedCodesStable(code: nat)
    ensures Binary32(1000.0) == 1000.0 && Binary32(20000.0) == 20000.0
    ensures var c := Constants(1000, 10, 10.0);
            code <= 1000 ==> Quantize(Binary32, c, 0.0, Decode(Binary32, c, 0.0, code)) == code
    ensures var c := Constants(20000, 15, 200.0);
            code <= 20000 ==> Quantize(Binary32, c, -100.0, Decode(Binary32, c, -100.0, code)) == code
  {
    hide Pow2, Binary32, BitsRequired, BitLen, Decode, Quantize;
    FewPowers();
    Width(1000, 10);
    Width(20000, 15);
    SmallIntegers(0);
    SmallIntegers(10);
    SmallIntegers(100);
    SmallIntegers(200);
    SmallIntegers(1000);
    SmallIntegers(20000);
    OddRounding(100.0);
    if code <= 1000 {
      Binary32Stable(Constants(1000, 10, 10.0), 0.0, code);
    }
    if code <= 20000 {
      Binary32Stable(Constants(20000, 15, 200.0), -100.0, code);
    }
  }
}
