/**
 What compressed floats mean: a code is the one nearest to the value's place in the range, its decode is that place
 again, and a decode is written as the code it came from. Over any rounding that moves the numbers it meets by at most
 a part e of themselves, e zero where every step is exact; and over binary32, where e is 2^-24.
 */
module Accuracy {
  import opened Bits
  import opened Words
  import opened Params
  import opened Roundings
  import opened Quantizations

  // ---- product facts, one at a time ----

  lemma TimesCommutes(a: real, b: real)
    ensures Times(a, b) == Times(b, a)
  {
  }

  lemma TimesAssociates(a: real, b: real, c: real)
    ensures Times(Times(a, b), c) == Times(a, Times(b, c))
  {
  }

  lemma TimesDistributes(a: real, b: real, d: real)
    ensures Times(a + b, d) == Times(a, d) + Times(b, d) && Times(a - b, d) == Times(a, d) - Times(b, d)
    ensures Times(d, a + b) == Times(d, a) + Times(d, b) && Times(d, a - b) == Times(d, a) - Times(d, b)
  {
  }

  lemma PartScaled(g: real, k: real, e: real, x: real)
    requires g == k * e
    ensures Times(g, x) == k * Times(e, x)
  {
  }

  lemma TimesOfThree(a: real, b: real, c: real)
    ensures Times(Times(a, b), c) == a * b * c
  {
  }

  lemma ProductNonnegative(a: real, b: real)
    requires a >= 0.0 && b >= 0.0
    ensures Times(a, b) >= 0.0
  {
  }

  lemma CancelTimes(x: real, y: real, d: real)
    requires Times(x, d) <= Times(y, d) && d > 0.0
    ensures x <= y
  {
  }

  lemma TimesOver(x: real, d: real)
    requires d != 0.0
    ensures Times(Over(x, d), d) == x
  {
  }

  lemma OverPositive(a: real, d: real)
    requires a >= 0.0 && d > 0.0
    ensures Over(a, d) >= 0.0
  {
  }

  // ---- relative errors and how they add up ----

  /** a is b but for a part g of b. */
  predicate Close(a: real, b: real, g: real) {
    0.0 <= b && b - Times(g, b) <= a <= b + Times(g, b)
  }

  lemma CloseNonnegative(a: real, b: real, g: real)
    requires Close(a, b, g) && 0.0 <= g <= 1.0
    ensures 0.0 <= a && a - b <= Times(g, b) && b - a <= Times(g, b)
  {
    TimesMonotone(g, 1.0, b);
  }

  lemma CloseCompose(a: real, b: real, c: real, g: real, h: real, k: real)
    requires Close(a, b, g) && Close(b, c, h) && 0.0 <= g && 0.0 <= h <= 1.0 && g + h + Times(g, h) <= k
    ensures Close(a, c, k)
  {
    hide Times;
    TimesMonotone(b, c + Times(h, c), g);
    TimesCommutes(g, b);
    TimesCommutes(g, c + Times(h, c));
    TimesDistributes(c, Times(h, c), g);
    TimesAssociates(g, h, c);
    TimesDistributes(g + h, Times(g, h), c);
    TimesDistributes(g, h, c);
    TimesMonotone(g + h + Times(g, h), k, c);
  }

  lemma CloseTimes(a: real, b: real, g: real, d: real)
    requires Close(a, b, g) && d >= 0.0
    ensures Close(Times(a, d), Times(b, d), g)
  {
    hide Times;
    TimesMonotone(a, b + Times(g, b), d);
    TimesMonotone(b - Times(g, b), a, d);
    TimesDistributes(b, Times(g, b), d);
    TimesAssociates(g, b, d);
    ProductNonnegative(b, d);
  }

  lemma OverIsTimes(a: real, d: real)
    requires d != 0.0
    ensures Over(a, d) == Times(a, 1.0 / d)
  {
  }

  lemma CloseOver(a: real, b: real, g: real, d: real)
    requires Close(a, b, g) && d > 0.0
    ensures Close(Over(a, d), Over(b, d), g)
  {
    OverIsTimes(a, d);
    OverIsTimes(b, d);
    CloseTimes(a, b, g, 1.0 / d);
  }

  lemma NearIsClose(round: real -> real, e: real, x: real)
    requires Near(round, e, x) && x >= 0.0
    ensures Close(round(x), x, e)
  {
  }

  // ---- the code of a value ----

  function Within(x: real, d: real): (s: real)
    requires 0.0 <= x <= d && d > 0.0
    ensures 0.0 <= s <= 1.0 && s == x / d
  {
    OverMonotone(0.0, x, d);
    OverMonotone(x, d, d);
    Units(d);
    Over(x, d)
  }

  /** The value's place in the range, exactly: 0 at the lower bound and below, 1 at its far end and above. */
  function Share(c: Constants, min: real, value: real): (s: real)
    requires c.delta > 0.0
    ensures 0.0 <= s <= 1.0
  {
    if value <= min then 0.0 else if value >= min + c.delta then 1.0 else Within(value - min, c.delta)
  }

  /** Rounding is near at every number the quantization of value rounds. */
  ghost predicate EncodeNear(round: real -> real, e: real, c: Constants, min: real, value: real)
    requires c.delta > 0.0
  {
    var d, top := value - min, c.maxInteger as real;
    var p := Times(Normalized(round, c, min, value), round(top));
    Near(round, e, d) && Near(round, e, Over(round(d), c.delta)) && Near(round, e, top)
    && Near(round, e, p) && Near(round, e, round(p) + 0.5)
  }

  lemma BelowRange(round: real -> real, c: Constants, min: real, value: real)
    requires Rounding(round) && ConstantsValid(c) && value <= min
    ensures Normalized(round, c, min, value) == 0.0
  {
    hide Rounding, Over;
    FixedPoints(round);
    Monotone(round, value - min, 0.0);
    OverMonotone(round(value - min), 0.0, c.delta);
    Units(c.delta);
    Monotone(round, Over(round(value - min), c.delta), 0.0);
  }

  lemma AboveRange(round: real -> real, c: Constants, min: real, value: real)
    requires Rounding(round) && ConstantsValid(c) && round(c.delta) == c.delta && min + c.delta <= value
    ensures Normalized(round, c, min, value) == 1.0
  {
    hide Rounding, Over;
    FixedPoints(round);
    Monotone(round, c.delta, value - min);
    OverMonotone(c.delta, round(value - min), c.delta);
    Units(c.delta);
    Monotone(round, 1.0, Over(round(value - min), c.delta));
  }

  lemma ClampCloser(x: real, s: real, g: real)
    requires Close(x, s, g) && s <= 1.0 && 0.0 <= g <= 1.0
    ensures Close(Clamp01(x), s, g)
  {
    CloseNonnegative(x, s, g);
    TimesMonotone(0.0, g, s);
  }

  lemma ZeroClose(x: real, g: real)
    requires 0.0 <= x && 0.0 <= g
    ensures Close(x, x, g)
  {
    TimesMonotone(0.0, g, x);
  }

  lemma ShareIs(c: Constants, min: real, value: real)
    requires c.delta > 0.0 && min < value < min + c.delta
    ensures Share(c, min, value) == Over(value - min, c.delta)
  {
  }

  lemma RatioPositive(round: real -> real, c: Constants, d: real)
    requires Rounding(round) && c.delta > 0.0 && d >= 0.0
    ensures Over(round(d), c.delta) >= 0.0
  {
    hide Rounding;
    FixedPoints(round);
    Monotone(round, 0.0, d);
    OverMonotone(0.0, round(d), c.delta);
    Units(c.delta);
  }

  lemma SquareSmall(e: real)
    requires 0.0 <= e <= 0.125
    ensures 0.0 <= Times(e, e) <= 0.125 * e
  {
    TimesMonotone(e, 0.125, e);
    TimesMonotone(0.0, e, e);
  }

  lemma InsideNear(round: real -> real, e: real, c: Constants, min: real, value: real)
    requires Rounding(round) && ConstantsValid(c) && min < value < min + c.delta
    requires 0.0 <= e <= 0.125
    requires Near(round, e, value - min) && Near(round, e, Over(round(value - min), c.delta))
    ensures Close(Normalized(round, c, min, value), Share(c, min, value), 2.125 * e)
  {
    hide Rounding, Over, Times, Close;
    var d := value - min;
    NearIsClose(round, e, d);
    CloseOver(round(d), d, e, c.delta);
    RatioPositive(round, c, d);
    NearIsClose(round, e, Over(round(d), c.delta));
    SquareSmall(e);
    CloseCompose(round(Over(round(d), c.delta)), Over(round(d), c.delta), Over(d, c.delta), e, e, 2.125 * e);
    ShareIs(c, min, value);
    ClampCloser(round(Over(round(d), c.delta)), Share(c, min, value), 2.125 * e);
  }

  lemma ShareNear(round: real -> real, e: real, c: Constants, min: real, value: real)
    requires Rounding(round) && ConstantsValid(c) && round(c.delta) == c.delta
    requires 0.0 <= e <= 0.125 && EncodeNear(round, e, c, min, value)
    ensures Close(Normalized(round, c, min, value), Share(c, min, value), 2.125 * e)
  {
    hide Rounding, Over, Times;
    if value <= min {
      BelowRange(round, c, min, value);
      ZeroClose(0.0, 2.125 * e);
    } else if value >= min + c.delta {
      AboveRange(round, c, min, value);
      ZeroClose(1.0, 2.125 * e);
    } else {
      hide Normalized;
      InsideNear(round, e, c, min, value);
    }
  }

  lemma PartSmall(g: real, e: real)
    requires 0.0 <= g && 0.0 <= e <= 0.125
    ensures 0.0 <= Times(g, e) <= 0.125 * g && Times(e, g) == Times(g, e)
  {
    TimesMonotone(0.0, e, g);
    TimesMonotone(e, 0.125, g);
  }

  /** The rounded product stands by the exact one. */
  lemma ProductNear(round: real -> real, e: real, c: Constants, min: real, value: real)
    requires Rounding(round) && ConstantsValid(c) && round(c.delta) == c.delta
    requires 0.0 <= e <= 0.125 && EncodeNear(round, e, c, min, value)
    ensures var top := c.maxInteger as real;
            var p := round(Times(Normalized(round, c, min, value), round(top)));
            Close(p, Times(Share(c, min, value), top), 4.82 * e)
  {
    hide Rounding, Over, Times, Close, Normalized, WidthValid, Share;
    ShareNear(round, e, c, min, value);
    var n, s, top := Normalized(round, c, min, value), Share(c, min, value), c.maxInteger as real;
    var t := round(top);
    NormalizedBounds(round, c, min, value);
    NearIsClose(round, e, top);
    CloseTimes(t, top, e, n);
    CloseTimes(n, s, 2.125 * e, top);
    TimesCommutes(t, n);
    TimesCommutes(top, n);
    PartSmall(2.125 * e, e);
    CloseCompose(Times(n, t), Times(n, top), Times(s, top), e, 2.125 * e, 3.391 * e);
    TopIsPositive(round, c);
    ProductNonnegative(n, t);
    NearIsClose(round, e, Times(n, t));
    PartSmall(3.391 * e, e);
    CloseCompose(round(Times(n, t)), Times(n, t), Times(s, top), e, 3.391 * e, 4.82 * e);
  }

  lemma MorePart(e: real, x: real, y: real)
    requires 0.0 <= e && x <= y
    ensures Times(e, x) <= Times(e, y)
  {
  }

  lemma PartOf(e: real, x: real)
    requires 0.0 <= e <= 0.125 && 0.0 <= x
    ensures 0.0 <= Times(e, x) <= 0.125 * x
  {
    TimesMonotone(0.0, e, x);
    TimesMonotone(e, 0.125, x);
  }

  lemma SumError(s: real, p: real, exact: real, e: real, top: real)
    requires 0.0 <= e <= 0.125 && 0.0 <= exact <= top && 1.0 <= top && 0.0 <= p
    requires p - exact <= Times(4.82 * e, exact) && exact - p <= Times(4.82 * e, exact)
    requires Close(s, p + 0.5, e)
    ensures exact + 0.5 - 7.0 * Times(e, top) <= s <= exact + 0.5 + 7.0 * Times(e, top)
  {
    hide Times;
    PartScaled(4.82 * e, 4.82, e, exact);
    PartOf(e, exact);
    PartOf(e, top);
    MorePart(e, exact, top);
    assert Times(4.82 * e, exact) == 4.82 * Times(e, exact);
    assert p <= exact + 0.6025 * exact;
    assert p + 0.5 <= 2.11 * top;
    MorePart(e, p + 0.5, 2.11 * top);
    TimesCommutes(2.11 * top, e);
    PartScaled(2.11 * top, 2.11, top, e);
    TimesCommutes(top, e);
  }

  /** The rounded sum stands by the exact place of the value among the codes, half a step above it. */
  lemma SumNear(round: real -> real, e: real, c: Constants, min: real, value: real)
    requires Rounding(round) && ConstantsValid(c) && round(c.delta) == c.delta
    requires 0.0 <= e <= 0.125 && EncodeNear(round, e, c, min, value)
    ensures var exact, off := Times(Share(c, min, value), c.maxInteger as real), 7.0 * Times(e, c.maxInteger as real);
            && 0.0 <= exact <= c.maxInteger as real
            && exact + 0.5 - off <= RoundedSum(round, c, Normalized(round, c, min, value)) <= exact + 0.5 + off
  {
    hide Rounding, Over, Times, Close, Normalized, Share;
    ProductNear(round, e, c, min, value);
    var top, exact := c.maxInteger as real, Times(Share(c, min, value), c.maxInteger as real);
    ProductNonnegative(Share(c, min, value), top);
    TimesMonotone(Share(c, min, value), 1.0, top);
    Units(top);
    var p := round(Times(Normalized(round, c, min, value), round(top)));
    CloseNonnegative(p, exact, 4.82 * e);
    NearIsClose(round, e, p + 0.5);
    SumError(round(p + 0.5), p, exact, e, top);
  }

  /** The code stands by the exact place of the value among the codes. */
  lemma CodeNear(round: real -> real, e: real, c: Constants, min: real, value: real)
    requires Rounding(round) && ConstantsValid(c) && round(c.delta) == c.delta
    requires 0.0 <= e <= 0.125 && EncodeNear(round, e, c, min, value)
    ensures var code, top := Quantize(round, c, min, value) as real, c.maxInteger as real;
            var exact, off := Times(Share(c, min, value), top), 7.0 * Times(e, top);
            exact - 0.5 - off < code <= exact + 0.5 + off
  {
    hide Rounding, Normalized, RoundedSum, EncodeNear, Share, Times;
    SumNear(round, e, c, min, value);
    PartOf(e, c.maxInteger as real);
  }

  /**
   A code is nearest to the value's place among the codes: within half a step of it, and the part 7 e of the codes
   that rounding may add; a tie goes up.
   */
  predicate IsNearest(e: real, c: Constants, min: real, value: real, code: int)
    requires c.delta > 0.0
  {
    var top := c.maxInteger as real;
    var share := if value <= min then 0.0 else if value >= min + c.delta then 1.0 else (value - min) / c.delta;
    share * top - 0.5 - 7.0 * (e * top) < code as real <= share * top + 0.5 + 7.0 * (e * top)
  }

  lemma NearestForm(e: real, c: Constants, min: real, value: real, code: int)
    requires c.delta > 0.0
    requires var exact, off := Times(Share(c, min, value), c.maxInteger as real), 7.0 * Times(e, c.maxInteger as real);
             exact - 0.5 - off < code as real <= exact + 0.5 + off
    ensures IsNearest(e, c, min, value, code)
  {
  }

  /** The code of a value is nearest to it. */
  lemma NearestCode(round: real -> real, e: real, c: Constants, min: real, value: real)
    requires Rounding(round) && ConstantsValid(c) && round(c.delta) == c.delta
    requires 0.0 <= e <= 0.125 && EncodeNear(round, e, c, min, value)
    ensures IsNearest(e, c, min, value, Quantize(round, c, min, value))
  {
    hide Rounding, EncodeNear, Quantize, IsNearest, Times, Share;
    CodeNear(round, e, c, min, value);
    NearestForm(e, c, min, value, Quantize(round, c, min, value));
  }
  /** Below the range the code is 0, and above it the largest there is, whatever rounding does to the rest. */
  lemma EndCodes(round: real -> real, c: Constants, min: real, value: real)
    requires Rounding(round) && ConstantsValid(c) && round(c.delta) == c.delta
    ensures value <= min ==> Quantize(round, c, min, value) == 0
    ensures min + c.delta <= value && round(c.maxInteger as real) == c.maxInteger as real ==>
              Quantize(round, c, min, value) == c.maxInteger
  {
    hide Rounding, Times, Normalized;
    FixedPoints(round);
    var top := c.maxInteger as real;
    TopIsPositive(round, c);
    Units(round(top));
    if value <= min {
      BelowRange(round, c, min, value);
    }
    if min + c.delta <= value && round(top) == top {
      AboveRange(round, c, min, value);
      Monotone(round, top, top + 0.5);
    }
  }

  // ---- the decode of a code ----

  /** Rounding is near at every number the decode of code rounds. */
  ghost predicate DecodeNear(round: real -> real, e: real, c: Constants, min: real, code: nat)
    requires c.maxInteger >= 1 && round(c.maxInteger as real) != 0.0
  {
    var a, top := code as real, c.maxInteger as real;
    var q := Over(round(a), round(top));
    var p := Times(round(q), c.delta);
    Near(round, e, a) && Near(round, e, top) && Near(round, e, q) && Near(round, e, p) && Near(round, e, round(p) + min)
  }

  lemma QuotientBounds(k: real, code: real, e: real)
    requires 0.0 <= e <= 0.125 && 0.0 <= k && 0.0 <= code
    requires k - Times(e, k) <= code + Times(e, code) && code - Times(e, code) <= k + Times(e, k)
    ensures code - Times(2.3 * e, code) <= k <= code + Times(2.3 * e, code)
  {
    hide Times;
    var ec := Times(e, code);
    PartScaled(2.3 * e, 2.3, e, code);
    PartOf(e, code);
    PartOf(e, ec);
    TimesCommutes(2.3 * ec, e);
    PartScaled(2.3 * ec, 2.3, ec, e);
    TimesCommutes(ec, e);
    var z, y := code + 2.3 * ec, code - 2.3 * ec;
    TimesDistributes(code, 2.3 * ec, e);
    if k > z {
      TimesDistributes(k, z, e);
      PartOf(e, k - z);
    }
    if k < y {
      TimesDistributes(y, k, e);
      PartOf(e, y - k);
    }
  }

  /** A quotient of two numbers that moved a little. */
  lemma QuotientNear(a: real, code: real, t: real, top: real, e: real)
    requires 0.0 <= e <= 0.125 && 0.0 < top && Close(a, code, e) && Close(t, top, e) && t > 0.0
    ensures Close(Over(a, t), Over(code, top), 2.3 * e)
  {
    hide Over, Times;
    var q, r := Over(a, t), Over(code, top);
    TimesOver(a, t);
    TimesOver(code, top);
    CloseNonnegative(a, code, e);
    OverPositive(code, top);
    OverPositive(a, t);
    CloseTimes(t, top, e, q);
    TimesCommutes(t, q);
    TimesCommutes(top, q);
    var k := Times(q, top);
    ProductNonnegative(q, top);
    QuotientBounds(k, code, e);
    TimesAssociates(2.3 * e, r, top);
    TimesDistributes(r, Times(2.3 * e, r), top);
    CancelTimes(q, r + Times(2.3 * e, r), top);
    CancelTimes(r - Times(2.3 * e, r), q, top);
  }

  lemma ScaledNear(round: real -> real, e: real, c: Constants, min: real, code: nat)
    requires Rounding(round) && ConstantsValid(c) && code <= c.maxInteger && round(c.maxInteger as real) != 0.0
    requires 0.0 <= e <= 0.125 && DecodeNear(round, e, c, min, code)
    ensures var a, top := code as real, c.maxInteger as real;
            Close(round(Times(round(Over(round(a), round(top))), c.delta)), Times(Over(a, top), c.delta), 5.04 * e)
  {
    hide Rounding, Over, Times, Close;
    var a, top := code as real, c.maxInteger as real;
    TopIsPositive(round, c);
    NearIsClose(round, e, a);
    NearIsClose(round, e, top);
    QuotientNear(round(a), a, round(top), top, e);
    FixedPoints(round);
    Monotone(round, 0.0, a);
    OverPositive(round(a), round(top));
    var q := Over(round(a), round(top));
    NearIsClose(round, e, q);
    PartSmall(2.3 * e, e);
    CloseCompose(round(q), q, Over(a, top), e, 2.3 * e, 3.59 * e);
    CloseTimes(round(q), Over(a, top), 3.59 * e, c.delta);
    Monotone(round, 0.0, q);
    var p := Times(round(q), c.delta);
    ProductNonnegative(round(q), c.delta);
    NearIsClose(round, e, p);
    PartSmall(3.59 * e, e);
    CloseCompose(round(p), p, Times(Over(a, top), c.delta), e, 3.59 * e, 5.04 * e);
  }

  lemma ShareOfCode(code: nat, c: Constants)
    requires 1 <= c.maxInteger && code <= c.maxInteger
    ensures 0.0 <= Over(code as real, c.maxInteger as real) <= 1.0
  {
    Units(c.maxInteger as real);
    OverMonotone(0.0, code as real, c.maxInteger as real);
    OverMonotone(code as real, c.maxInteger as real, c.maxInteger as real);
  }

  lemma NearTimes(round: real -> real, e: real, x: real)
    requires Near(round, e, x)
    ensures -Times(e, Abs(x)) <= round(x) - x <= Times(e, Abs(x))
  {
  }

  lemma PlaceError(round: real -> real, p: real, exact: real, e: real, delta: real, min: real)
    requires 0.0 <= e <= 0.125 && 0.0 <= exact <= delta && 0.0 <= p && Near(round, e, p + min)
    requires p - exact <= Times(5.04 * e, exact) && exact - p <= Times(5.04 * e, exact)
    ensures var off := 7.0 * Times(e, delta + Abs(min));
            exact + min - off <= round(p + min) <= exact + min + off
  {
    NearTimes(round, e, p + min);
    hide Times, Near;
    PartScaled(5.04 * e, 5.04, e, exact);
    PartOf(e, exact);
    MorePart(e, exact, delta);
    MorePart(e, Abs(p + min), 1.63 * delta + Abs(min));
    TimesDistributes(1.63 * delta, Abs(min), e);
    TimesDistributes(delta, Abs(min), e);
    PartScaled(1.63 * delta, 1.63, delta, e);
    PartOf(e, Abs(min));
    PartOf(e, delta);
  }

  lemma PlaceNear(round: real -> real, e: real, c: Constants, min: real, code: nat)
    requires Rounding(round) && ConstantsValid(c) && code <= c.maxInteger && round(c.maxInteger as real) != 0.0
    requires 0.0 <= e <= 0.125 && DecodeNear(round, e, c, min, code)
    ensures var exact := min + Times(Over(code as real, c.maxInteger as real), c.delta);
            var off := 7.0 * Times(e, c.delta + Abs(min));
            exact - off <= Decode(round, c, min, code) <= exact + off
  {
    hide Rounding, Over, Times, Close;
    var a, top := code as real, c.maxInteger as real;
    ScaledNear(round, e, c, min, code);
    ShareOfCode(code, c);
    var exact := Times(Over(a, top), c.delta);
    TimesMonotone(Over(a, top), 1.0, c.delta);
    ProductNonnegative(Over(a, top), c.delta);
    Units(c.delta);
    var p := round(Times(round(Over(round(a), round(top))), c.delta));
    CloseNonnegative(p, exact, 5.04 * e);
    PlaceError(round, p, exact, e, c.delta, min);
  }

  /** y is the code's place in the range, but for the part 7 e of the range and its lower bound. */
  predicate IsPlace(e: real, c: Constants, min: real, code: nat, y: real)
    requires c.maxInteger >= 1
  {
    var exact := min + code as real / c.maxInteger as real * c.delta;
    var off := 7.0 * (e * (c.delta + Abs(min)));
    exact - off <= y <= exact + off
  }

  lemma PlaceForm(e: real, c: Constants, min: real, code: nat, y: real)
    requires c.maxInteger >= 1
    requires var exact := min + Times(Over(code as real, c.maxInteger as real), c.delta);
             var off := 7.0 * Times(e, c.delta + Abs(min));
             exact - off <= y <= exact + off
    ensures IsPlace(e, c, min, code, y)
  {
  }

  /** The decode of a code is its place. */
  lemma DecodeIsPlace(round: real -> real, e: real, c: Constants, min: real, code: nat)
    requires Rounding(round) && ConstantsValid(c) && code <= c.maxInteger && round(c.maxInteger as real) != 0.0
    requires 0.0 <= e <= 0.125 && DecodeNear(round, e, c, min, code)
    ensures IsPlace(e, c, min, code, Decode(round, c, min, code))
  {
    hide Rounding, DecodeNear, Decode, IsPlace, Times, Over;
    PlaceNear(round, e, c, min, code);
    PlaceForm(e, c, min, code, Decode(round, c, min, code));
  }
  lemma SharePlace(c: Constants, min: real, y: real)
    requires c.delta > 0.0
    ensures Times(Share(c, min, y), c.delta)
         == if y <= min then 0.0 else if y >= min + c.delta then c.delta else y - min
  {
    Units(c.delta);
    if min < y < min + c.delta {
      TimesOver(y - min, c.delta);
    }
  }

  lemma Halves(x: real, et: real, delta: real, spread: real)
    requires 0.0 < delta && 28.0 * spread < delta && Times(et, delta) <= spread
    requires -7.0 * spread <= Times(x, delta) <= 7.0 * spread
    ensures -0.5 < x - 7.0 * et && x + 7.0 * et < 0.5
  {
    hide Times;
    TimesDistributes(x, 7.0 * et, delta);
    PartScaled(7.0 * et, 7.0, et, delta);
    PartScaled(0.5, 0.5, 1.0, delta);
    PartScaled(-0.5, -0.5, 1.0, delta);
    Units(delta);
    if x + 7.0 * et >= 0.5 {
      TimesMonotone(0.5, x + 7.0 * et, delta);
    }
    if x - 7.0 * et <= -0.5 {
      TimesMonotone(x - 7.0 * et, -0.5, delta);
    }
  }

  lemma SharesScaled(share: real, r: real, code: real, e: real, delta: real, m: real, top: real)
    requires 0.0 <= e && 0.0 < delta && 0.0 <= m && 1.0 <= top && Times(r, top) == code
    requires 28.0 * Times(Times(e, top), delta + m) < delta
    requires var off := 7.0 * Times(e, delta + m); -off <= Times(share, delta) - Times(r, delta) <= off
    ensures var d, off := Times(share, top) - code, 7.0 * Times(e, top); -0.5 < d - off && d + off < 0.5
  {
    hide Times;
    var d, et, w := share - r, Times(e, top), delta + m;
    TimesDistributes(share, r, delta);
    TimesDistributes(share, r, top);
    ProductNonnegative(e, top);
    TimesDistributes(delta, m, et);
    ProductNonnegative(et, m);
    var spread := Times(et, w);
    TimesAssociates(e, top, w);
    TimesCommutes(top, w);
    TimesAssociates(e, w, top);
    PartScaled(7.0 * Times(e, w), 7.0, Times(e, w), top);
    PartScaled(-7.0 * Times(e, w), -7.0, Times(e, w), top);
    TimesMonotone(Times(d, delta), 7.0 * Times(e, w), top);
    TimesMonotone(-7.0 * Times(e, w), Times(d, delta), top);
    TimesAssociates(d, delta, top);
    TimesCommutes(delta, top);
    TimesAssociates(d, top, delta);
    Halves(Times(d, top), et, delta, spread);
  }

  lemma SharesClose(c: Constants, y: real, code: nat, e: real, min: real, m: real)
    requires ConstantsValid(c) && code <= c.maxInteger && 0.0 <= e && 0.0 <= m
    requires 28.0 * Times(Times(e, c.maxInteger as real), c.delta + m) < c.delta
    requires var exact := min + Times(Over(code as real, c.maxInteger as real), c.delta);
             var off := 7.0 * Times(e, c.delta + m);
             exact - off <= y <= exact + off
    ensures var d := Times(Share(c, min, y), c.maxInteger as real) - code as real;
            var off := 7.0 * Times(e, c.maxInteger as real);
            -0.5 < d - off && d + off < 0.5
  {
    hide Times, Over;
    var top, share, r := c.maxInteger as real, Share(c, min, y), Over(code as real, c.maxInteger as real);
    ShareOfCode(code, c);
    TimesOver(code as real, top);
    TimesMonotone(0.0, r, c.delta);
    TimesMonotone(r, 1.0, c.delta);
    Units(c.delta);
    SharePlace(c, min, y);
    SharesScaled(share, r, code as real, e, c.delta, m, top);
  }

  /**
   A code survives being read and written again: its decode is quantized to it, whenever the steps between the codes
   are wide beside what rounding can move. Where every step is exact there is no condition.
   */
  lemma CodesAreStable(round: real -> real, e: real, c: Constants, min: real, code: nat)
    requires Rounding(round) && ConstantsValid(c) && code <= c.maxInteger && round(c.maxInteger as real) != 0.0
    requires round(c.delta) == c.delta && 0.0 <= e <= 0.125
    requires 28.0 * (e * c.maxInteger as real * (c.delta + Abs(min))) < c.delta
    requires DecodeNear(round, e, c, min, code) && EncodeNear(round, e, c, min, Decode(round, c, min, code))
    ensures Quantize(round, c, min, Decode(round, c, min, code)) == code
  {
    hide Rounding, Decode, Quantize, DecodeNear, EncodeNear, Share, Times, Over;
    TimesOfThree(e, c.maxInteger as real, c.delta + Abs(min));
    var y, top := Decode(round, c, min, code), c.maxInteger as real;
    PlaceNear(round, e, c, min, code);
    CodeNear(round, e, c, min, y);
    SharesClose(c, y, code, e, min, Abs(min));
  }

  lemma HalfAndSeven(et: real, delta: real)
    ensures Times(0.5 + 7.0 * et, delta) == 0.5 * delta + 7.0 * Times(et, delta)
    ensures Times(-0.5 - 7.0 * et, delta) == -0.5 * delta - 7.0 * Times(et, delta)
  {
  }

  lemma PlaceByCode(share: real, r: real, code: real, delta: real, top: real)
    requires Times(r, top) == code
    ensures Times(Times(r, delta), top) - Times(Times(share, delta), top) == Times(code - Times(share, top), delta)
  {
    hide Times;
    TimesAssociates(r, delta, top);
    TimesAssociates(share, delta, top);
    TimesCommutes(delta, top);
    TimesAssociates(r, top, delta);
    TimesAssociates(share, top, delta);
    TimesDistributes(code, Times(share, top), delta);
  }

  lemma QuantumScaled(x: real, share: real, r: real, code: real, e: real, delta: real, m: real, top: real)
    requires 0.0 <= e && 0.0 < delta && 0.0 <= m && 1.0 <= top && Times(r, top) == code
    requires var off := 7.0 * Times(e, delta + m); -off <= x - Times(r, delta) <= off
    requires var off := 0.5 + 7.0 * Times(e, top); -off <= code - Times(share, top) <= off
    ensures var bound := delta + 28.0 * Times(Times(e, top), delta + m);
            -bound <= 2.0 * Times(x - Times(share, delta), top) <= bound
  {
    hide Times;
    var et, w := Times(e, top), delta + m;
    var spread, d := Times(et, w), x - Times(r, delta);
    TimesAssociates(e, top, w);
    TimesCommutes(top, w);
    TimesAssociates(e, w, top);
    PartScaled(7.0 * Times(e, w), 7.0, Times(e, w), top);
    PartScaled(-7.0 * Times(e, w), -7.0, Times(e, w), top);
    TimesMonotone(d, 7.0 * Times(e, w), top);
    TimesMonotone(-7.0 * Times(e, w), d, top);
    assert -7.0 * spread <= Times(d, top) <= 7.0 * spread;
    var k := code - Times(share, top);
    TimesMonotone(k, 0.5 + 7.0 * et, delta);
    TimesMonotone(-0.5 - 7.0 * et, k, delta);
    HalfAndSeven(et, delta);
    ProductNonnegative(e, top);
    TimesDistributes(delta, m, et);
    ProductNonnegative(et, m);
    PlaceByCode(share, r, code, delta, top);
    TimesDistributes(x, Times(r, delta), top);
    TimesDistributes(x, Times(share, delta), top);
  }

  lemma AsProduct(a: real, b: real)
    ensures Times(a, b) == a * b
  {
  }

  /**
   y is within half a quantum of value, but for what rounding may add: twice the largest code times the distance is at
   most the range, and the part 28 e of the codes of range and lower bound.
   */
  predicate WithinQuantum(e: real, c: Constants, min: real, value: real, y: real) {
    var top := c.maxInteger as real;
    var bound := c.delta + 28.0 * (e * top * (c.delta + Abs(min)));
    -bound <= 2.0 * ((y - value) * top) <= bound
  }

  lemma QuantumForm(e: real, c: Constants, min: real, value: real, y: real)
    requires var top := c.maxInteger as real;
             var bound := c.delta + 28.0 * Times(Times(e, top), c.delta + Abs(min));
             -bound <= 2.0 * Times(y - value, top) <= bound
    ensures WithinQuantum(e, c, min, value, y)
  {
  }

  /** A round trip returns a value within half a quantum of the original, but for what rounding may add. */
  lemma NearestQuantum(round: real -> real, e: real, c: Constants, min: real, value: real)
    requires Rounding(round) && ConstantsValid(c) && round(c.maxInteger as real) != 0.0 && round(c.delta) == c.delta
    requires 0.0 <= e <= 0.125 && min <= value <= min + c.delta && EncodeNear(round, e, c, min, value)
    requires 0 <= Quantize(round, c, min, value) <= c.maxInteger
    requires DecodeNear(round, e, c, min, Quantize(round, c, min, value))
    ensures WithinQuantum(e, c, min, value, Decode(round, c, min, Quantize(round, c, min, value)))
  {
    hide Rounding, Decode, Quantize, DecodeNear, EncodeNear, Share, Times, Over, WithinQuantum;
    var code, top := Quantize(round, c, min, value), c.maxInteger as real;
    var y := Decode(round, c, min, code);
    PlaceNear(round, e, c, min, code);
    CodeNear(round, e, c, min, value);
    TimesOver(code as real, top);
    SharePlace(c, min, value);
    QuantumScaled(y - min, Share(c, min, value), Over(code as real, top), code as real, e, c.delta, Abs(min), top);
    assert y - min - (value - min) == y - value;
    QuantumForm(e, c, min, value, y);
  }
}
