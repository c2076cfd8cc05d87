/**
 The arithmetic of compressed floats, over any rounding: the wire constants of a declaration, the writer's quantization
 and the reader's decode. A value is the real number it denotes, finite when its magnitude is at most MAX_FINITE.
 */
module Quantizations {
  import opened Bits
  import opened Words
  import opened Params
  import opened Roundings

  datatype Constants = Constants(maxInteger: uint32, bits: nat, delta: real)

  predicate Derivable(min: real, max: real, resolution: real) {
    min < max && resolution > 0.0
  }

  function Over(x: real, d: real): real
    requires d != 0.0
  {
    x / d
  }

  /** The wire constants of a declaration; a width that is not finite gives a ratio that is not either. */
  function CompressedFloatParams(round: real -> real, min: real, max: real, resolution: real): Constants
    requires Derivable(min, max, resolution)
  {
    var delta := round(max - min);
    var values := round(Over(delta, resolution));
    var clamped := if IsFinite(delta) && !(values >= 1.0) then 1.0
                   else if !IsFinite(delta) || values > MAX_INTEGER as real then MAX_INTEGER as real else values;
    var maxInteger := Ceil(clamped);
    Constants(maxInteger, BitsRequired(0, maxInteger), delta)
  }

  /** A code count and its width agree: what every derivation gives, finite or not. */
  predicate WidthValid(c: Constants) {
    1 <= c.maxInteger <= MAX_INTEGER && c.bits == BitsRequired(0, c.maxInteger)
  }

  /** What every derived set of constants satisfies, and what the precomputed entry point checks. */
  predicate ConstantsValid(c: Constants) {
    WidthValid(c) && c.delta > 0.0 && IsFinite(c.delta)
  }

  /** Derived constants pass the precomputed check exactly when the range's width rounds to a positive finite value. */
  lemma DerivedConstantsValid(round: real -> real, min: real, max: real, resolution: real)
    requires Derivable(min, max, resolution)
    ensures WidthValid(CompressedFloatParams(round, min, max, resolution))
    ensures ConstantsValid(CompressedFloatParams(round, min, max, resolution))
       <==> 0.0 < round(max - min) <= MAX_FINITE
  {
  }

  /** Over representable bounds the width is positive, so only its overflow makes derived constants fail the check. */
  lemma FiniteWidthIsValid(round: real -> real, min: real, max: real, resolution: real)
    requires Rounding(round) && Derivable(min, max, resolution) && round(min) == min && round(max) == max
    ensures ConstantsValid(CompressedFloatParams(round, min, max, resolution)) <==> IsFinite(round(max - min))
  {
    DerivedConstantsValid(round, min, max, resolution);
  }

  // ---- the write side ----

  function Clamp01(x: real): real {
    if !(x >= 0.0) then 0.0 else if !(x <= 1.0) then 1.0 else x
  }

  /** The value's place in the range, as a rounded ratio clamped to [0, 1]. */
  function Normalized(round: real -> real, c: Constants, min: real, value: real): real
    requires c.delta > 0.0
  {
    Clamp01(round(Over(round(value - min), c.delta)))
  }

  function Times(x: real, d: real): real { x * d }

  /** The rounded sum whose floor is the code, before the integer clamp. */
  function RoundedSum(round: real -> real, c: Constants, normalized: real): real {
    round(round(Times(normalized, round(c.maxInteger as real))) + 0.5)
  }

  /** The writer's quantization of a finite value, each float operation rounded once, the code clamped last. */
  function Quantize(round: real -> real, c: Constants, min: real, value: real): int
    requires c.delta > 0.0
  {
    var integer := RoundedSum(round, c, Normalized(round, c, min, value)).Floor;
    if integer > c.maxInteger then c.maxInteger else integer
  }

  // exact real product and quotient, named so that proofs need not search through them

  lemma OverMonotone(x: real, y: real, d: real)
    requires x <= y && d > 0.0
    ensures Over(x, d) <= Over(y, d)
  {
  }

  lemma TimesMonotone(x: real, y: real, d: real)
    requires x <= y && d >= 0.0
    ensures Times(x, d) <= Times(y, d)
  {
  }

  lemma Units(d: real)
    requires d != 0.0
    ensures Times(0.0, d) == 0.0 && Times(1.0, d) == d && Over(0.0, d) == 0.0 && Over(d, d) == 1.0
  {
  }

  lemma NormalizedBounds(round: real -> real, c: Constants, min: real, value: real)
    requires c.delta > 0.0
    ensures 0.0 <= Normalized(round, c, min, value) <= 1.0
  {
  }

  lemma TopIsPositive(round: real -> real, c: Constants)
    requires Rounding(round) && WidthValid(c)
    ensures 1.0 <= round(c.maxInteger as real) <= MAX_INTEGER as real
  {
  }

  lemma SumMonotone(round: real -> real, c: Constants, a: real, b: real)
    requires Rounding(round) && ConstantsValid(c) && a <= b
    ensures RoundedSum(round, c, a) <= RoundedSum(round, c, b)
  {
    hide Rounding, Times;
    TopIsPositive(round, c);
    var top := round(c.maxInteger as real);
    TimesMonotone(a, b, top);
    Monotone(round, Times(a, top), Times(b, top));
    Monotone(round, round(Times(a, top)) + 0.5, round(Times(b, top)) + 0.5);
  }

  lemma SumEnds(round: real -> real, c: Constants)
    requires Rounding(round) && ConstantsValid(c)
    ensures 0.0 <= RoundedSum(round, c, 0.0) && RoundedSum(round, c, 1.0) < 4294967296.0
  {
  }

  lemma WidthIsLength(n: uint32)
    ensures BitsRequired(0, n) == BitLen(n)
  {
    hide BitLen;
    DivModUnique(n, TWO32, 0, n);
    NoBits();
  }

  lemma Ranged32Width(n: uint32)
    requires n >= 1
    ensures n < Pow2(BitsRequired(0, n)) && 1 <= BitsRequired(0, n) == BitLen(n) <= 32
  {
    assert Pow2(32) == TWO32 && Pow2(0) == 1 by { Pow2Widths(); }
    hide BitLen, Pow2, BitsRequired;
    WidthIsLength(n);
    BitLenLeast(n, BitLen(n));
    BitLenLeast(n, 32);
    BitLenLeast(n, 0);
  }

  lemma RatioBounds(delta: real, resolution: real, n: real)
    requires resolution > 0.0
    ensures Over(delta, resolution) <= n <==> delta <= n * resolution
  {
  }

  /**
   Where rounding leaves the ratio alone and no clamp applies, the largest code is the least number of steps of the
   resolution that cover the range.
   */
  lemma CountIsLeast(round: real -> real, min: real, max: real, resolution: real, n: nat)
    requires Derivable(min, max, resolution) && IsFinite(round(max - min)) && n >= 1
    requires var ratio := round(max - min) / resolution; round(ratio) == ratio && 1.0 <= ratio <= 4294967040.0
    ensures var c := CompressedFloatParams(round, min, max, resolution);
            c.delta == round(max - min) && (c.delta <= n as real * resolution <==> c.maxInteger <= n)
  {
    hide BitsRequired;
    RatioBounds(round(max - min), resolution, n as real);
  }

  /** The ends of the count: one step for a range of at most one, and the largest code for every count past it. */
  lemma CountEnds(round: real -> real, min: real, max: real, resolution: real)
    requires Rounding(round) && Derivable(min, max, resolution)
    ensures var c, delta := CompressedFloatParams(round, min, max, resolution), round(max - min);
            && c.delta == delta
            && (IsFinite(delta) && delta <= resolution ==> c.maxInteger == 1)
            && (!IsFinite(delta) || delta > 4294967040.0 * resolution ==> c.maxInteger == 4294967040)
  {
    hide BitsRequired, Rounding, Over;
    FixedPoints(round);
    var delta := round(max - min);
    var ratio := Over(delta, resolution);
    RatioBounds(delta, resolution, 1.0);
    RatioBounds(delta, resolution, MAX_INTEGER as real);
    if ratio <= 1.0 {
      Monotone(round, ratio, 1.0);
    }
    if ratio > MAX_INTEGER as real {
      Monotone(round, MAX_INTEGER as real, ratio);
    }
  }

  lemma CountWidth(c: Constants)
    requires WidthValid(c)
    ensures c.bits >= 1 && Pow2(c.bits - 1) <= c.maxInteger < Pow2(c.bits)
  {
    hide Pow2, BitsRequired, BitLen;
    Ranged32Width(c.maxInteger);
    BitLenLeast(c.maxInteger, c.bits - 1);
  }

  /** The count is the rounded ratio's ceiling where no clamp applies, and its width the least that holds it. */
  lemma CountOfRatio(round: real -> real, min: real, max: real, resolution: real)
    requires Derivable(min, max, resolution)
    ensures var c, values := CompressedFloatParams(round, min, max, resolution), round(round(max - min) / resolution);
            && (IsFinite(c.delta) && 1.0 <= values <= 4294967040.0 ==>
                  c.maxInteger as real - 1.0 < values <= c.maxInteger as real)
            && c.bits >= 1 && Pow2(c.bits - 1) <= c.maxInteger < Pow2(c.bits)
  {
    DerivedConstantsValid(round, min, max, resolution);
    CountWidth(CompressedFloatParams(round, min, max, resolution));
    hide BitsRequired, Pow2;
  }

  /** What the precomputed entry point accepts: a count in its range, the least width that holds it, and a delta. */
  lemma ConstantsChecked(c: Constants)
    ensures ConstantsValid(c) <==>
              && 1 <= c.maxInteger <= 4294967040 && c.bits >= 1 && Pow2(c.bits - 1) <= c.maxInteger < Pow2(c.bits)
              && 0.0 < c.delta <= 340282346638528859811704183484516925440.0
  {
    hide Pow2, BitsRequired, BitLen;
    if c.maxInteger >= 1 {
      Ranged32Width(c.maxInteger);
      BitLenLeast(c.maxInteger, c.bits);
      if c.bits >= 1 {
        BitLenLeast(c.maxInteger, c.bits - 1);
      }
    }
  }

  /** Derived binary32 constants are binary32 values, the largest code and the width alike. */
  lemma DerivedAreBinary32(min: real, max: real, resolution: real)
    requires Derivable(min, max, resolution)
    ensures var c := CompressedFloatParams(Binary32, min, max, resolution);
            Binary32(c.maxInteger as real) == c.maxInteger as real && Binary32(c.delta) == c.delta
  {
    hide Binary32, BitsRequired, Ceil, Rounding;
    Binary32IsRounding();
    FixedPoints(Binary32);
    Idempotent(Binary32, max - min);
    var delta := Binary32(max - min);
    var values := Binary32(Over(delta, resolution));
    Idempotent(Binary32, Over(delta, resolution));
    var clamped := if IsFinite(delta) && !(values >= 1.0) then 1.0
                   else if !IsFinite(delta) || values > MAX_INTEGER as real then MAX_INTEGER as real else values;
    CeilingFixed(clamped);
  }

  /** The code is in range before its conversion to uint32 and after the clamp, and it fits the field's width. */
  lemma CodeFits(round: real -> real, c: Constants, min: real, value: real)
    requires Rounding(round) && ConstantsValid(c)
    ensures 0 <= Quantize(round, c, min, value) <= c.maxInteger
    ensures Quantize(round, c, min, value) < Pow2(c.bits) && c.bits <= 32
    ensures 0 <= RoundedSum(round, c, Normalized(round, c, min, value)).Floor < TWO32
  {
    hide Rounding, Normalized, Pow2, BitsRequired;
    var n := Normalized(round, c, min, value);
    NormalizedBounds(round, c, min, value);
    SumMonotone(round, c, 0.0, n);
    SumMonotone(round, c, n, 1.0);
    SumEnds(round, c);
    Ranged32Width(c.maxInteger);
  }

  /** A larger value never gets a smaller code. */
  lemma QuantizeMonotone(round: real -> real, c: Constants, min: real, v: real, w: real)
    requires Rounding(round) && ConstantsValid(c) && v <= w
    ensures Quantize(round, c, min, v) <= Quantize(round, c, min, w)
  {
    hide Rounding, RoundedSum, Over;
    Monotone(round, v - min, w - min);
    OverMonotone(round(v - min), round(w - min), c.delta);
    Monotone(round, Over(round(v - min), c.delta), Over(round(w - min), c.delta));
    SumMonotone(round, c, Normalized(round, c, min, v), Normalized(round, c, min, w));
  }

  // ---- the read side ----

  /** The decode of a code: the ratio, the product and the sum, each rounded once. */
  function Decode(round: real -> real, c: Constants, min: real, code: nat): real
    requires c.maxInteger >= 1 && round(c.maxInteger as real) != 0.0
  {
    round(round(Times(round(Over(round(code as real), round(c.maxInteger as real))), c.delta)) + min)
  }

  datatype Decoded = Accepted(x: real) | OutOfRange | NonFinite

  /** What a read stream does with a code; no product with a width that is not finite decodes to a finite value. */
  function Accept(round: real -> real, c: Constants, min: real, code: nat): Decoded
    requires c.maxInteger >= 1 && round(c.maxInteger as real) != 0.0
  {
    if code > c.maxInteger then OutOfRange
    else if !IsFinite(c.delta) then NonFinite
    else
      var x := Decode(round, c, min, code);
      if IsFinite(x) then Accepted(x) else NonFinite
  }

  lemma DecodeMonotone(round: real -> real, c: Constants, min: real, i: nat, j: nat)
    requires Rounding(round) && ConstantsValid(c) && round(c.maxInteger as real) != 0.0
    requires i <= j
    ensures Decode(round, c, min, i) <= Decode(round, c, min, j)
  {
    hide Rounding, Times, Over;
    TopIsPositive(round, c);
    var top := round(c.maxInteger as real);
    Monotone(round, i as real, j as real);
    var a, b := round(i as real), round(j as real);
    OverMonotone(a, b, top);
    Monotone(round, Over(a, top), Over(b, top));
    var p, q := round(Over(a, top)), round(Over(b, top));
    TimesMonotone(p, q, c.delta);
    Monotone(round, Times(p, c.delta), Times(q, c.delta));
    Monotone(round, round(Times(p, c.delta)) + min, round(Times(q, c.delta)) + min);
  }

  /** The ends of the decode: the least code is the lower bound, the greatest is lower bound plus width, rounded. */
  lemma DecodeEnds(round: real -> real, c: Constants, min: real)
    requires Rounding(round) && ConstantsValid(c) && round(c.maxInteger as real) != 0.0
    requires round(min) == min && round(c.delta) == c.delta
    ensures Decode(round, c, min, 0) == min
    ensures Decode(round, c, min, c.maxInteger) == round(c.delta + min)
  {
    hide Rounding, Times, Over;
    FixedPoints(round);
    Units(round(c.maxInteger as real));
    Units(c.delta);
  }

  /** Every accepted decode lies between the lower bound and lower bound plus width, rounded. */
  lemma AcceptedDecodeBounded(round: real -> real, c: Constants, min: real, code: nat)
    requires Rounding(round) && ConstantsValid(c) && round(c.maxInteger as real) != 0.0
    requires round(min) == min && round(c.delta) == c.delta
    ensures var d := Accept(round, c, min, code);
            d.Accepted? ==> code <= c.maxInteger && min <= d.x <= round(c.delta + min)
  {
    hide Rounding, Decode, Quantize;
    DecodeEnds(round, c, min);
    if code <= c.maxInteger {
      DecodeMonotone(round, c, min, 0, code);
      DecodeMonotone(round, c, min, code, c.maxInteger);
    }
  }

  /** With a finite lower bound, no code in range is refused as non-finite exactly when the top decode is finite. */
  lemma FiniteTopSuffices(round: real -> real, c: Constants, min: real)
    requires Rounding(round) && ConstantsValid(c) && round(c.maxInteger as real) != 0.0
    requires round(min) == min && round(c.delta) == c.delta && IsFinite(min)
    ensures IsFinite(round(c.delta + min))
       <==> forall code: nat :: code <= c.maxInteger ==> !Accept(round, c, min, code).NonFinite?
  {
    hide Rounding, Decode, Quantize;
    DecodeEnds(round, c, min);
    forall code: nat | code <= c.maxInteger
      ensures min <= Decode(round, c, min, code) <= round(c.delta + min)
    {
      DecodeMonotone(round, c, min, 0, code);
      DecodeMonotone(round, c, min, code, c.maxInteger);
    }
    assert IsFinite(round(c.delta + min)) <==> !Accept(round, c, min, c.maxInteger).NonFinite?;
  }

  /** A code a writer emits, under a finite top decode, is one every reader accepts. */
  lemma WrittenCodesAreAccepted(round: real -> real, c: Constants, min: real, value: real)
    requires Rounding(round) && ConstantsValid(c) && round(c.maxInteger as real) != 0.0
    requires round(min) == min && round(c.delta) == c.delta && IsFinite(min) && IsFinite(round(c.delta + min))
    ensures Quantize(round, c, min, value) >= 0
    ensures Accept(round, c, min, Quantize(round, c, min, value)).Accepted?
  {
    hide Rounding, Decode, Quantize;
    CodeFits(round, c, min, value);
    FiniteTopSuffices(round, c, min);
  }

  // ---- codes no writer emits ----

  /** k is the floor of a value rounding leaves alone. */
  ghost predicate FloorOfFixed(round: real -> real, k: int) {
    exists x: real :: round(x) == x && x.Floor == k
  }

  /** The codes a writer emits are floors of representable values, and the largest code. */
  lemma QuantizeGives(round: real -> real, c: Constants, min: real, value: real)
    requires Rounding(round) && ConstantsValid(c)
    ensures var code := Quantize(round, c, min, value);
            code == c.maxInteger || FloorOfFixed(round, code)
  {
    hide Normalized, Times;
    var sum := RoundedSum(round, c, Normalized(round, c, min, value));
    assert round(sum) == sum;
  }

  /** Two codes that round to one float decode alike, so a reader that takes one takes both. */
  lemma TwinCodes(round: real -> real, c: Constants, min: real, i: nat, j: nat)
    requires WidthValid(c) && round(c.maxInteger as real) != 0.0
    requires i <= c.maxInteger && j <= c.maxInteger && round(i as real) == round(j as real)
    ensures Accept(round, c, min, i) == Accept(round, c, min, j)
  {
    hide Times, Over;
  }

  /** A writer's binary32 codes are themselves binary32 values, the largest code apart. */
  lemma WrittenCodesAreBinary32(c: Constants, min: real, value: real)
    requires ConstantsValid(c)
    ensures var code := Quantize(Binary32, c, min, value);
            code == c.maxInteger || Binary32(code as real) == code as real
  {
    hide Quantize, Binary32, Rounding;
    Binary32IsRounding();
    QuantizeGives(Binary32, c, min, value);
    CodeFits(Binary32, c, min, value);
    var code := Quantize(Binary32, c, min, value);
    if code != c.maxInteger {
      var x: real :| Binary32(x) == x && x.Floor == code;
      FloorFixed(x);
    }
  }

  /** A code of 2^24 + 1 out of 2^25, which a reader accepts and no writer emits for any value. */
  lemma UnwrittenCodeAccepted()
    ensures var c := Constants(33554432, BitsRequired(0, 33554432), 1.0);
            && ConstantsValid(c) && Binary32(c.maxInteger as real) != 0.0
            && Accept(Binary32, c, 0.0, 16777217).Accepted?
            && forall value: real :: Quantize(Binary32, c, 0.0, value) != 16777217
  {
    hide BitsRequired, Binary32, Rounding, Quantize, Decode;
    Binary32IsRounding();
    FixedPoints(Binary32);
    PastSmallIntegers();
    var c := Constants(33554432, BitsRequired(0, 33554432), 1.0);
    assert 1.0 + 0.0 == 1.0;
    FiniteTopSuffices(Binary32, c, 0.0);
    assert !Accept(Binary32, c, 0.0, 16777217).NonFinite?;
    forall value: real ensures Quantize(Binary32, c, 0.0, value) != 16777217 {
      WrittenCodesAreBinary32(c, 0.0, value);
    }
  }
}
