/** Field widths and wire parameters, as the streams derive them from a declaration. */
module Params {
  import opened Bits
  import opened Words
  import opened Int128s
  import opened Wire

  function BitsRequired(min: uint32, max: uint32): nat {
    if min == max then 0 else BitLen(Wrap32(max - min))
  }

  function BitsRequired64(min: uint64, max: uint64): nat {
    if min == max then 0 else BitLen(Wrap64(max - min))
  }

  function BitsRequired128(min: Uint128, max: Uint128): nat {
    if min == max then 0 else max.Sub(min).Len()
  }

  // ---- a value inside a window of one modulus ----

  /** Inside one window of m consecutive integers, reducing a difference loses nothing. */
  lemma WindowedTest(x: int, low: int, span: nat, m: nat, w: int)
    requires w <= low && low + span < w + m && w <= x < w + m
    ensures (x - low) % m <= span <==> low <= x <= low + span
    ensures low <= x ==> (x - low) % m == x - low
  {
    if low <= x {
      DivModUnique(x - low, m, 0, x - low);
    } else {
      DivModUnique(x - low, m, -1, x - low + m);
    }
  }

  /** Differences taken modulo m of wrapped operands are exact within a range narrower than m. */
  lemma RangedModular(min: int, max: int, v: int, m: nat)
    requires min <= v <= max < min + m
    ensures (max % m - min % m) % m == max - min
    ensures (v % m - min % m) % m == v - min
    ensures (v - min + min % m) % m == v % m
  {
    ModDifference(max, min, m);
    ModDifference(v, min, m);
    ModSum(min, v - min, m);
    DivModUnique(max - min, m, 0, max - min);
    DivModUnique(v - min, m, 0, v - min);
  }

  lemma NoBits()
    ensures BitLen(0) == 0
  {
  }

  /** The unsigned arithmetic of a 32-bit ranged field is exact, however wide the range. */
  lemma Ranged32(min: int32, max: int32, v: int32)
    requires min <= v <= max
    ensures BitsRequired(Wrap32(min), Wrap32(max)) == BitLen(max - min)
    ensures Wrap32(Wrap32(max) - Wrap32(min)) == max - min
    ensures Wrap32(Wrap32(v) - Wrap32(min)) == v - min
    ensures Signed32(Wrap32(v - min + Wrap32(min))) == v
  {
    hide BitLen;
    RangedModular(min, max, v, TWO32);
    WrapRoundTrips32(v);
    NoBits();
  }

  lemma Ranged64(min: int64, max: int64, v: int64)
    requires min <= v <= max
    ensures BitsRequired64(Wrap64(min), Wrap64(max)) == BitLen(max - min)
    ensures Wrap64(Wrap64(max) - Wrap64(min)) == max - min
    ensures Wrap64(Wrap64(v) - Wrap64(min)) == v - min
    ensures Signed64(Wrap64(v - min + Wrap64(min))) == v
  {
    hide BitLen;
    RangedModular(min, max, v, TWO64);
    WrapRoundTrips(v);
    NoBits();
  }

  lemma DifferenceOfLanes(x: Int128, y: Int128)
    requires y.Val() <= x.Val()
    ensures x.ToUint128().Sub(y.ToUint128()).Val() == x.Val() - y.Val()
  {
    hide Uint128.Sub, Int128.Val, Uint128.Val;
    Reinterpreted(x);
    Reinterpreted(y);
    SubVal(x.ToUint128(), y.ToUint128());
    ModDifference(x.Val(), y.Val(), TWO128);
    DivModUnique(x.Val() - y.Val(), TWO128, 0, x.Val() - y.Val());
  }

  lemma Ranged128(min: Int128, max: Int128, v: Int128)
    requires min.Val() <= v.Val() <= max.Val()
    ensures BitsRequired128(min.ToUint128(), max.ToUint128()) == BitLen(max.Val() - min.Val())
    ensures max.ToUint128().Sub(min.ToUint128()).Val() == max.Val() - min.Val()
    ensures v.ToUint128().Sub(min.ToUint128()).Val() == v.Val() - min.Val()
  {
    hide Uint128.Sub, Uint128.Len, Int128.Val, Uint128.Val;
    DifferenceOfLanes(max, min);
    DifferenceOfLanes(v, min);
    LenVal(max.ToUint128().Sub(min.ToUint128()));
    if min.ToUint128() == max.ToUint128() {
      Reinterpreted(min);
      Reinterpreted(max);
    }
  }

  /** Adding an accepted offset back to the lower bound gives the value the field stands for. */
  lemma Rebuilt128(min: Int128, offset: Uint128)
    requires min.Val() + offset.Val() < TWO127
    ensures offset.Add(min.ToUint128()).ToInt128().Val() == min.Val() + offset.Val()
    ensures min.ToUint128().Add(offset).ToInt128().Val() == min.Val() + offset.Val()
  {
    hide Uint128.Add, Int128.Val, Uint128.Val;
    var n := min.Val() + offset.Val();
    Reinterpreted(min);
    AddVal(offset, min.ToUint128());
    AddVal(min.ToUint128(), offset);
    ModSum(min.Val(), offset.Val(), TWO128);
    SignedLanes(offset.Add(min.ToUint128()));
    SignedLanes(min.ToUint128().Add(offset));
    SignedOfMod(n);
  }

  // ---- fixed point ----

  const INT64_MIN: int64 := -TWO63
  const INT64_MAX: int64 := TWO63 - 1

  /** The whole-unit bounds a Q format can represent, clamped to int64. */
  function FixedPointCapacity(integerBits: int, signed: bool): (int64, int64)
    requires integerBits >= 1
  {
    if signed then
      if integerBits >= 65 then (INT64_MIN, INT64_MAX)
      else
        var least := Signed64(Wrap64(0 - Shl64(1, integerBits - 1)));
        if integerBits >= 64 then (least, INT64_MAX)
        else (least, Signed64(Wrap64(Shl64(1, integerBits - 1) - 1)))
    else if integerBits >= 63 then (0, INT64_MAX)
    else (0, Signed64(Wrap64(Shl64(1, integerBits) - 1)))
  }

  /** Where a power of two stands against the int64 bounds, and what shifting 1 that far gives. */
  lemma Pow2Ordered(n: nat)
    ensures n <= 62 ==> Shl64(1, n) == Pow2(n) && 2 * Pow2(n) <= TWO63
    ensures n == 63 ==> Shl64(1, n) == Pow2(n) == TWO63
    ensures n >= 63 ==> Pow2(n) >= TWO63
  {
    hide Pow2;
    Pow2Widths();
    if n <= 62 {
      Pow2Doubles(n);
      Pow2Monotone(n + 1, 63);
      DivModUnique(Pow2(n), TWO64, 0, Pow2(n));
    } else {
      Pow2Monotone(63, n);
    }
  }

  /** A whole-unit bound passes the capacity check exactly when the Q format holds it. */
  lemma CapacityExact(integerBits: int, signed: bool, x: int64)
    requires integerBits >= 1
    ensures var (least, most) := FixedPointCapacity(integerBits, signed);
            least <= x <= most
            <==> if signed then 0 - Pow2(integerBits - 1) <= x < Pow2(integerBits - 1)
                 else 0 <= x < Pow2(integerBits)
  {
    hide Pow2, Shl64, Wrap64, Signed64;
    var n := if signed then integerBits - 1 else integerBits;
    Pow2Ordered(n);
    if n <= 63 {
      WrapRoundTrips(0 - Pow2(n));
      if n <= 62 {
        WrapRoundTrips(Pow2(n) - 1);
      }
    }
  }

  const FIXED_MISUSE_PARAMS := -1
  const FIXED_MISUSE_BOUNDS := -2

  function FixedPointParams64(integerBits: qbits, fractionBits: qbits, min: int64, max: int64)
    : (uint64, uint64, int)
  {
    if integerBits < 1 || fractionBits < 0 || integerBits + fractionBits > 64 || min > max then
      (0, 0, FIXED_MISUSE_PARAMS)
    else
      var (least, most) := FixedPointCapacity(integerBits, min < 0);
      if min < least || max > most then (0, 0, FIXED_MISUSE_BOUNDS)
      else
        var rawMin := Shl64(Wrap64(min), fractionBits);
        var rawMax := Shl64(Wrap64(max), fractionBits);
        (rawMin, Wrap64(rawMax - rawMin), BitsRequired64(rawMin, rawMax))
  }

  function FixedPointParams128(integerBits: qbits, fractionBits: qbits, min: int64, max: int64)
    : (Uint128, Uint128, int)
  {
    if integerBits < 1 || fractionBits < 0 || integerBits + fractionBits != 128 || min > max then
      (Uint128(0, 0), Uint128(0, 0), FIXED_MISUSE_PARAMS)
    else
      var (least, most) := FixedPointCapacity(integerBits, min < 0);
      if min < least || max > most then (Uint128(0, 0), Uint128(0, 0), FIXED_MISUSE_BOUNDS)
      else
        var rawMin := Int128.From64(min).ToUint128().Lsh(fractionBits);
        var rawMax := Int128.From64(max).ToUint128().Lsh(fractionBits);
        var numBits := if min == max then 0 else BitsRequired64(Wrap64(min), Wrap64(max)) + fractionBits;
        (rawMin, rawMax.Sub(rawMin), numBits)
  }

  lemma ScaledWithin(min: int, max: int, half: nat, scale: nat, signed: bool)
    requires min <= max && scale > 0
    requires if signed then 0 - half <= min && max < half else 0 <= min && max < 2 * half
    ensures min * scale <= max * scale && (max - min) * scale == max * scale - min * scale
    ensures max * scale - min * scale < 2 * (half * scale)
    ensures if signed then min * scale >= 0 - half * scale && max * scale < half * scale
            else 0 <= min * scale && max * scale < 2 * (half * scale)
  {
    MulSubtracts(max, min, scale);
    MulMonotone(min, max, scale);
    MulAssociates(2, half, scale);
    MulMonotone(max + 1, if signed then half else 2 * half, scale);
    MulDistributes(max, 1, scale);
    MulMonotone(if signed then 0 - half else 0, min, scale);
    MulSubtracts(0, half, scale);
  }

  /** Scaling whole-unit bounds by the fraction bits stays inside one window of the storage. */
  lemma ScaledBoundsFit(integerBits: int, fractionBits: int, min: int, max: int, storage: nat)
    requires QFormat(integerBits, fractionBits, min, max) && integerBits + fractionBits <= storage
    ensures var low, high := min * Pow2(fractionBits), max * Pow2(fractionBits);
            && low <= high < low + Pow2(storage)
            && (max - min) * Pow2(fractionBits) == high - low
            && if min < 0 then 2 * low >= 0 - Pow2(storage) && 2 * high < Pow2(storage)
               else 0 <= low && high < Pow2(storage)
  {
    hide Pow2;
    Pow2Doubles(integerBits - 1);
    var scale, half := Pow2(fractionBits), Pow2(integerBits - 1);
    Pow2Add(integerBits, fractionBits);
    Pow2Monotone(integerBits + fractionBits, storage);
    MulAssociates(2, half, scale);
    ScaledWithin(min, max, half, scale, min < 0);
  }

  lemma ModProduct(a: int, b: nat, m: nat)
    requires m > 0
    ensures a % m * b % m == a * b % m
  {
    var q, r := a / m, a % m;
    var k, t := r * b / m, r * b % m;
    assert a == q * m + r && r * b == k * m + t;
    MulDistributes(q * m, r, b);
    assert q * m * b == q * b * m;
    MulDistributes(q * b, k, m);
    DivModUnique(a * b, m, q * b + k, t);
  }

  lemma ShiftedUnits64(units: int64, fractionBits: nat)
    ensures Shl64(Wrap64(units), fractionBits) == Wrap64(units * Pow2(fractionBits))
  {
    ModProduct(units, Pow2(fractionBits), TWO64);
  }

  lemma WrappedRange64(low: int, high: int)
    requires low <= high < low + TWO64
    ensures Wrap64(Wrap64(high) - Wrap64(low)) == high - low
    ensures BitsRequired64(Wrap64(low), Wrap64(high)) == BitLen(high - low)
  {
    hide BitLen;
    ModDifference(high, low, TWO64);
    DivModUnique(high - low, TWO64, 0, high - low);
    NoBits();
  }

  lemma Scaled64(integerBits: qbits, fractionBits: qbits, min: int64, max: int64)
    requires QFormat(integerBits, fractionBits, min, max) && integerBits + fractionBits <= 64
    ensures var rawMin, rawMax := Shl64(Wrap64(min), fractionBits), Shl64(Wrap64(max), fractionBits);
            var scale := Pow2(fractionBits);
            && rawMin == Wrap64(min * scale)
            && Wrap64(rawMax - rawMin) == max * scale - min * scale
            && BitsRequired64(rawMin, rawMax) == BitLen(max * scale - min * scale)
  {
    var low, high := min * Pow2(fractionBits), max * Pow2(fractionBits);
    assert low <= high < low + TWO64 by {
      Pow2Widths();
      ScaledBoundsFit(integerBits, fractionBits, min, max, 64);
    }
    hide Pow2, Shl64, Wrap64, BitLen, BitsRequired64, QFormat;
    ShiftedUnits64(min, fractionBits);
    ShiftedUnits64(max, fractionBits);
    WrappedRange64(low, high);
  }

  /** The declared field and the 64-bit wire parameters agree, and a bad declaration is a negative width. */
  lemma Params64Exact(integerBits: qbits, fractionBits: qbits, min: int64, max: int64)
    ensures var (rawMin, rawRange, numBits) := FixedPointParams64(integerBits, fractionBits, min, max);
            match NumericOf(Fixed64(integerBits, fractionBits, min, max))
            case None => numBits < 0
            case Some(f) => numBits == f.width && rawRange == f.span && rawMin == Wrap64(f.low)
  {
    hide FixedPointCapacity, Shl64, Pow2, BitLen;
    if integerBits >= 1 {
      CapacityExact(integerBits, min < 0, min);
      CapacityExact(integerBits, min < 0, max);
      if fractionBits >= 0 && integerBits + fractionBits <= 64 && min <= max
         && QFormat(integerBits, fractionBits, min, max) {
        Scaled64(integerBits, fractionBits, min, max);
      }
    }
  }

  lemma ShiftedUnits(units: int64, fractionBits: nat)
    ensures Int128.From64(units).ToUint128().Lsh(fractionBits).Val() == units * Pow2(fractionBits) % TWO128
  {
    hide Uint128.Val, Uint128.Lsh, Int128.Val, Pow2;
    var x := Int128.From64(units);
    From64Val(units);
    Reinterpreted(x);
    LshVal(x.ToUint128(), fractionBits);
    ModProduct(units, Pow2(fractionBits), TWO128);
  }

  lemma Scaled128(integerBits: qbits, fractionBits: qbits, min: int64, max: int64)
    requires QFormat(integerBits, fractionBits, min, max) && integerBits + fractionBits == 128
    ensures var rawMin := Int128.From64(min).ToUint128().Lsh(fractionBits);
            var rawMax := Int128.From64(max).ToUint128().Lsh(fractionBits);
            var scale := Pow2(fractionBits);
            && rawMin.Val() == min * scale % TWO128
            && rawMax.Sub(rawMin).Val() == max * scale - min * scale
  {
    hide Uint128.Val, Uint128.Lsh, Uint128.Sub;
    var scale := Pow2(fractionBits);
    ShiftedUnits(min, fractionBits);
    ShiftedUnits(max, fractionBits);
    assert Pow2(128) == TWO128 by { Pow2Widths(); }
    hide Pow2;
    ScaledBoundsFit(integerBits, fractionBits, min, max, 128);
    var low, high := min * scale, max * scale;
    SubVal(Int128.From64(max).ToUint128().Lsh(fractionBits), Int128.From64(min).ToUint128().Lsh(fractionBits));
    ModDifference(high, low, TWO128);
    DivModUnique(high - low, TWO128, 0, high - low);
  }

  lemma ScaledWidth(fractionBits: nat, min: int64, max: int64)
    requires min <= max
    ensures var range := max * Pow2(fractionBits) - min * Pow2(fractionBits);
            (if min == max then 0 else BitsRequired64(Wrap64(min), Wrap64(max)) + fractionBits) == BitLen(range)
  {
    hide BitLen, Pow2, BitsRequired64;
    Ranged64(min, max, min);
    MulSubtracts(max, min, Pow2(fractionBits));
    if min == max {
      NoBits();
    } else {
      BitLenScaled(0, max - min, fractionBits);
    }
  }

  /** The same at 128 bits, where the width is the unit range's length plus the fraction bits. */
  lemma Params128Exact(integerBits: qbits, fractionBits: qbits, min: int64, max: int64)
    ensures var (rawMin, rawRange, numBits) := FixedPointParams128(integerBits, fractionBits, min, max);
            match NumericOf(Fixed128(integerBits, fractionBits, min, max))
            case None => numBits < 0
            case Some(f) => numBits == f.width && rawRange.Val() == f.span && rawMin.Val() == f.low % TWO128
  {
    hide FixedPointCapacity, Uint128.Val, Uint128.Lsh, Uint128.Sub, Pow2, BitLen;
    if integerBits >= 1 {
      CapacityExact(integerBits, min < 0, min);
      CapacityExact(integerBits, min < 0, max);
      if fractionBits >= 0 && integerBits + fractionBits == 128 && min <= max
         && QFormat(integerBits, fractionBits, min, max) {
        Scaled128(integerBits, fractionBits, min, max);
        ScaledWidth(fractionBits, min, max);
      }
    }
  }

  // ---- fixed-point values in signed storage ----

  /** The raw value an int64 pattern stands for: signed for a signed format, unsigned otherwise. */
  function RawOf64(minUnits: int64, pattern: int64): int {
    if minUnits < 0 then pattern else Wrap64(pattern)
  }

  function Stored64(n: int): int64 { Signed64(Wrap64(n)) }

  function RawOf128(minUnits: int64, pattern: int128): int {
    if minUnits < 0 then pattern else pattern % TWO128
  }

  /** The pattern an integer of the storage's range is stored as stands for it. */
  lemma StoredWindow64(min: int64, n: int)
    requires if min < 0 then -TWO63 <= n < TWO63 else 0 <= n < TWO64
    ensures RawOf64(min, Stored64(n)) == n
  {
    if min < 0 {
      WrapRoundTrips(n);
    } else {
      DivModUnique(n, TWO64, 0, n);
      if n >= TWO63 {
        DivModUnique(n - TWO64, TWO64, -1, n);
      }
    }
  }

  lemma StoredWindow128(min: int64, n: int)
    requires if min < 0 then -TWO127 <= n < TWO127 else 0 <= n < TWO128
    ensures RawOf128(min, AsSigned(n % TWO128)) == n
  {
    if min < 0 {
      SignedOfMod(n);
    } else {
      DivModUnique(n, TWO128, 0, n);
      if n >= TWO127 {
        DivModUnique(n - TWO128, TWO128, -1, n);
      }
    }
  }

  /** The least raw value a format's storage holds. */
  function Floor64(min: int64): int { if min < 0 then -TWO63 else 0 }

  function Floor128(min: int64): int { if min < 0 then -TWO127 else 0 }

  /** A fixed-point field lies in one window of its storage. */
  lemma FieldWindow64(ib: qbits, fb: qbits, min: int64, max: int64)
    requires NumericOf(Fixed64(ib, fb, min, max)).Some?
    ensures var f := NumericOf(Fixed64(ib, fb, min, max)).value;
            Floor64(min) <= f.low && f.low + f.span < Floor64(min) + TWO64 && f.pattern == AnyPattern
  {
    assert Pow2(64) == TWO64 by { Pow2Widths(); }
    hide BitLen, Pow2;
    ScaledBoundsFit(ib, fb, min, max, 64);
  }

  lemma FieldWindow128(ib: qbits, fb: qbits, min: int64, max: int64)
    requires NumericOf(Fixed128(ib, fb, min, max)).Some?
    ensures var f := NumericOf(Fixed128(ib, fb, min, max)).value;
            Floor128(min) <= f.low && f.low + f.span < Floor128(min) + TWO128 && f.pattern == AnyPattern
  {
    assert Pow2(128) == TWO128 by { Pow2Widths(); }
    hide BitLen, Pow2;
    ScaledBoundsFit(ib, fb, min, max, 128);
  }

  /** The offset of a stored pattern, wrapped, against the offset of the number it stands for. */
  lemma OffsetTest(v: int, raw: int, low: int, span: nat, m: nat, w: int)
    requires w <= low && low + span < w + m && w <= raw < w + m && (raw == v || raw == v % m)
    ensures var offset := (v % m - low % m) % m;
            (offset <= span <==> low <= raw <= low + span) && (offset <= span ==> offset == raw - low)
  {
    ModDifference(v, low, m);
    ModSum(v, 0 - low, m);
    WindowedTest(raw, low, span, m, w);
  }

  /** The wrapped-offset test accepts exactly the patterns whose raw value lies within the scaled bounds. */
  lemma FixedTest64(integerBits: qbits, fractionBits: qbits, min: int64, max: int64, pattern: int64)
    requires NumericOf(Fixed64(integerBits, fractionBits, min, max)).Some?
    ensures var f := NumericOf(Fixed64(integerBits, fractionBits, min, max)).value;
            var offset := Wrap64(Wrap64(pattern) - Wrap64(f.low));
            && (offset <= f.span <==> Fits(f, RawOf64(min, pattern)))
            && (offset <= f.span ==> offset == RawOf64(min, pattern) - f.low)
  {
    hide NumericOf;
    FieldWindow64(integerBits, fractionBits, min, max);
    var f := NumericOf(Fixed64(integerBits, fractionBits, min, max)).value;
    OffsetTest(pattern, RawOf64(min, pattern), f.low, f.span, TWO64, Floor64(min));
  }

  lemma FixedTest128(integerBits: qbits, fractionBits: qbits, min: int64, max: int64, pattern: Int128, rawMin: Uint128)
    requires NumericOf(Fixed128(integerBits, fractionBits, min, max)).Some?
    requires rawMin.Val() == NumericOf(Fixed128(integerBits, fractionBits, min, max)).value.low % TWO128
    ensures var f := NumericOf(Fixed128(integerBits, fractionBits, min, max)).value;
            var offset := pattern.ToUint128().Sub(rawMin).Val();
            && (offset <= f.span <==> Fits(f, RawOf128(min, pattern.Val())))
            && (offset <= f.span ==> offset == RawOf128(min, pattern.Val()) - f.low)
  {
    hide NumericOf, Uint128.Sub, Uint128.Val, Int128.Val;
    FieldWindow128(integerBits, fractionBits, min, max);
    var f := NumericOf(Fixed128(integerBits, fractionBits, min, max)).value;
    Reinterpreted(pattern);
    SubVal(pattern.ToUint128(), rawMin);
    OffsetTest(pattern.Val(), RawOf128(min, pattern.Val()), f.low, f.span, TWO128, Floor128(min));
  }

  /** The pattern a reader stores for an accepted offset stands for the raw value. */
  lemma FixedRebuilt64(integerBits: qbits, fractionBits: qbits, min: int64, max: int64, offset: nat)
    requires NumericOf(Fixed64(integerBits, fractionBits, min, max)).Some?
    requires offset <= NumericOf(Fixed64(integerBits, fractionBits, min, max)).value.span
    ensures var f := NumericOf(Fixed64(integerBits, fractionBits, min, max)).value;
            RawOf64(min, Signed64(Wrap64(Wrap64(f.low) + offset))) == f.low + offset
  {
    hide NumericOf, RawOf64, Signed64;
    FieldWindow64(integerBits, fractionBits, min, max);
    var f := NumericOf(Fixed64(integerBits, fractionBits, min, max)).value;
    ModSum(f.low, offset, TWO64);
    StoredWindow64(min, f.low + offset);
  }

  lemma FixedRebuilt128(integerBits: qbits, fractionBits: qbits, min: int64, max: int64,
                        rawMin: Uint128, offset: Uint128)
    requires NumericOf(Fixed128(integerBits, fractionBits, min, max)).Some?
    requires rawMin.Val() == NumericOf(Fixed128(integerBits, fractionBits, min, max)).value.low % TWO128
    requires offset.Val() <= NumericOf(Fixed128(integerBits, fractionBits, min, max)).value.span
    ensures var f := NumericOf(Fixed128(integerBits, fractionBits, min, max)).value;
            RawOf128(min, rawMin.Add(offset).ToInt128().Val()) == f.low + offset.Val()
  {
    hide NumericOf, RawOf128, Uint128.Add, Uint128.Val, Int128.Val, AsSigned;
    FieldWindow128(integerBits, fractionBits, min, max);
    var f := NumericOf(Fixed128(integerBits, fractionBits, min, max)).value;
    AddVal(rawMin, offset);
    ModSum(f.low, offset.Val(), TWO128);
    SignedLanes(rawMin.Add(offset));
    StoredWindow128(min, f.low + offset.Val());
  }

  // ---- numbers in words ----

  lemma WordBound(w: nat, word: nat)
    requires w <= word
    ensures word == 8 ==> Pow2(w) <= 256
    ensures word == 16 ==> Pow2(w) <= 0x1_0000
    ensures word <= 32 ==> Pow2(w) <= TWO32
    ensures word <= 64 ==> Pow2(w) <= TWO64
    ensures word <= 128 ==> Pow2(w) <= TWO128
  {
    Pow2Widths();
    hide Pow2;
    Pow2Monotone(w, word);
    if word <= 32 { Pow2Monotone(w, 32); }
    if word <= 64 { Pow2Monotone(w, 64); }
    if word <= 128 { Pow2Monotone(w, 128); }
  }

  /** An accepted value's offset fits the width of its range, which fits the word. */
  lemma RangedFits(min: int, max: int, v: int, word: nat)
    requires min <= v <= max
    requires match word case 32 => max - min < TWO32 case 64 => max - min < TWO64 case _ => max - min < TWO128
    requires word == 32 || word == 64 || word == 128
    ensures v - min < Pow2(BitLen(max - min)) && BitLen(max - min) <= word
  {
    hide BitLen;
    Pow2Widths();
    hide Pow2;
    BitLenLeast(max - min, BitLen(max - min));
    BitLenLeast(max - min, word);
  }

  lemma FixedWidths64(integerBits: qbits, fractionBits: qbits, min: int64, max: int64)
    requires NumericOf(Fixed64(integerBits, fractionBits, min, max)).Some?
    ensures var f := NumericOf(Fixed64(integerBits, fractionBits, min, max)).value;
            f.span < Pow2(f.width) && f.width <= 64
  {
    assert Pow2(64) == TWO64 by { Pow2Widths(); }
    hide BitLen, Pow2;
    var low, high := min * Pow2(fractionBits), max * Pow2(fractionBits);
    ScaledBoundsFit(integerBits, fractionBits, min, max, 64);
    RangedFits(low, high, high, 64);
  }

  lemma FixedWidths128(integerBits: qbits, fractionBits: qbits, min: int64, max: int64)
    requires NumericOf(Fixed128(integerBits, fractionBits, min, max)).Some?
    ensures var f := NumericOf(Fixed128(integerBits, fractionBits, min, max)).value;
            f.span < Pow2(f.width) && f.width <= 128
  {
    assert Pow2(128) == TWO128 by { Pow2Widths(); }
    hide BitLen, Pow2;
    var low, high := min * Pow2(fractionBits), max * Pow2(fractionBits);
    ScaledBoundsFit(integerBits, fractionBits, min, max, 128);
    RangedFits(low, high, high, 128);
  }

  lemma StoredRaw64(ib: qbits, fb: qbits, min: int64, max: int64, n: int)
    requires NumericOf(Fixed64(ib, fb, min, max)).Some?
    requires Fits(NumericOf(Fixed64(ib, fb, min, max)).value, n)
    ensures RawOf64(min, Stored64(n)) == n
  {
    hide NumericOf, Stored64, RawOf64, RawOf128, AsSigned;
    FieldWindow64(ib, fb, min, max);
    StoredWindow64(min, n);
  }

  lemma StoredRaw128(ib: qbits, fb: qbits, min: int64, max: int64, n: int)
    requires NumericOf(Fixed128(ib, fb, min, max)).Some?
    requires Fits(NumericOf(Fixed128(ib, fb, min, max)).value, n)
    ensures RawOf128(min, AsSigned(n % TWO128)) == n
  {
    hide NumericOf, Stored64, RawOf64, RawOf128, AsSigned;
    FieldWindow128(ib, fb, min, max);
    StoredWindow128(min, n);
  }

  /** A legal number fits the word its operation writes, and its stored pattern stands for it. */
  lemma NumericWord(op: Op, v: Value)
    requires Legal(op, v)
    ensures match op
            case Bits(w) => 1 <= w <= 32 && 0 <= v.n < TWO32
            case Bits64(w) => 1 <= w <= 64 && 0 <= v.n < TWO64
            case Bool => v.n == 0 || v.n == 1
            case Uint8 => 0 <= v.n < 256
            case Uint16 => 0 <= v.n < 0x1_0000
            case Uint32 => 0 <= v.n < TWO32
            case Uint64 => 0 <= v.n < TWO64
            case RawUint128 => 0 <= v.n < TWO128
            case Float32 => 0 <= v.n < TWO32
            case Float64 => 0 <= v.n < TWO64
            case RangedInt(min, max) => min <= v.n <= max
            case RangedInt64(min, max) => min <= v.n <= max
            case RangedInt128(min, max) => min <= v.n <= max
            case Fixed64(ib, fb, min, max) => RawOf64(min, Stored64(v.n)) == v.n
            case Fixed128(ib, fb, min, max) => RawOf128(min, AsSigned(v.n % TWO128)) == v.n
            case Align => v.Unit?
            case Bytes(n) => v.Blob? && n == |v.bytes|
            case Text(_) => v.Blob?
            case IntRelative(previous) => 0 <= previous < v.n <= INT32_MAX
            case Object(fields) => v.Fields? && LegalAll(fields, v.values)
    ensures IsNumeric(op) || op.IntRelative? ==> v.Num?
  {
    hide BitLen, LegalAll, Finite, Pow2, QFormat, LegalText, Stored64, RawOf64, RawOf128, AsSigned;
    match op
    case Bits(w) => WordBound(w, 32);
    case Bits64(w) => WordBound(w, 64);
    case Bool => OneBit(true);
    case Uint8 => WordBound(8, 8);
    case Uint16 => WordBound(16, 16);
    case Uint32 => WordBound(32, 32);
    case Uint64 => WordBound(64, 64);
    case RawUint128 => WordBound(128, 128);
    case Float32 => WordBound(32, 32);
    case Float64 => WordBound(64, 64);
    case Fixed64(ib, fb, min, max) => StoredRaw64(ib, fb, min, max, v.n);
    case Fixed128(ib, fb, min, max) => StoredRaw128(ib, fb, min, max, v.n);
    case _ =>
  }

  // ---- finite patterns ----

  /** The test of a binary32 pattern: its exponent field is not all ones. */
  predicate FiniteBits32(pattern: uint32) {
    BitAnd(pattern, 0x7F80_0000) != 0x7F80_0000
  }

  predicate FiniteBits64(pattern: uint64) {
    BitAnd(pattern, 0x7FF0_0000_0000_0000) != 0x7FF0_0000_0000_0000
  }

  lemma FiniteMask32(pattern: uint32)
    ensures FiniteBits32(pattern) <==> Finite(Binary32, pattern)
  {
    assert Pow2(8) == 0x100 && Pow2(23) == 0x80_0000;
    hide BitAnd, Pow2;
    MaskedInPlace(pattern, 8, 0xFF, 23);
  }

  lemma FiniteMask64(pattern: uint64)
    ensures FiniteBits64(pattern) <==> Finite(Binary64, pattern)
  {
    assert Pow2(11) == 0x800 && Pow2(20) == 0x10_0000;
    Pow2Widths();
    hide BitAnd, Pow2;
    Pow2Add(20, 32);
    MaskedInPlace(pattern, 11, 0x7FF, 52);
  }
}
