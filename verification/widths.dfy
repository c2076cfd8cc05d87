/** Changing a field's storage width without changing its wire. */
module Widths {
  import opened Bits
  import opened Words
  import opened Int128s
  import opened Params
  import opened Wire

  lemma SmallValue(x: Uint128)
    requires x.Val() < TWO64
    ensures x == Uint128(x.Val(), 0)
  {
  }

  /**
   A ranged field widened from 64 to 128 bits over the same bounds: the 128-bit derivation gives the same width
   and the same offset, all of it in the low lane, so the group writer takes its one-lane path and the wire is the same.
   */
  lemma WidenedInt(min: int64, max: int64, v: int64, pos: nat)
    requires min <= v <= max
    ensures Encode(RangedInt128(min, max), Num(v), pos) == Encode(RangedInt64(min, max), Num(v), pos)
    ensures var min', max', v' := Int128.From64(min), Int128.From64(max), Int128.From64(v);
            && BitsRequired128(min'.ToUint128(), max'.ToUint128()) == BitsRequired64(Wrap64(min), Wrap64(max)) <= 64
            && v'.ToUint128().Sub(min'.ToUint128()) == Uint128(Wrap64(Wrap64(v) - Wrap64(min)), 0)
  {
    hide BitLen, Int128.Val, Uint128.Sub, Uint128.Val;
    var min', max', v' := Int128.From64(min), Int128.From64(max), Int128.From64(v);
    From64Val(min);
    From64Val(max);
    From64Val(v);
    Ranged128(min', max', v');
    Ranged64(min, max, v);
    RangedFits(min, max, v, 64);
    SmallValue(v'.ToUint128().Sub(min'.ToUint128()));
  }

  /** The raw bounds of a fixed-point field, as the int64 patterns its storage holds them in. */
  function RawBounds(fractionBits: nat, min: int64, max: int64): (int64, int64) {
    (Stored64(min * Pow2(fractionBits)), Stored64(max * Pow2(fractionBits)))
  }

  /** Storing a number of a 64-bit window as int64 takes 2^64 off it, or nothing. */
  lemma SameWindow(n: int, w: int)
    requires w <= n < w + TWO64 && (w == 0 || w == -TWO63)
    ensures Stored64(n) == if n < TWO63 then n else n - TWO64
  {
  }

  lemma SamePattern(min: int64, pattern: int64)
    ensures RawOf64(min, pattern) == if min < 0 || pattern >= 0 then pattern else pattern + TWO64
  {
  }

  /** Storing the bounds and the value takes the same multiple of 2^64 off each, unless the bounds straddle 2^63. */
  lemma StorageShift(ib: qbits, fb: qbits, min: int64, max: int64, pattern: int64)
    requires NumericOf(Fixed64(ib, fb, min, max)).Some?
    ensures var (low, high) := RawBounds(fb, min, max);
            var (low', high', n) := (min * Pow2(fb), max * Pow2(fb), RawOf64(min, pattern));
            && low' <= high'
            && (low <= high <==> !(low' < TWO63 <= high'))
            && (low <= high ==> high - low == high' - low')
            && (low <= high ==> n - low' == pattern - low || !(low' <= n <= high' || low <= pattern <= high))
  {
    assert Pow2(64) == TWO64 by { Pow2Widths(); }
    hide Pow2, BitLen;
    ScaledBoundsFit(ib, fb, min, max, 64);
    var low, high := min * Pow2(fb), max * Pow2(fb);
    SamePattern(min, pattern);
    hide Wrap64, Signed64, RawOf64;
    SameWindow(low, if min < 0 then -TWO63 else 0);
    SameWindow(high, if min < 0 then -TWO63 else 0);
  }

  /** Fields of one span, with the values at one offset, accept together and write the same bits. */
  lemma SameOffset(f: Numeric, g: Numeric, n: int, m: int)
    requires f.width == g.width && f.span == g.span && f.pattern == g.pattern == AnyPattern
    requires n - f.low == m - g.low || !(0 <= n - f.low <= f.span || 0 <= m - g.low <= g.span)
    ensures Fits(f, n) <==> Fits(g, m)
    ensures Fits(f, n) ==> EncodeNumeric(f, n) == EncodeNumeric(g, m)
  {
  }

  /**
   A 64-bit fixed-point field is a ranged int64 of the raw value over the raw bounds, the same values legal and the
   same bits written, exactly when those bounds are ordered as int64; they are not just when an unsigned format's
   raw bounds straddle 2^63, and then the ranged declaration is a bad one.
   */
  lemma FixedIsRanged(ib: qbits, fb: qbits, min: int64, max: int64, pattern: int64, pos: nat)
    requires NumericOf(Fixed64(ib, fb, min, max)).Some?
    ensures var (low, high) := RawBounds(fb, min, max);
            var fixed, ranged := Fixed64(ib, fb, min, max), RangedInt64(low, high);
            && (Wire.Declared(ranged) <==> low <= high)
            && (low <= high <==> !(min * Pow2(fb) < TWO63 <= max * Pow2(fb)))
            && (low <= high ==> (Legal(fixed, Num(RawOf64(min, pattern))) <==> Legal(ranged, Num(pattern))))
            && (low <= high && Legal(ranged, Num(pattern)) ==>
                  Encode(fixed, Num(RawOf64(min, pattern)), pos) == Encode(ranged, Num(pattern), pos))
  {
    hide Pow2, BitLen, ToBits, RawBounds, RawOf64;
    StorageShift(ib, fb, min, max, pattern);
    var (low, high) := RawBounds(fb, min, max);
    if low <= high {
      SameOffset(Ranged(min * Pow2(fb), max * Pow2(fb)), Ranged(low, high), RawOf64(min, pattern), pattern);
    }
  }

  /** Such a declaration: an unsigned Q63.1 over the whole of its range. */
  lemma StraddlingBounds()
    ensures Wire.Declared(Fixed64(63, 1, 0, TWO63 - 1))
    ensures var (low, high) := RawBounds(1, 0, TWO63 - 1); !Wire.Declared(RangedInt64(low, high))
  {
    assert Pow2(1) == 2;
    assert Pow2(63) == TWO63 by { Pow2Widths(); }
    hide Pow2, BitLen, RawBounds;
    StorageShift(63, 1, 0, TWO63 - 1, 0);
  }
}
