/**
 The wire in numbers: what each operation puts there, what a reader makes of any bits, and what a measure counts, each
 stated for itself with its own constants. The format's functions and the streams are proved to agree with it.
 */
module Layouts {
  import opened Bits
  import opened Words
  import opened Utf8
  import opened Wire
  import opened Codec
  import opened Messages

  // ---- fields of a declared width ----

  lemma FieldForm(op: Op, v: Value, pos: nat)
    requires IsNumeric(op)
    ensures Legal(op, v) <==> NumericOf(op).Some? && v.Num? && Fits(NumericOf(op).value, v.n)
    ensures Legal(op, v) ==>
              Encode(op, v, pos) == ToBits(v.n - NumericOf(op).value.low, NumericOf(op).value.width)
  {
    hide ToBits, NumericOf, Fits, Legal, Encode;
    NumericForm(op, v, Zeros(pos), pos);
  }

  /** w raw bits of an unsigned number. */
  lemma BitsLayout(w: int64, v: Value, pos: nat)
    ensures Legal(Op.Bits(w), v) <==> 1 <= w <= 32 && v.Num? && 0 <= v.n < Pow2(w)
    ensures Legal(Op.Bits(w), v) ==> Encode(Op.Bits(w), v, pos) == ToBits(v.n, w)
    ensures Legal(Bits64(w), v) <==> 1 <= w <= 64 && v.Num? && 0 <= v.n < Pow2(w)
    ensures Legal(Bits64(w), v) ==> Encode(Bits64(w), v, pos) == ToBits(v.n, w)
  {
    hide ToBits, Pow2, Legal, Encode;
    FieldForm(Op.Bits(w), v, pos);
    FieldForm(Bits64(w), v, pos);
  }

  lemma RawForm(op: Op, w: nat, v: Value, pos: nat)
    requires IsNumeric(op) && NumericOf(op) == Some(Raw(w))
    ensures Legal(op, v) <==> v.Num? && 0 <= v.n < Pow2(w)
    ensures Legal(op, v) ==> Encode(op, v, pos) == ToBits(v.n, w)
  {
    hide ToBits, Pow2, Legal, Encode, NumericOf;
    FieldForm(op, v, pos);
  }

  /** The unsigned words and the flag. */
  lemma WordLayout(v: Value, pos: nat)
    ensures Legal(Op.Bool, v) <==> v.Num? && 0 <= v.n <= 1
    ensures Legal(Uint8, v) <==> v.Num? && 0 <= v.n <= 0xFF
    ensures Legal(Uint16, v) <==> v.Num? && 0 <= v.n <= 0xFFFF
    ensures Legal(Uint32, v) <==> v.Num? && 0 <= v.n <= 0xFFFF_FFFF
    ensures Legal(Uint64, v) <==> v.Num? && 0 <= v.n <= 0xFFFF_FFFF_FFFF_FFFF
    ensures Legal(RawUint128, v) <==> v.Num? && 0 <= v.n <= 0xFFFF_FFFF_FFFF_FFFF_FFFF_FFFF_FFFF_FFFF
    ensures Legal(Op.Bool, v) ==> Encode(Op.Bool, v, pos) == [v.n == 1]
    ensures Legal(Uint8, v) ==> Encode(Uint8, v, pos) == ToBits(v.n, 8)
    ensures Legal(Uint16, v) ==> Encode(Uint16, v, pos) == ToBits(v.n, 16)
    ensures Legal(Uint32, v) ==> Encode(Uint32, v, pos) == ToBits(v.n, 32)
    ensures Legal(Uint64, v) ==> Encode(Uint64, v, pos) == ToBits(v.n, 64)
    ensures Legal(RawUint128, v) ==> Encode(RawUint128, v, pos) == ToBits(v.n, 128)
  {
    hide ToBits, Pow2, Legal, Encode;
    Pow2Widths();
    OneBit(false);
    OneBit(true);
    RawForm(Op.Bool, 1, v, pos);
    RawForm(Uint8, 8, v, pos);
    RawForm(Uint16, 16, v, pos);
    RawForm(Uint32, 32, v, pos);
    RawForm(Uint64, 64, v, pos);
    RawForm(RawUint128, 128, v, pos);
  }

  /** An exponent field of all ones is where the infinities begin. */
  lemma ExponentField(n: nat, fraction: nat, exponents: nat)
    requires fraction > 0 && exponents > 0
    ensures n / fraction % exponents != exponents - 1 <==> n % (exponents * fraction) < (exponents - 1) * fraction
  {
    var q, r := n / fraction, n % fraction;
    var h, e := q / exponents, q % exponents;
    assert q * fraction + r == n && h * exponents + e == q;
    MulDistributes(h * exponents, e, fraction);
    MulAssociates(h, exponents, fraction);
    MulMonotone(e + 1, exponents, fraction);
    MulDistributes(e, 1, fraction);
    DivModUnique(n, exponents * fraction, h, e * fraction + r);
    MulMonotone(e, exponents - 1, fraction);
    if e < exponents - 1 {
      MulMonotone(e + 1, exponents - 1, fraction);
    }
  }

  /** A binary floating point pattern, finite when without its sign it stays below the infinity's. */
  lemma FloatLayout(v: Value, pos: nat)
    ensures Legal(Float32, v) <==> v.Num? && 0 <= v.n <= 0xFFFF_FFFF && v.n % 0x8000_0000 < 0x7F80_0000
    ensures Legal(Float64, v) <==>
              v.Num? && 0 <= v.n <= 0xFFFF_FFFF_FFFF_FFFF && v.n % 0x8000_0000_0000_0000 < 0x7FF0_0000_0000_0000
    ensures Legal(Float32, v) ==> Encode(Float32, v, pos) == ToBits(v.n, 32)
    ensures Legal(Float64, v) ==> Encode(Float64, v, pos) == ToBits(v.n, 64)
  {
    hide ToBits, Pow2, Legal, Encode;
    Pow2Widths();
    FieldForm(Float32, v, pos);
    FieldForm(Float64, v, pos);
    if v.Num? && v.n >= 0 {
      ExponentField(v.n, 0x80_0000, 0x100);
      ExponentField(v.n, 0x10_0000_0000_0000, 0x800);
    }
  }

  /** The width of a range is the least that holds its span. */
  lemma WidthIsLeast(span: nat)
    ensures span < Pow2(BitLen(span)) && (BitLen(span) > 0 ==> Pow2(BitLen(span) - 1) <= span)
  {
    BitLenLeast(span, BitLen(span));
    if BitLen(span) > 0 {
      BitLenLeast(span, BitLen(span) - 1);
    }
  }

  /** A ranged integer: its offset from the lower bound, in the least width that holds the whole range. */
  lemma RangedLayout(op: Op, low: int, high: int, v: Value, pos: nat)
    requires match op
             case RangedInt(min, max) => low == min && high == max
             case RangedInt64(min, max) => low == min && high == max
             case RangedInt128(min, max) => low == min && high == max
             case _ => false
    ensures Legal(op, v) <==> v.Num? && low <= v.n <= high
    ensures Legal(op, v) ==>
              var s := Encode(op, v, pos);
              && s == ToBits(v.n - low, |s|)
              && high - low < Pow2(|s|) && (s != [] ==> Pow2(|s| - 1) <= high - low)
  {
    hide ToBits, Pow2, BitLen, Legal, Encode;
    FieldForm(op, v, pos);
    if low <= high {
      WidthIsLeast(high - low);
    }
  }

  /**
   A fixed-point field: a raw value within the whole-unit bounds scaled by its fraction bits, in a format that holds
   those bounds, as its offset from the scaled lower bound in the least width that holds the scaled range.
   */
  lemma FixedLayout(op: Op, ib: int, fb: int, min: int, max: int, v: Value, pos: nat)
    requires match op
             case Fixed64(i, f, low, high) => (ib, fb, min, max) == (i, f, low, high)
             case Fixed128(i, f, low, high) => (ib, fb, min, max) == (i, f, low, high)
             case _ => false
    ensures Legal(op, v) <==>
              && 1 <= ib && 0 <= fb && (if op.Fixed64? then ib + fb <= 64 else ib + fb == 128)
              && min <= max
              && (min < 0 ==> 0 - Pow2(ib - 1) <= min && max < Pow2(ib - 1))
              && (min >= 0 ==> max < Pow2(ib))
              && v.Num? && min * Pow2(fb) <= v.n <= max * Pow2(fb)
    ensures Legal(op, v) ==>
              var s := Encode(op, v, pos);
              var span := max * Pow2(fb) - min * Pow2(fb);
              && s == ToBits(v.n - min * Pow2(fb), |s|)
              && span < Pow2(|s|) && (s != [] ==> Pow2(|s| - 1) <= span)
  {
    hide ToBits, Pow2, BitLen, Legal, Encode;
    FieldForm(op, v, pos);
    if QFormat(ib, fb, min, max) {
      MulMonotone(min, max, Pow2(fb));
      WidthIsLeast(max * Pow2(fb) - min * Pow2(fb));
    }
  }

  // ---- aligns, bytes and strings ----

  /** Zeros to the next byte boundary, none at one, and then the bytes. */
  lemma BytesLayout(n: nat, v: Value, pos: nat, p: nat)
    requires p < 8 && (pos + p) % 8 == 0
    ensures Legal(Align, v) <==> v == Unit
    ensures Legal(Align, v) ==> Encode(Align, v, pos) == Zeros(p)
    ensures Legal(Op.Bytes(n), v) <==> v.Blob? && |v.bytes| == n
    ensures Legal(Op.Bytes(n), v) ==> Encode(Op.Bytes(n), v, pos) == Zeros(p) + Unpack(v.bytes)
  {
    assert p == AlignPad(pos);
  }

  lemma TextLegal(size: int64, v: Value)
    ensures Legal(Text(size), v)
       <==> 1 <= size <= 0x7FFF_FFFF && v.Blob? && |v.bytes| < size && 0 !in v.bytes && WellFormed(v.bytes)
  {
    hide WellFormed;
  }

  lemma WidthUnique(span: nat, w: nat)
    requires span < Pow2(w) && (w > 0 ==> Pow2(w - 1) <= span)
    ensures BitLen(span) == w
  {
    BitLenLeast(span, w);
    if w > 0 {
      BitLenLeast(span, w - 1);
    }
  }

  lemma PadUnique(pos: nat, p: nat)
    requires p < 8 && (pos + p) % 8 == 0
    ensures AlignPad(pos) == p
  {
  }

  lemma TextBits(size: int64, text: seq<byte>, pos: nat, w: nat, p: nat)
    requires Legal(Text(size), Blob(text)) && size - 1 < Pow2(w) && (w > 0 ==> Pow2(w - 1) <= size - 1)
    requires p < 8 && (pos + w + p) % 8 == 0
    ensures Encode(Text(size), Blob(text), pos) == ToBits(|text|, w) + (Zeros(p) + Unpack(text))
  {
    hide ToBits, Pow2, BitLen, Unpack, Legal, Encode, Zeros, AlignPad;
    EncodeOfText(size, text, pos);
    WidthUnique(size - 1, w);
    PadUnique(pos + w, p);
  }

  /** A string: its length over the buffer's range, the align, and its bytes, which are Unicode text with no zero. */
  lemma TextLayout(size: int64, v: Value, pos: nat, w: nat, p: nat)
    requires size >= 1 ==> size - 1 < Pow2(w) && (w > 0 ==> Pow2(w - 1) <= size - 1)
    requires p < 8 && (pos + w + p) % 8 == 0
    ensures Legal(Text(size), v) <==>
              && 1 <= size <= 0x7FFF_FFFF && v.Blob? && |v.bytes| < size
              && 0 !in v.bytes && IsUnicode(v.bytes)
    ensures Legal(Text(size), v) ==>
              Encode(Text(size), v, pos) == ToBits(|v.bytes|, w) + (Zeros(p) + Unpack(v.bytes))
  {
    hide ToBits, Pow2, BitLen, WellFormed, IsUnicode, Unpack, Legal, Encode, Zeros;
    TextLegal(size, v);
    if v.Blob? {
      WellFormedIsUnicode(v.bytes);
    }
    if Legal(Text(size), v) {
      TextBits(size, v.bytes, pos, w, p);
    }
  }

  // ---- int_relative ----

  lemma BucketNumbers(i: nat)
    requires i < |BUCKETS|
    ensures var f := BucketField(i);
            && f.width == [3, 5, 9, 13, 17][i] && f.low == [2, 7, 24, 281, 4378][i]
            && f.span == [4, 16, 256, 4096, 65536][i] && f.pattern == AnyPattern
  {
    SmallPowers();
    hide Pow2, BitLen;
    Pow2Doubles(1);
    Pow2Add(4, 4);
    Pow2Add(8, 4);
    Pow2Add(8, 8);
    Pow2Doubles(4);
    Pow2Doubles(8);
    Pow2Doubles(12);
    Pow2Doubles(16);
    WidthUnique([4, 16, 256, 4096, 65536][i], [3, 5, 9, 13, 17][i]);
  }

  lemma FalseFirst(n: nat)
    ensures Zeros(n + 1) == [false] + Zeros(n) == Zeros(n) + [false]
  {
  }

  lemma {:induction false} LadderFrom(difference: nat, current: nat, i: nat)
    requires i <= |BUCKETS| && difference >= RungFloor(i)
    ensures difference >= 2
    ensures LadderBits(difference, current, 0) == Zeros(i) + LadderBits(difference, current, i)
  {
    hide LadderBits;
    if i > 0 {
      RungsAscend(i - 1);
      LadderFrom(difference, current, i - 1);
      RungTooSmall(difference, current, i - 1);
      FalseFirst(i - 1);
    }
  }

  /** The tier at rung i: a flag for the single bit and each rung passed, a set flag, and the payload. */
  lemma TierBits(previous: nat, current: nat, i: nat, least: nat, w: nat)
    requires i < |BUCKETS| && previous + BUCKETS[i].min <= current <= previous + BUCKETS[i].max
    requires least == [2, 7, 24, 281, 4378][i] && w == [3, 5, 9, 13, 17][i]
    ensures RelativeBits(previous, current) == (Zeros(i + 1) + [true]) + ToBits(current - previous - least, w)
  {
    hide LadderBits, BitLen, ToBits;
    var d := current - previous;
    BucketNumbers(i);
    LadderFrom(d, current, i);
    RungHolds(d, current, i);
    hide BucketField;
    FalseFirst(i);
    SeqAssoc([false], Zeros(i), [true] + ToBits(d - least, w));
    SeqAssoc(Zeros(i + 1), [true], ToBits(d - least, w));
  }

  lemma TierFlags()
    ensures Zeros(1) + [true] == [false, true]
    ensures Zeros(2) + [true] == [false, false, true]
    ensures Zeros(3) + [true] == [false, false, false, true]
    ensures Zeros(4) + [true] == [false, false, false, false, true]
    ensures Zeros(5) + [true] == [false, false, false, false, false, true]
    ensures Zeros(6) == [false, false, false, false, false, false]
  {
  }

  lemma LadderBottom(difference: nat, current: nat)
    requires difference >= RungFloor(|BUCKETS|)
    ensures LadderBits(difference, current, |BUCKETS|) == ToBits(current, 32)
  {
  }

  lemma AbsoluteBits(previous: nat, current: nat)
    requires current - previous > BOUNDED_MAX
    ensures RelativeBits(previous, current) == Zeros(6) + ToBits(current, 32)
  {
    hide LadderBits, ToBits;
    LadderFrom(current - previous, current, |BUCKETS|);
    LadderBottom(current - previous, current);
    FalseFirst(5);
  }

  lemma OneApart(previous: nat, current: nat)
    requires current == previous + 1
    ensures RelativeBits(previous, current) == [true]
  {
  }

  lemma TierChosen(previous: nat, current: nat)
    requires previous < current
    ensures var s, d := RelativeBits(previous, current), current - previous;
            && (d == 1 ==> s == [true])
            && (2 <= d <= 6 ==> s == [false, true] + ToBits(d - 2, 3))
            && (7 <= d <= 23 ==> s == [false, false, true] + ToBits(d - 7, 5))
            && (24 <= d <= 280 ==> s == [false, false, false, true] + ToBits(d - 24, 9))
            && (281 <= d <= 4377 ==> s == [false, false, false, false, true] + ToBits(d - 281, 13))
            && (4378 <= d <= 69914 ==> s == [false, false, false, false, false, true] + ToBits(d - 4378, 17))
            && (69914 < d ==> s == [false, false, false, false, false, false] + ToBits(current, 32))
  {
    hide RelativeBits, ToBits, Zeros;
    TierFlags();
    var d := current - previous;
    if d == 1 {
      OneApart(previous, current);
    } else if d <= 6 {
      TierBits(previous, current, 0, 2, 3);
    } else if d <= 23 {
      TierBits(previous, current, 1, 7, 5);
    } else if d <= 280 {
      TierBits(previous, current, 2, 24, 9);
    } else if d <= 4377 {
      TierBits(previous, current, 3, 281, 13);
    } else if d <= 69914 {
      TierBits(previous, current, 4, 4378, 17);
    } else {
      AbsoluteBits(previous, current);
    }
  }

  /** The tiers, by the difference they carry: unset flags, a set one, and the offset from the tier's least. */
  lemma RelativeLayout(previous: int32, v: Value, pos: nat)
    ensures Legal(IntRelative(previous), v) <==> v.Num? && 0 <= previous < v.n <= 0x7FFF_FFFF
    ensures Legal(IntRelative(previous), v) ==>
              var s, d := Encode(IntRelative(previous), v, pos), v.n - previous;
              && (d == 1 ==> s == [true])
              && (2 <= d <= 6 ==> s == [false, true] + ToBits(d - 2, 3))
              && (7 <= d <= 23 ==> s == [false, false, true] + ToBits(d - 7, 5))
              && (24 <= d <= 280 ==> s == [false, false, false, true] + ToBits(d - 24, 9))
              && (281 <= d <= 4377 ==> s == [false, false, false, false, true] + ToBits(d - 281, 13))
              && (4378 <= d <= 69914 ==> s == [false, false, false, false, false, true] + ToBits(d - 4378, 17))
              && (69914 < d ==> s == [false, false, false, false, false, false] + ToBits(v.n, 32))
  {
    hide RelativeBits, ToBits;
    if Legal(IntRelative(previous), v) {
      TierChosen(previous, v.n);
    }
  }

  // ---- what a reader makes of any bits ----

  lemma ReadGives(op: Op, bits: seq<bool>, pos: nat)
    requires pos <= |bits| && Take(op, bits, pos).Ok? && Read(op, bits, pos)
    ensures var o := Take(op, bits, pos);
            && Legal(op, o.value) && o.next == pos + |Encode(op, o.value, pos)| <= |bits|
            && bits[pos..o.next] == Encode(op, o.value, pos)
  {
    hide Take, Legal, Encode;
  }

  lemma FieldOutcome(f: Numeric, bits: seq<bool>, pos: nat)
    requires pos <= |bits| && (f.pattern != AnyPattern ==> f.span == Pow2(f.width) - 1)
    ensures var w, o := f.width, TakeNumeric(f, bits, pos);
            if pos + w > |bits| then o == No(PastEnd, pos)
            else o.Ok? || o == No(if f.pattern != AnyPattern then NonFiniteFloat else ValueOutOfRange, pos + w)
  {
    hide FromBits, Pow2;
    if pos + f.width <= |bits| {
      FromBitsBound(bits[pos..pos + f.width]);
    }
  }

  lemma PatternIsFloat(op: Op)
    requires IsNumeric(op) && NumericOf(op).Some?
    ensures var f := NumericOf(op).value;
            && (f.pattern != AnyPattern <==> op.Float32? || op.Float64?)
            && (f.pattern != AnyPattern ==> f.span == Pow2(f.width) - 1)
  {
    hide BitLen, Pow2, QFormat;
  }

  lemma NumericOutcome(op: Op, bits: seq<bool>, pos: nat)
    requires IsNumeric(op) && NumericOf(op).Some? && pos <= |bits|
    ensures var w, o := NumericOf(op).value.width, Take(op, bits, pos);
            if pos + w > |bits| then o == No(PastEnd, pos)
            else o.Ok? || o == No(if op.Float32? || op.Float64? then NonFiniteFloat else ValueOutOfRange, pos + w)
  {
    hide NumericOf, Take, TakeNumeric, Pow2;
    NumericForm(op, Unit, bits, pos);
    PatternIsFloat(op);
    FieldOutcome(NumericOf(op).value, bits, pos);
  }

  lemma SameWidth(op: Op, v: Value, pos: nat)
    requires IsNumeric(op) && Legal(op, v)
    ensures NumericOf(op).Some? && |Encode(op, v, pos)| == NumericOf(op).value.width
  {
    hide Legal, Encode, NumericOf, ToBits;
    FieldForm(op, v, pos);
  }

  lemma Accepted(op: Op, bits: seq<bool>, pos: nat)
    requires IsNumeric(op) && pos <= |bits| && Take(op, bits, pos).Ok?
    ensures var o := Take(op, bits, pos);
            && Legal(op, o.value) && NumericOf(op).Some? && o.next == pos + NumericOf(op).value.width <= |bits|
            && Encode(op, o.value, pos) == bits[pos..o.next]
  {
    hide Take, Legal, Encode, NumericOf, Read;
    Canonical(op, bits, pos);
    ReadGives(op, bits, pos);
    SameWidth(op, Take(op, bits, pos).value, pos);
  }

  /** Bits a reader refuses are no legal value's. */
  lemma Unwritten(op: Op, u: Value, bits: seq<bool>, pos: nat)
    requires pos <= |bits| && Take(op, bits, pos).No? && Legal(op, u)
    requires pos + |Encode(op, u, pos)| <= |bits|
    ensures Encode(op, u, pos) != bits[pos..pos + |Encode(op, u, pos)|]
  {
    hide Take, Legal, Encode;
    if Encode(op, u, pos) == bits[pos..pos + |Encode(op, u, pos)|] {
      RoundTrip(op, u, bits, pos);
    }
  }

  /**
   A field of a declared width, read from bits that need not be anyone's: the one legal value written so, or the
   refusal. The width is that of any legal value.
   */
  lemma NumericRead(op: Op, v: Value, bits: seq<bool>, pos: nat)
    requires IsNumeric(op) && Legal(op, v) && pos <= |bits|
    ensures var w, o := |Encode(op, v, pos)|, Take(op, bits, pos);
            if pos + w > |bits| then o == No(PastEnd, pos)
            else if o.Ok? then o.next == pos + w && Legal(op, o.value) && Encode(op, o.value, pos) == bits[pos..pos + w]
            else && o == No(if op.Float32? || op.Float64? then NonFiniteFloat else ValueOutOfRange, pos + w)
                 && forall u | Legal(op, u) :: Encode(op, u, pos) != bits[pos..pos + w]
  {
    hide Take, Legal, Encode, NumericOf;
    SameWidth(op, v, pos);
    NumericOutcome(op, bits, pos);
    var w := NumericOf(op).value.width;
    if Take(op, bits, pos).Ok? {
      Accepted(op, bits, pos);
    } else if pos + w <= |bits| {
      var field := bits[pos..pos + w];
      forall u | Legal(op, u) ensures Encode(op, u, pos) != field {
        SameWidth(op, u, pos);
        Unwritten(op, u, bits, pos);
      }
    }
  }

  lemma LeastLegal(op: Op)
    requires IsNumeric(op)
    ensures NumericOf(op).Some? ==> exists v :: Legal(op, v)
  {
    hide BitLen, Pow2, QFormat, Legal;
    if NumericOf(op).Some? {
      var low := Num(NumericOf(op).value.low);
      FieldForm(op, low, 0);
      assert Legal(op, low);
    }
  }

  /** A declaration no value is legal for is refused before anything is read. */
  lemma BadDeclaration(op: Op, bits: seq<bool>, pos: nat)
    requires IsNumeric(op) && pos <= |bits| && forall v :: !Legal(op, v)
    ensures Take(op, bits, pos) == No(ValueOutOfRange, pos)
  {
    hide Take, Legal, NumericOf;
    NumericForm(op, Unit, bits, pos);
    LeastLegal(op);
  }

  /** A bit string other than zeros has a bit set. */
  lemma BitSet(s: seq<bool>)
    ensures s != Zeros(|s|) <==> exists i :: 0 <= i < |s| && s[i]
  {
    if s != Zeros(|s|) {
      var k :| 0 <= k < |s| && s[k] != Zeros(|s|)[k];
    }
  }

  lemma BitSetIn(s: seq<bool>, i: nat, j: nat)
    requires i <= j <= |s|
    ensures s[i..j] != Zeros(j - i) <==> exists k :: i <= k < j && s[k]
  {
    BitSet(s[i..j]);
    hide Zeros;
    if k :| 0 <= k < j - i && s[i..j][k] {
      assert s[i + k];
    }
    if k :| i <= k < j && s[k] {
      assert s[i..j][k - i];
    }
  }

  /** An align, read: past the end, then a set bit, then accepted. */
  lemma AlignRead(bits: seq<bool>, pos: nat, p: nat)
    requires pos <= |bits| && p < 8 && (pos + p) % 8 == 0
    ensures Take(Align, bits, pos)
         == if pos + p > |bits| then No(PastEnd, pos)
            else if exists i :: pos <= i < pos + p && bits[i] then No(NonzeroPadding, pos + p)
            else Ok(Unit, pos + p)
  {
    hide Zeros;
    assert p == AlignPad(pos);
    if pos + p <= |bits| {
      BitSetIn(bits, pos, pos + p);
    }
  }

  /** A byte block, read: its align, then its bytes when they are all there. */
  lemma BytesRead(n: nat, bits: seq<bool>, pos: nat)
    requires pos <= |bits|
    ensures var pad, o := Take(Align, bits, pos), Take(Op.Bytes(n), bits, pos);
            if pad.No? then o == pad
            else if pad.next + 8 * n > |bits| then o == No(PastEnd, pad.next)
            else o.Ok? && o.next == pad.next + 8 * n && o.value.Blob? && Unpack(o.value.bytes) == bits[pad.next..o.next]
  {
    hide Pack, Unpack, TakeAlign;
    var pad := TakeAlign(bits, pos);
    if pad.Ok? && pad.next + 8 * n <= |bits| {
      UnpackPack(bits[pad.next..pad.next + 8 * n]);
    }
  }

  /**
   A string, read: a bad buffer size, a length that is not there or too long, its byte block, a zero byte, and last of
   all text that is not Unicode.
   */
  lemma TextRead(size: int64, bits: seq<bool>, pos: nat, w: nat)
    requires pos <= |bits|
    requires size >= 1 ==> size - 1 < Pow2(w) && (w > 0 ==> Pow2(w - 1) <= size - 1)
    ensures var o := Take(Text(size), bits, pos);
            if !(1 <= size <= 0x7FFF_FFFF) then o == No(ValueOutOfRange, pos)
            else if pos + w > |bits| then o == No(PastEnd, pos)
            else
              var length := FromBits(bits[pos..pos + w]);
              if length >= size then o == No(ValueOutOfRange, pos + w)
              else
                var block := Take(Op.Bytes(length), bits, pos + w);
                if block.No? then o == block
                else
                  && block.value.Blob?
                  && var text := block.value.bytes;
                     if 0 in text then o == No(EmbeddedNul, block.next)
                     else if !IsUnicode(text) then o == No(InvalidUTF8, block.next)
                     else o == block
  {
    hide FromBits, Pow2, BitLen, WellFormed, IsUnicode, TakeBlob;
    if 1 <= size <= 0x7FFF_FFFF {
      WidthUnique(size - 1, w);
      if pos + w <= |bits| && FromBits(bits[pos..pos + w]) < size {
        var block := Take(Op.Bytes(FromBits(bits[pos..pos + w])), bits, pos + w);
        if block.Ok? {
          var text := block.value.bytes;
          WellFormedIsUnicode(text);
          assert HasNul(text) <==> 0 in text;
        }
      }
    }
  }

  lemma {:induction false} LadderReached(previous: nat, bits: seq<bool>, pos: nat, k: nat)
    requires 1 <= k <= 6 && pos + k <= |bits| && forall i | pos <= i < pos + k :: !bits[i]
    ensures TakeRelative(previous, bits, pos) == TakeLadder(previous, bits, pos + k, k - 1)
  {
    hide At, TakeLadder, TakeNumeric;
    if k == 1 {
      FlagReads(bits, pos);
    } else {
      LadderReached(previous, bits, pos, k - 1);
      FlagUnset(previous, bits, pos + k - 1, k - 2);
    }
  }

  /** A ladder that runs out before its flags do is past the end, where it ran out. */
  lemma LadderRunsOut(previous: int32, bits: seq<bool>, pos: nat)
    requires pos <= |bits| < pos + 6 && forall i | pos <= i < |bits| :: !bits[i]
    ensures Take(IntRelative(previous), bits, pos)
         == if previous < 0 then No(ValueOutOfRange, pos) else No(PastEnd, |bits|)
  {
    hide At, TakeNumeric;
    FlagReads(bits, |bits|);
    if previous >= 0 && pos < |bits| {
      LadderReached(previous, bits, pos, |bits| - pos);
    }
  }

  lemma RelativeTaken(previous: int32, bits: seq<bool>, pos: nat)
    requires pos <= |bits|
    ensures Take(IntRelative(previous), bits, pos) == TakeRelative(previous, bits, pos)
    ensures previous < 0 ==> TakeRelative(previous, bits, pos) == No(ValueOutOfRange, pos)
    ensures previous >= 0 && pos < |bits| && bits[pos] ==>
              TakeRelative(previous, bits, pos) == RelativeResult(previous, previous + 1, pos + 1)
  {
    hide At, TakeNumeric, TakeLadder;
    FlagReads(bits, pos);
  }

  lemma FieldRead(f: Numeric, bits: seq<bool>, pos: nat)
    requires pos <= |bits| && f.pattern == AnyPattern
    ensures TakeNumeric(f, bits, pos)
         == if pos + f.width > |bits| then No(PastEnd, pos)
            else
              var n := FromBits(bits[pos..pos + f.width]);
              if n > f.span then No(ValueOutOfRange, pos + f.width) else Ok(Num(f.low + n), pos + f.width)
  {
    hide FromBits;
  }

  lemma AbsoluteRead(previous: nat, bits: seq<bool>, pos: nat)
    requires pos <= |bits|
    ensures var o := TakeLadder(previous, bits, pos, |BUCKETS|);
            if pos + 32 > |bits| then o == No(PastEnd, pos)
            else
              var n := FromBits(bits[pos..pos + 32]);
              if !(previous < n <= 0x7FFF_FFFF) then o == No(ValueOutOfRange, pos + 32)
              else if n - previous <= 69914 then o == No(NonCanonical, pos + 32)
              else o == Ok(Num(n), pos + 32)
  {
    hide FromBits, TakeNumeric;
    RawAccepts(32, bits, pos);
  }

  lemma TierRead(previous: nat, bits: seq<bool>, pos: nat, k: nat)
    requires 1 <= k < 6 && pos + k < |bits| && bits[pos + k] && forall i | pos <= i < pos + k :: !bits[i]
    ensures var o := TakeRelative(previous, bits, pos);
            var w, at := [0, 3, 5, 9, 13, 17, 32][k], pos + k + 1;
            if at + w > |bits| then o == No(PastEnd, at)
            else
              var n := FromBits(bits[at..at + w]);
              if n > [0, 4, 16, 256, 4096, 65536][k] then o == No(ValueOutOfRange, at + w)
              else o == RelativeResult(previous, previous + [1, 2, 7, 24, 281, 4378][k] + n, at + w)
  {
    hide At, FromBits, TakeLadder, TakeNumeric, TakeRelative, BitLen, BucketField, RelativeResult;
    LadderReached(previous, bits, pos, k);
    FlagSet(previous, bits, pos + k, k - 1);
    BucketNumbers(k - 1);
    FieldRead(BucketField(k - 1), bits, pos + k + 1);
  }

  /**
   A ladder of k unset flags, read: its payload past the end, past its span, outside the domain or not above previous,
   and last, from the absolute tier, a difference a bounded tier carries.
   */
  lemma RelativeRead(previous: int32, bits: seq<bool>, pos: nat, k: nat)
    requires k <= 6 && pos + k <= |bits|
    requires forall i | pos <= i < pos + k :: !bits[i]
    requires k < 6 ==> pos + k < |bits| && bits[pos + k]
    ensures var o := Take(IntRelative(previous), bits, pos);
            var w, at := [0, 3, 5, 9, 13, 17, 32][k], pos + (if k < 6 then k + 1 else 6);
            if previous < 0 then o == No(ValueOutOfRange, pos)
            else if at + w > |bits| then o == No(PastEnd, at)
            else
              var n := FromBits(bits[at..at + w]);
              var current := if k < 6 then previous + [1, 2, 7, 24, 281, 4378][k] + n else n;
              if k < 6 && n > [0, 4, 16, 256, 4096, 65536][k] then o == No(ValueOutOfRange, at + w)
              else if !(previous < current <= 0x7FFF_FFFF) then o == No(ValueOutOfRange, at + w)
              else if k == 6 && current - previous <= 69914 then o == No(NonCanonical, at + w)
              else o == Ok(Num(current), at + w)
  {
    hide At, FromBits, TakeLadder, TakeNumeric, TakeRelative, BitLen, BucketField, Take;
    RelativeTaken(previous, bits, pos);
    if previous >= 0 {
      if k == 0 {
        NothingRead(bits, pos + 1);
      } else if k < 6 {
        TierRead(previous, bits, pos, k);
      } else {
        LadderReached(previous, bits, pos, 6);
        AbsoluteRead(previous, bits, pos + 6);
      }
    }
  }

  /** The end of a packet: a whole byte left, then a set bit, then accepted, with nothing left. */
  lemma EndRead(bits: seq<bool>, pos: nat)
    requires pos <= |bits|
    ensures TakeEnd(bits, pos)
         == if pos + 8 <= |bits| then No(TrailingData, pos)
            else if exists i :: pos <= i < |bits| && bits[i] then No(NonzeroPadding, |bits|)
            else Ok(Unit, |bits|)
  {
    hide Zeros;
    assert bits[pos..] == bits[pos..|bits|];
    BitSetIn(bits, pos, |bits|);
  }

  // ---- objects ----

  lemma {:induction false} LegalConcat(a: seq<Op>, b: seq<Op>, us: seq<Value>, vs: seq<Value>)
    requires LegalAll(a, us) && LegalAll(b, vs)
    ensures LegalAll(a + b, us + vs)
    decreases a
  {
    hide Legal;
    if a == [] {
      assert a + b == b && us + vs == vs;
    } else {
      assert (a + b)[1..] == a[1..] + b && (us + vs)[1..] == us[1..] + vs;
      LegalConcat(a[1..], b, us[1..], vs);
    }
  }

  lemma FirstField(ops: seq<Op>, vs: seq<Value>, pos: nat)
    requires LegalAll(ops, vs)
    ensures |ops| == |vs|
    ensures ops == [] ==> EncodeAll(ops, vs, pos) == []
    ensures ops != [] ==>
              && Legal(ops[0], vs[0]) && LegalAll(ops[1..], vs[1..])
              && var first := Encode(ops[0], vs[0], pos);
                 EncodeAll(ops, vs, pos) == first + EncodeAll(ops[1..], vs[1..], pos + |first|)
  {
    hide Legal, Encode;
  }

  lemma {:induction false} FieldsConcat(a: seq<Op>, b: seq<Op>, us: seq<Value>, vs: seq<Value>, pos: nat)
    requires LegalAll(a, us) && LegalAll(b, vs) && LegalAll(a + b, us + vs)
    ensures EncodeAll(a + b, us + vs, pos)
         == EncodeAll(a, us, pos) + EncodeAll(b, vs, pos + |EncodeAll(a, us, pos)|)
    decreases a
  {
    hide Legal, Encode, LegalAll, EncodeAll;
    FirstField(a, us, pos);
    if a == [] {
      assert a + b == b && us + vs == vs;
    } else {
      assert (a + b)[1..] == a[1..] + b && (us + vs)[1..] == us[1..] + vs;
      assert (a + b)[0] == a[0] && (us + vs)[0] == us[0];
      FirstField(a + b, us + vs, pos);
      var first := Encode(a[0], us[0], pos);
      FieldsConcat(a[1..], b, us[1..], vs, pos + |first|);
      var more := EncodeAll(a[1..], us[1..], pos + |first|);
      SeqAssoc(first, more, EncodeAll(b, vs, pos + |first| + |more|));
    }
  }

  lemma {:induction false} MeasureConcat(a: seq<Op>, b: seq<Op>, us: seq<Value>, vs: seq<Value>)
    requires LegalAll(a, us) && LegalAll(b, vs) && LegalAll(a + b, us + vs)
    ensures MeasureAll(a + b, us + vs) == MeasureAll(a, us) + MeasureAll(b, vs)
    decreases a
  {
    hide Legal, Measure;
    if a == [] {
      assert a + b == b && us + vs == vs;
    } else {
      assert (a + b)[1..] == a[1..] + b && (us + vs)[1..] == us[1..] + vs;
      MeasureConcat(a[1..], b, us[1..], vs);
    }
  }

  lemma OneField(op: Op, v: Value, pos: nat)
    requires Legal(op, v)
    ensures LegalAll([op], [v]) && EncodeAll([op], [v], pos) == Encode(op, v, pos)
    ensures MeasureAll([op], [v]) == Measure(op, v)
  {
    hide Legal, Encode, Measure;
  }

  /** A nested object adds nothing of its own: its fields stand where the object does, and cost what they cost. */
  lemma ObjectIsInline(fields: seq<Op>, rest: seq<Op>, us: seq<Value>, vs: seq<Value>, pos: nat)
    requires LegalAll(fields, us) && LegalAll(rest, vs)
    ensures LegalAll([Object(fields)] + rest, [Fields(us)] + vs) && LegalAll(fields + rest, us + vs)
    ensures EncodeAll([Object(fields)] + rest, [Fields(us)] + vs, pos) == EncodeAll(fields + rest, us + vs, pos)
    ensures MeasureAll([Object(fields)] + rest, [Fields(us)] + vs) == MeasureAll(fields + rest, us + vs)
  {
    hide Legal, LegalAll, Encode, EncodeAll, Measure, MeasureAll;
    EncodeOfObject(fields, us, pos);
    OneField(Object(fields), Fields(us), pos);
    LegalConcat([Object(fields)], rest, [Fields(us)], vs);
    LegalConcat(fields, rest, us, vs);
    FieldsConcat([Object(fields)], rest, [Fields(us)], vs, pos);
    FieldsConcat(fields, rest, us, vs, pos);
    MeasureConcat([Object(fields)], rest, [Fields(us)], vs);
    MeasureConcat(fields, rest, us, vs);
  }

  lemma {:induction false} TakeConcat(a: seq<Op>, b: seq<Op>, bits: seq<bool>, pos: nat)
    requires pos <= |bits|
    ensures var first, whole := TakeAll(a, bits, pos), TakeAll(a + b, bits, pos);
            if first.No? then whole == first
            else
              && |first.value.values| == |a|
              && var second := TakeAll(b, bits, first.next);
                 if second.No? then whole == second
                 else whole == Ok(Fields(first.value.values + second.value.values), second.next)
    decreases a
  {
    hide Take;
    if a == [] {
      assert a + b == b;
    } else {
      assert (a + b)[0] == a[0] && (a + b)[1..] == a[1..] + b;
      var o := Take(a[0], bits, pos);
      if o.Ok? {
        TakeConcat(a[1..], b, bits, o.next);
        var first := TakeAll(a[1..], bits, o.next);
        if first.Ok? {
          var second := TakeAll(b, bits, first.next);
          if second.Ok? {
            SeqAssoc([o.value], first.value.values, second.value.values);
          }
        }
      }
    }
  }

  lemma TakeOne(op: Op, bits: seq<bool>, pos: nat)
    requires pos <= |bits|
    ensures TakeAll([op], bits, pos)
         == match Take(op, bits, pos)
            case Ok(v, next) => Ok(Fields([v]), next)
            case No(reason, next) => No(reason, next)
  {
    hide Take;
  }

  /** A reader takes a nested object as it takes the same fields unnested: same refusal, same values, same end. */
  lemma ObjectReadsInline(fields: seq<Op>, rest: seq<Op>, bits: seq<bool>, pos: nat)
    requires pos <= |bits|
    ensures var nested, flat := TakeAll([Object(fields)] + rest, bits, pos), TakeAll(fields + rest, bits, pos);
            if flat.No? then nested == flat
            else
              && |flat.value.values| >= |fields|
              && var vs, n := flat.value.values, |fields|;
                 nested == Ok(Fields([Fields(vs[..n])] + vs[n..]), flat.next)
  {
    hide Take, TakeAll;
    TakeConcat([Object(fields)], rest, bits, pos);
    TakeConcat(fields, rest, bits, pos);
    TakeOne(Object(fields), bits, pos);
    TakeOfObject(fields, bits, pos);
  }

  // ---- the measure and the reasons ----

  lemma NumberMeasure(op: Op, v: Value)
    requires IsNumeric(op) && Legal(op, v)
    ensures NumericOf(op).Some? && Measure(op, v) == NumericOf(op).value.width
  {
    hide NumericOf;
  }

  /** What a measure counts: 7 for an align wherever it lands, and the exact width of everything else. */
  lemma MeasureLayout(op: Op, v: Value, pos: nat)
    requires Legal(op, v)
    ensures op.Align? ==> Measure(op, v) == 7
    ensures op.Bytes? ==> Measure(op, v) == 7 + 8 * |v.bytes|
    ensures IsNumeric(op) ==> Measure(op, v) == |Encode(op, v, pos)|
    ensures op.IntRelative? ==>
              var d := v.n - op.previous;
              Measure(op, v) == if d == 1 then 1 else if d <= 6 then 5 else if d <= 23 then 8 else if d <= 280 then 13
                                else if d <= 4377 then 18 else if d <= 69914 then 23 else 38
  {
    hide RelativeBits, ToBits, Encode, TakeNumeric, MeasureAll, LegalAll, WellFormed, HasNul;
    if IsNumeric(op) {
      hide Measure, Legal;
      FieldForm(op, v, pos);
      NumberMeasure(op, v);
    } else if op.IntRelative? {
      TierChosen(op.previous, v.n);
    }
  }

  /** A string is measured as its length field, the align and its bytes. */
  lemma TextMeasure(size: int64, v: Value, w: nat)
    requires Legal(Text(size), v) && size - 1 < Pow2(w) && (w > 0 ==> Pow2(w - 1) <= size - 1)
    ensures Measure(Text(size), v) == w + 7 + 8 * |v.bytes|
  {
    hide BitLen, Pow2, WellFormed, HasNul;
    WidthUnique(size - 1, w);
  }

  /** The closed list in its order; a reason outside it is the caller refusing without saying why. */
  lemma ReasonsClosed(reason: nat)
    ensures 1 <= reason <= 9 ==>
              ClosedRefusal(reason) == [PastEnd, ValueOutOfRange, NonzeroPadding, TrailingData, NonFiniteFloat,
                                        InvalidUTF8, EmbeddedNul, NonCanonical, Rejected][reason - 1]
    ensures reason == 0 || 9 < reason ==> ClosedRefusal(reason) == Rejected
  {
  }

  // ---- a worked message ----

  lemma TwoBytes(a: byte, b: byte)
    ensures Unpack([a, b]) == ToBits(a + 0x100 * b, 16)
  {
    Pow2Eight();
    hide Pow2, ToBits;
    assert [a, b][1..] == [b] && [b][1..] == [];
    FromBitsOfToBits(a, 8);
    FromBitsOfToBits(b, 8);
    FromBitsConcat(ToBits(a, 8), ToBits(b, 8));
    ToBitsOfFromBits(ToBits(a, 8) + ToBits(b, 8));
  }

  lemma PaddedByte(a: byte, w: nat)
    requires w <= 8 && a < Pow2(w)
    ensures Unpack([a]) == ToBits(a, w) + Zeros(8 - w)
  {
    hide Pow2, ToBits;
    assert [a][1..] == [];
    ToBitsSplit(a, w, 8 - w);
    ShrIsDiv(a, w);
    DivModUnique(a, Pow2(w), 0, a);
    ZeroBits(8 - w);
  }

  lemma AddField(op: Op, v: Value, ops: seq<Op>, vs: seq<Value>, pos: nat)
    requires Legal(op, v) && LegalAll(ops, vs)
    ensures LegalAll([op] + ops, [v] + vs)
    ensures EncodeAll([op] + ops, [v] + vs, pos)
         == Encode(op, v, pos) + EncodeAll(ops, vs, pos + |Encode(op, v, pos)|)
  {
    hide Legal, Encode;
    assert ([op] + ops)[1..] == ops && ([v] + vs)[1..] == vs;
  }

  lemma WorkedText()
    ensures EncodeScalars([0x7881, 0x77F3]) == [0xE7, 0xA2, 0x81, 0xE7, 0x9F, 0xB3]
  {
    var cs: seq<scalar> := [0x7881, 0x77F3];
    assert cs[1..] == [0x77F3] && cs[1..][1..] == [];
  }

  lemma SixteenPowers()
    ensures Pow2(2) == 4 && Pow2(3) == 8 && Pow2(7) == 128 && Pow2(8) == 256 && Pow2(15) == 32768 && Pow2(16) == 65536
  {
  }

  lemma WorkedField(pos: nat)
    ensures var op := Fixed64(8, 8, -100, 100);
            Legal(op, Num(-832)) && Encode(op, Num(-832), pos) == ToBits(24768, 16)
  {
    var op := Fixed64(8, 8, -100, 100);
    SixteenPowers();
    hide Pow2, ToBits, BitLen, Legal, Encode;
    FixedLayout(op, 8, 8, -100, 100, Num(-832), pos);
    WidthUnique(51200, 16);
    WidthUnique(51200, |Encode(op, Num(-832), pos)|);
  }

  lemma WorkedString(text: seq<byte>)
    requires text == EncodeScalars([0x7881, 0x77F3]) && |text| == 6 && 0 !in text
    ensures Legal(Text(8), Blob(text))
    ensures Encode(Text(8), Blob(text), 0) == ToBits(6, 3) + (Zeros(5) + Unpack(text))
  {
    SixteenPowers();
    hide Pow2, ToBits, BitLen, Legal, Encode, Unpack, Zeros, EncodeScalars;
    assert IsUnicode(text);
    TextLayout(8, Blob(text), 0, 3, 5);
  }

  lemma NoZeros()
    ensures Zeros(0) == []
  {
  }

  lemma WorkedTail()
    ensures var ops, vs := [Align, Fixed64(8, 8, -100, 100)], [Unit, Num(-832)];
            LegalAll(ops, vs) && EncodeAll(ops, vs, 56) == ToBits(24768, 16)
  {
    hide ToBits, Legal, Encode, Zeros, LegalAll, EncodeAll;
    var field := Fixed64(8, 8, -100, 100);
    BytesLayout(0, Unit, 56, 0);
    WorkedField(56);
    OneField(field, Num(-832), 56);
    NoZeros();
    AddField(Align, Unit, [field], [Num(-832)], 56);
    assert [Align] + [field] == [Align, field] && [Unit] + [Num(-832)] == [Unit, Num(-832)];
  }

  lemma WorkedBits(text: seq<byte>)
    requires text == EncodeScalars([0x7881, 0x77F3]) && |text| == 6 && 0 !in text
    ensures var ops, vs := [Text(8), Align, Fixed64(8, 8, -100, 100)], [Blob(text), Unit, Num(-832)];
            && LegalAll(ops, vs)
            && EncodeAll(ops, vs, 0) == (ToBits(6, 3) + (Zeros(5) + Unpack(text))) + ToBits(24768, 16)
  {
    hide ToBits, Legal, Encode, Unpack, Zeros, EncodeScalars, LegalAll, EncodeAll;
    WorkedString(text);
    WorkedTail();
    var ops, vs := [Align, Fixed64(8, 8, -100, 100)], [Unit, Num(-832)];
    AddField(Text(8), Blob(text), ops, vs, 0);
    assert [Text(8)] + ops == [Text(8), Align, Fixed64(8, 8, -100, 100)];
    assert [Blob(text)] + vs == [Blob(text), Unit, Num(-832)];
  }

  lemma WorkedBytes(text: seq<byte>)
    ensures Unpack([0x06] + (text + [0xC0, 0x60])) == (ToBits(6, 3) + (Zeros(5) + Unpack(text))) + ToBits(24768, 16)
  {
    SixteenPowers();
    hide Pow2, ToBits, Unpack, Zeros;
    PaddedByte(6, 3);
    TwoBytes(0xC0, 0x60);
    UnpackConcat([0x06], text + [0xC0, 0x60]);
    UnpackConcat(text, [0xC0, 0x60]);
    SeqAssoc(ToBits(6, 3), Zeros(5), Unpack(text));
    SeqAssoc(ToBits(6, 3) + Zeros(5), Unpack(text), ToBits(24768, 16));
  }

  lemma WholePacket(ops: seq<Op>, vs: seq<Value>, packet: seq<byte>)
    requires LegalAll(ops, vs) && EncodeAll(ops, vs, 0) == Unpack(packet)
    ensures Packet(ops, vs) == packet
  {
    hide LegalAll, EncodeAll, Unpack, Packet;
    PacketBits(ops, vs);
    assert AlignPad(8 * |packet|) == 0;
    NoZeros();
    UnpackInjective(Packet(ops, vs), packet);
  }

  /** The documented bytes of a string of two characters, an align and a fixed-point field. */
  lemma WorkedMessage()
    ensures var text: seq<byte> := [0xE7, 0xA2, 0x81, 0xE7, 0x9F, 0xB3];
            var ops, vs := [Text(8), Align, Fixed64(8, 8, -100, 100)], [Blob(text), Unit, Num(-832)];
            && text == EncodeScalars([0x7881, 0x77F3])
            && LegalAll(ops, vs) && Packet(ops, vs) == [0x06] + (text + [0xC0, 0x60])
  {
    hide LegalAll, EncodeAll, Unpack, Packet, EncodeScalars, ToBits, Zeros;
    var text: seq<byte> := [0xE7, 0xA2, 0x81, 0xE7, 0x9F, 0xB3];
    WorkedText();
    WorkedBits(text);
    WorkedBytes(text);
    WholePacket([Text(8), Align, Fixed64(8, 8, -100, 100)], [Blob(text), Unit, Num(-832)],
                [0x06] + (text + [0xC0, 0x60]));
  }
}
