/** One value, one encoding: what an operation reads is exactly what a writer puts there. */
module Codec {
  import opened Bits
  import opened Words
  import opened Utf8
  import opened Wire

  /** s stands in bits at pos. */
  predicate At(bits: seq<bool>, pos: nat, s: seq<bool>) {
    pos + |s| <= |bits| && bits[pos..pos + |s|] == s
  }

  lemma AtConcat(bits: seq<bool>, pos: nat, a: seq<bool>, b: seq<bool>)
    ensures At(bits, pos, a + b) <==> At(bits, pos, a) && At(bits, pos + |a|, b)
  {
    if pos + |a| + |b| <= |bits| {
      var s := bits[pos..pos + |a| + |b|];
      assert s[..|a|] == bits[pos..pos + |a|];
      assert s[|a|..] == bits[pos + |a|..pos + |a| + |b|];
      assert (a + b)[..|a|] == a && (a + b)[|a|..] == b;
      assert s == s[..|a|] + s[|a|..];
    }
  }

  /** A numeric field whose width holds its span. */
  predicate Sized(f: Numeric) {
    f.span < Pow2(f.width)
  }

  lemma RangedIsSized(low: int, high: int)
    requires low <= high
    ensures Sized(Ranged(low, high))
  {
    BitLenLeast(high - low, BitLen(high - low));
  }

  lemma ScaledIsSized(ib: int, fb: int, min: int, max: int)
    requires QFormat(ib, fb, min, max)
    ensures Sized(Scaled(ib, fb, min, max).value)
  {
    MulMonotone(min, max, Pow2(fb));
    RangedIsSized(min * Pow2(fb), max * Pow2(fb));
  }

  lemma NumericIsSized(op: Op)
    requires NumericOf(op).Some?
    ensures Sized(NumericOf(op).value)
  {
    match op
    case RangedInt(min, max) => RangedIsSized(min, max);
    case RangedInt64(min, max) => RangedIsSized(min, max);
    case RangedInt128(min, max) => RangedIsSized(min, max);
    case Fixed64(ib, fb, min, max) => ScaledIsSized(ib, fb, min, max);
    case Fixed128(ib, fb, min, max) => ScaledIsSized(ib, fb, min, max);
    case _ =>
  }

  // ---- operation by operation: what is read was written, and what is written is read ----

  lemma NumericReads(f: Numeric, bits: seq<bool>, pos: nat)
    requires Sized(f) && pos <= |bits| && TakeNumeric(f, bits, pos).Ok?
    ensures var o := TakeNumeric(f, bits, pos);
            Fits(f, o.value.n) && o.next == pos + f.width && At(bits, pos, EncodeNumeric(f, o.value.n))
  {
    ToBitsOfFromBits(bits[pos..pos + f.width]);
  }

  lemma NumericWrites(f: Numeric, n: int, bits: seq<bool>, pos: nat)
    requires Sized(f) && pos <= |bits| && Fits(f, n) && At(bits, pos, EncodeNumeric(f, n))
    ensures TakeNumeric(f, bits, pos) == Ok(Num(n), pos + f.width)
  {
    FromBitsOfToBits(n - f.low, f.width);
  }

  lemma AlignReads(bits: seq<bool>, pos: nat)
    requires pos <= |bits| && TakeAlign(bits, pos).Ok?
    ensures TakeAlign(bits, pos) == Ok(Unit, pos + AlignPad(pos)) && At(bits, pos, Zeros(AlignPad(pos)))
  {
  }

  lemma AlignWrites(bits: seq<bool>, pos: nat)
    requires pos <= |bits| && At(bits, pos, Zeros(AlignPad(pos)))
    ensures TakeAlign(bits, pos) == Ok(Unit, pos + AlignPad(pos))
  {
  }

  lemma AtSlice(bits: seq<bool>, pos: nat, n: nat)
    requires pos + n <= |bits|
    ensures At(bits, pos, bits[pos..pos + n])
  {
  }

  lemma BlobReads(n: nat, bits: seq<bool>, pos: nat)
    requires pos <= |bits| && TakeBlob(n, bits, pos).Ok?
    ensures var o := TakeBlob(n, bits, pos);
            && |o.value.bytes| == n && o.next == pos + |EncodeBlob(o.value.bytes, pos)|
            && At(bits, pos, EncodeBlob(o.value.bytes, pos))
  {
    hide At, Pack, Unpack, TakeAlign;
    assert TakeAlign(bits, pos).Ok?;
    AlignReads(bits, pos);
    var start := pos + AlignPad(pos);
    var payload := bits[start..start + 8 * n];
    AtSlice(bits, start, 8 * n);
    UnpackPack(payload);
    AtConcat(bits, pos, Zeros(AlignPad(pos)), payload);
  }

  lemma AtGives(bits: seq<bool>, pos: nat, s: seq<bool>)
    requires At(bits, pos, s)
    ensures pos + |s| <= |bits| && bits[pos..pos + |s|] == s
  {
  }

  lemma BlobWrites(bytes: seq<byte>, bits: seq<bool>, pos: nat)
    requires pos <= |bits| && At(bits, pos, EncodeBlob(bytes, pos))
    ensures TakeBlob(|bytes|, bits, pos) == Ok(Blob(bytes), pos + |EncodeBlob(bytes, pos)|)
  {
    hide At, Pack, Unpack, TakeAlign;
    AtConcat(bits, pos, Zeros(AlignPad(pos)), Unpack(bytes));
    AlignWrites(bits, pos);
    AtGives(bits, pos + AlignPad(pos), Unpack(bytes));
    PackUnpack(bytes);
  }

  lemma TextReads(size: int64, bits: seq<bool>, pos: nat)
    requires pos <= |bits| && TakeText(size, bits, pos).Ok?
    ensures var o := TakeText(size, bits, pos);
            && o.value.Blob? && LegalText(size, o.value.bytes)
            && o.next == pos + |EncodeText(size, o.value.bytes, pos)|
            && At(bits, pos, EncodeText(size, o.value.bytes, pos))
  {
    hide At, WellFormed, HasNul, BitLen, TakeBlob, TakeNumeric, EncodeBlob, ToBits;
    var f := Ranged(0, size - 1);
    RangedIsSized(0, size - 1);
    NumericReads(f, bits, pos);
    var length := TakeNumeric(f, bits, pos);
    BlobReads(length.value.n, bits, length.next);
    var text := TakeBlob(length.value.n, bits, length.next).value.bytes;
    AtConcat(bits, pos, EncodeNumeric(f, |text|), EncodeBlob(text, length.next));
  }

  lemma TextWrites(size: int64, text: seq<byte>, bits: seq<bool>, pos: nat)
    requires pos <= |bits| && LegalText(size, text)
    ensures At(bits, pos, EncodeText(size, text, pos)) ==>
              TakeText(size, bits, pos) == Ok(Blob(text), pos + |EncodeText(size, text, pos)|)
  {
    hide At, WellFormed, HasNul, BitLen, TakeBlob, TakeNumeric, EncodeBlob, ToBits;
    var f := Ranged(0, size - 1);
    RangedIsSized(0, size - 1);
    AtConcat(bits, pos, EncodeNumeric(f, |text|), EncodeBlob(text, pos + f.width));
    if At(bits, pos, EncodeText(size, text, pos)) {
      NumericWrites(f, |text|, bits, pos);
      AtGives(bits, pos, EncodeNumeric(f, |text|));
      BlobWrites(text, bits, pos + f.width);
    }
  }

  // ---- int_relative ----

  predicate InBucket(i: nat, difference: nat)
    requires i < |BUCKETS|
  {
    BUCKETS[i].min <= difference <= BUCKETS[i].max
  }

  /** The buckets partition the bounded differences, in order: each difference from 2 to 69914 lies in one. */
  lemma BucketsPartition(difference: nat)
    ensures |BUCKETS| == 5
    ensures forall i: nat :: i < 5 ==>
              (InBucket(i, difference)
               <==> 2 <= difference <= 69914
                    && i == if difference <= 6 then 0 else if difference <= 23 then 1 else if difference <= 280 then 2
                            else if difference <= 4377 then 3 else 4)
  {
  }

  lemma RungsAscend(i: nat)
    requires i < |BUCKETS|
    ensures RungFloor(i + 1) == BUCKETS[i].max + 1 && BUCKETS[i].min <= BUCKETS[i].max
  {
  }

  lemma FlagReads(bits: seq<bool>, pos: nat)
    requires pos <= |bits|
    ensures pos < |bits| ==> TakeNumeric(Raw(1), bits, pos) == Ok(Num(if bits[pos] then 1 else 0), pos + 1)
    ensures pos == |bits| ==> TakeNumeric(Raw(1), bits, pos) == No(PastEnd, pos)
    ensures forall flag :: At(bits, pos, [flag]) <==> pos < |bits| && bits[pos] == flag
  {
    assert Pow2(1) == 2;
    if pos < |bits| {
      assert bits[pos..pos + 1] == [bits[pos]];
      assert FromBits([bits[pos]]) == if bits[pos] then 1 else 0;
    }
  }

  /** The bits at pos are the ladder, from rung i, of a current the rung may carry. */
  predicate LadderAt(previous: nat, current: int, i: nat, bits: seq<bool>, pos: nat)
    requires i <= |BUCKETS|
  {
    previous + RungFloor(i) <= current <= INT32_MAX && At(bits, pos, LadderBits(current - previous, current, i))
  }

  /** The bits a successful ladder read consumed are the ladder of the current it returned. */
  predicate LadderRead(previous: nat, bits: seq<bool>, pos: nat, i: nat)
    requires pos <= |bits| && i <= |BUCKETS| && TakeLadder(previous, bits, pos, i).Ok?
  {
    var o := TakeLadder(previous, bits, pos, i);
    && o.value.Num? && LadderAt(previous, o.value.n, i, bits, pos)
    && o.next == pos + |LadderBits(o.value.n - previous, o.value.n, i)|
  }

  lemma FlagUnset(previous: nat, bits: seq<bool>, pos: nat, i: nat)
    requires i < |BUCKETS| && pos < |bits| && !bits[pos]
    ensures TakeLadder(previous, bits, pos, i) == TakeLadder(previous, bits, pos + 1, i + 1)
  {
    hide At;
    FlagReads(bits, pos);
  }

  lemma FlagSet(previous: nat, bits: seq<bool>, pos: nat, i: nat)
    requires i < |BUCKETS| && pos < |bits| && bits[pos]
    ensures TakeLadder(previous, bits, pos, i)
         == var d := TakeNumeric(BucketField(i), bits, pos + 1);
            if d.No? then d else RelativeResult(previous, previous + d.value.n, d.next)
  {
    hide At, BitLen;
    FlagReads(bits, pos);
  }

  lemma FlagMissing(previous: nat, bits: seq<bool>, pos: nat, i: nat)
    requires i < |BUCKETS| && pos <= |bits| && TakeLadder(previous, bits, pos, i).Ok?
    ensures pos < |bits|
  {
    hide At, BitLen;
    FlagReads(bits, pos);
  }

  lemma RungHolds(difference: nat, current: nat, i: nat)
    requires i < |BUCKETS| && RungFloor(i) <= difference <= BUCKETS[i].max
    ensures LadderBits(difference, current, i) == [true] + EncodeNumeric(BucketField(i), difference)
  {
    hide BitLen, EncodeNumeric;
  }

  lemma BucketSized(i: nat)
    requires i < |BUCKETS|
    ensures Sized(BucketField(i))
    ensures forall d :: Fits(BucketField(i), d) <==> BUCKETS[i].min <= d <= BUCKETS[i].max
  {
    hide BitLen;
    RangedIsSized(BUCKETS[i].min, BUCKETS[i].max);
  }

  lemma AbsoluteReads(previous: nat, bits: seq<bool>, pos: nat)
    requires pos <= |bits| && TakeLadder(previous, bits, pos, |BUCKETS|).Ok?
    ensures LadderRead(previous, bits, pos, |BUCKETS|)
  {
    hide At, ToBits, Pow2, TakeNumeric, BitLen;
    NumericReads(Raw(32), bits, pos);
  }

  lemma RungTooSmall(difference: nat, current: nat, i: nat)
    requires i < |BUCKETS| && difference > BUCKETS[i].max
    ensures RungFloor(i + 1) <= difference
    ensures LadderBits(difference, current, i) == [false] + LadderBits(difference, current, i + 1)
  {
  }

  lemma RungSkipped(previous: nat, bits: seq<bool>, pos: nat, i: nat)
    requires i < |BUCKETS| && pos < |bits| && !bits[pos]
    requires TakeLadder(previous, bits, pos + 1, i + 1).Ok? && LadderRead(previous, bits, pos + 1, i + 1)
    ensures TakeLadder(previous, bits, pos, i) == TakeLadder(previous, bits, pos + 1, i + 1)
    ensures LadderRead(previous, bits, pos, i)
  {
    hide At, TakeLadder, LadderBits;
    FlagUnset(previous, bits, pos, i);
    FlagReads(bits, pos);
    RungsAscend(i);
    var current := TakeLadder(previous, bits, pos + 1, i + 1).value.n;
    RungTooSmall(current - previous, current, i);
    AtConcat(bits, pos, [false], LadderBits(current - previous, current, i + 1));
  }

  lemma BucketReads(previous: nat, bits: seq<bool>, pos: nat, i: nat)
    requires i < |BUCKETS| && pos < |bits| && bits[pos] && TakeLadder(previous, bits, pos, i).Ok?
    ensures LadderRead(previous, bits, pos, i)
  {
    hide At, TakeNumeric, EncodeNumeric, BucketField, Fits, Sized, TakeLadder, LadderBits;
    var f := BucketField(i);
    BucketSized(i);
    FlagReads(bits, pos);
    FlagSet(previous, bits, pos, i);
    NumericReads(f, bits, pos + 1);
    var d := TakeNumeric(f, bits, pos + 1).value.n;
    AtConcat(bits, pos, [true], EncodeNumeric(f, d));
    RungHolds(d, previous + d, i);
  }

  lemma {:induction false} LadderReads(previous: nat, bits: seq<bool>, pos: nat, i: nat)
    requires pos <= |bits| && i <= |BUCKETS| && TakeLadder(previous, bits, pos, i).Ok?
    ensures LadderRead(previous, bits, pos, i)
    decreases |BUCKETS| - i
  {
    hide TakeLadder, LadderRead;
    if i == |BUCKETS| {
      AbsoluteReads(previous, bits, pos);
    } else {
      FlagMissing(previous, bits, pos, i);
      if bits[pos] {
        BucketReads(previous, bits, pos, i);
      } else {
        FlagUnset(previous, bits, pos, i);
        LadderReads(previous, bits, pos + 1, i + 1);
        RungSkipped(previous, bits, pos, i);
      }
    }
  }

  lemma AbsoluteWrites(previous: nat, current: int, bits: seq<bool>, pos: nat)
    requires pos <= |bits| && LadderAt(previous, current, |BUCKETS|, bits, pos)
    ensures TakeLadder(previous, bits, pos, |BUCKETS|)
         == Ok(Num(current), pos + |LadderBits(current - previous, current, |BUCKETS|)|)
  {
    hide At, ToBits;
    Pow2Widths();
    NumericWrites(Raw(32), current, bits, pos);
  }

  lemma BucketWrites(previous: nat, current: int, bits: seq<bool>, pos: nat, i: nat)
    requires pos <= |bits| && i < |BUCKETS| && LadderAt(previous, current, i, bits, pos)
    requires current - previous <= BUCKETS[i].max
    ensures TakeLadder(previous, bits, pos, i)
         == Ok(Num(current), pos + |LadderBits(current - previous, current, i)|)
  {
    hide At, TakeNumeric, EncodeNumeric, BucketField, Fits, Sized, TakeLadder, LadderBits;
    var f, d := BucketField(i), current - previous;
    BucketSized(i);
    RungHolds(d, current, i);
    AtConcat(bits, pos, [true], EncodeNumeric(f, d));
    FlagReads(bits, pos);
    FlagSet(previous, bits, pos, i);
    NumericWrites(f, d, bits, pos + 1);
  }

  lemma {:induction false} LadderWrites(previous: nat, current: int, bits: seq<bool>, pos: nat, i: nat)
    requires pos <= |bits| && i <= |BUCKETS| && LadderAt(previous, current, i, bits, pos)
    ensures TakeLadder(previous, bits, pos, i)
         == Ok(Num(current), pos + |LadderBits(current - previous, current, i)|)
    decreases |BUCKETS| - i
  {
    hide At, TakeLadder, LadderBits;
    var d := current - previous;
    if i == |BUCKETS| {
      AbsoluteWrites(previous, current, bits, pos);
    } else if d <= BUCKETS[i].max {
      BucketWrites(previous, current, bits, pos, i);
    } else {
      RungTooSmall(d, current, i);
      AtConcat(bits, pos, [false], LadderBits(d, current, i + 1));
      FlagReads(bits, pos);
      FlagUnset(previous, bits, pos, i);
      LadderWrites(previous, current, bits, pos + 1, i + 1);
    }
  }

  /** The bits a successful read consumed are the ones a writer puts there for the value it returned. */
  predicate Read(op: Op, bits: seq<bool>, pos: nat)
    requires pos <= |bits| && Take(op, bits, pos).Ok?
  {
    var o := Take(op, bits, pos);
    && Legal(op, o.value)
    && o.next == pos + |Encode(op, o.value, pos)|
    && At(bits, pos, Encode(op, o.value, pos))
  }

  lemma RelativeReads(previous: int32, bits: seq<bool>, pos: nat)
    requires pos <= |bits| && TakeRelative(previous, bits, pos).Ok?
    ensures Read(IntRelative(previous), bits, pos)
  {
    hide At, LadderBits, TakeLadder;
    FlagReads(bits, pos);
    if !bits[pos] {
      LadderReads(previous, bits, pos + 1, 0);
      var current := TakeLadder(previous, bits, pos + 1, 0).value.n;
      AtConcat(bits, pos, [false], LadderBits(current - previous, current, 0));
    }
  }

  lemma RelativeWrites(previous: int32, v: Value, bits: seq<bool>, pos: nat)
    requires pos <= |bits| && Legal(IntRelative(previous), v) && At(bits, pos, RelativeBits(previous, v.n))
    ensures TakeRelative(previous, bits, pos) == Ok(v, pos + |RelativeBits(previous, v.n)|)
  {
    hide At, LadderBits, TakeLadder;
    FlagReads(bits, pos);
    if v.n - previous != 1 {
      AtConcat(bits, pos, [false], LadderBits(v.n - previous, v.n, 0));
      LadderWrites(previous, v.n, bits, pos + 1, 0);
    }
  }

  // ---- every operation, every message ----

  predicate ReadAll(ops: seq<Op>, bits: seq<bool>, pos: nat)
    requires pos <= |bits| && TakeAll(ops, bits, pos).Ok?
  {
    var o := TakeAll(ops, bits, pos);
    && LegalAll(ops, o.value.values)
    && o.next == pos + |EncodeAll(ops, o.value.values, pos)|
    && At(bits, pos, EncodeAll(ops, o.value.values, pos))
  }

  /** Reading, legality and encoding of a number are those of its declared field. */
  lemma NumericForm(op: Op, v: Value, bits: seq<bool>, pos: nat)
    requires IsNumeric(op) && pos <= |bits|
    ensures Take(op, bits, pos) == if NumericOf(op).None? then No(ValueOutOfRange, pos)
                                   else TakeNumeric(NumericOf(op).value, bits, pos)
    ensures Legal(op, v) <==> NumericOf(op).Some? && v.Num? && Fits(NumericOf(op).value, v.n)
    ensures Legal(op, v) ==> Encode(op, v, pos) == EncodeNumeric(NumericOf(op).value, v.n)
  {
    hide NumericOf, TakeNumeric, EncodeNumeric, Fits;
  }

  lemma CanonicalNumeric(op: Op, bits: seq<bool>, pos: nat)
    requires IsNumeric(op) && pos <= |bits| && Take(op, bits, pos).Ok?
    ensures Read(op, bits, pos)
  {
    hide At, Take, Legal, Encode, NumericOf, EncodeNumeric, Fits, Sized;
    NumericForm(op, Unit, bits, pos);
    NumericForm(op, Take(op, bits, pos).value, bits, pos);
    NumericIsSized(op);
    NumericReads(NumericOf(op).value, bits, pos);
  }

  /** Canonical: a reader accepts nothing a writer would not have produced. */
  lemma {:induction false} Canonical(op: Op, bits: seq<bool>, pos: nat)
    requires pos <= |bits| && Take(op, bits, pos).Ok?
    ensures Read(op, bits, pos)
    decreases op, 1
  {
    hide At, TakeAll, EncodeAll, LegalAll, TakeText, TakeBlob, TakeRelative, EncodeText, EncodeBlob, RelativeBits,
         LegalText, NumericOf, TakeNumeric, EncodeNumeric, Fits;
    match op
    case Align => AlignReads(bits, pos);
    case Bytes(n) => BlobReads(n, bits, pos);
    case Text(size) => TextReads(size, bits, pos);
    case IntRelative(previous) => RelativeReads(previous, bits, pos);
    case Object(fields) => CanonicalAll(fields, bits, pos);
    case _ => CanonicalNumeric(op, bits, pos);
  }

  lemma {:induction false} CanonicalAll(ops: seq<Op>, bits: seq<bool>, pos: nat)
    requires pos <= |bits| && TakeAll(ops, bits, pos).Ok?
    ensures ReadAll(ops, bits, pos)
    decreases ops, 0
  {
    hide At, Take, Encode, Legal;
    if ops == [] {
      AtSlice(bits, pos, 0);
    } else {
      Canonical(ops[0], bits, pos);
      var o := Take(ops[0], bits, pos);
      CanonicalAll(ops[1..], bits, o.next);
      var rest := TakeAll(ops[1..], bits, o.next).value.values;
      assert ([o.value] + rest)[1..] == rest;
      AtConcat(bits, pos, Encode(ops[0], o.value, pos), EncodeAll(ops[1..], rest, o.next));
    }
  }

  lemma RoundTripNumeric(op: Op, v: Value, bits: seq<bool>, pos: nat)
    requires IsNumeric(op) && pos <= |bits| && Legal(op, v)
    ensures At(bits, pos, Encode(op, v, pos)) ==> Take(op, bits, pos) == Ok(v, pos + |Encode(op, v, pos)|)
  {
    hide At, Take, Legal, Encode, NumericOf, TakeNumeric, EncodeNumeric, Fits, Sized;
    NumericForm(op, v, bits, pos);
    NumericIsSized(op);
    if At(bits, pos, Encode(op, v, pos)) {
      NumericWrites(NumericOf(op).value, v.n, bits, pos);
    }
  }

  /** Round trip: from any position, a reader takes back every legal value a writer put there. */
  lemma {:induction false} RoundTrip(op: Op, v: Value, bits: seq<bool>, pos: nat)
    requires pos <= |bits| && Legal(op, v) && At(bits, pos, Encode(op, v, pos))
    ensures Take(op, bits, pos) == Ok(v, pos + |Encode(op, v, pos)|)
    decreases op, 1
  {
    hide At, TakeAll, EncodeAll, LegalAll, TakeText, TakeBlob, TakeRelative, EncodeText, EncodeBlob, RelativeBits,
         LegalText, NumericOf, TakeNumeric, EncodeNumeric, TakeAlign, Fits;
    match op
    case Align => AlignWrites(bits, pos);
    case Bytes(n) => BlobWrites(v.bytes, bits, pos);
    case Text(size) => TextWrites(size, v.bytes, bits, pos);
    case IntRelative(previous) => RelativeWrites(previous, v, bits, pos);
    case Object(fields) => RoundTripAll(fields, v.values, bits, pos);
    case _ => RoundTripNumeric(op, v, bits, pos);
  }

  lemma {:induction false} RoundTripAll(ops: seq<Op>, vs: seq<Value>, bits: seq<bool>, pos: nat)
    requires pos <= |bits| && LegalAll(ops, vs) && At(bits, pos, EncodeAll(ops, vs, pos))
    ensures TakeAll(ops, bits, pos) == Ok(Fields(vs), pos + |EncodeAll(ops, vs, pos)|)
    decreases ops, 0
  {
    hide At, Take, Encode, Legal;
    if ops != [] {
      var first := Encode(ops[0], vs[0], pos);
      AtConcat(bits, pos, first, EncodeAll(ops[1..], vs[1..], pos + |first|));
      RoundTrip(ops[0], vs[0], bits, pos);
      RoundTripAll(ops[1..], vs[1..], bits, pos + |first|);
      assert [vs[0]] + vs[1..] == vs;
    }
  }

  // ---- what reads give, as the streams use it ----

  /** A raw field takes every pattern of its width. */
  lemma RawAccepts(n: nat, bits: seq<bool>, pos: nat)
    requires pos <= |bits|
    ensures TakeNumeric(Raw(n), bits, pos)
         == if pos + n > |bits| then No(PastEnd, pos) else Ok(Num(FromBits(bits[pos..pos + n])), pos + n)
  {
    if pos + n <= |bits| {
      FromBitsBound(bits[pos..pos + n]);
    }
  }

  lemma TakeOfRaw128(bits: seq<bool>, pos: nat)
    requires pos <= |bits|
    ensures Take(RawUint128, bits, pos)
         == if pos + 128 > |bits| then No(PastEnd, pos) else Ok(Num(FromBits(bits[pos..pos + 128])), pos + 128)
  {
    hide FromBits, Pow2;
    RawAccepts(128, bits, pos);
  }

  /** A floating point field is a raw field and then its finiteness test. */
  lemma PatternTake(f: Numeric, p: Pattern, bits: seq<bool>, pos: nat)
    requires pos <= |bits| && f.pattern == AnyPattern
    ensures var o := TakeNumeric(f, bits, pos);
            TakeNumeric(f.(pattern := p), bits, pos)
            == (if o.Ok? && !Finite(p, o.value.n) then No(NonFiniteFloat, o.next) else o)
  {
  }

  lemma EncodeOfObject(fields: seq<Op>, vs: seq<Value>, pos: nat)
    requires LegalAll(fields, vs)
    ensures Legal(Object(fields), Fields(vs)) && Encode(Object(fields), Fields(vs), pos) == EncodeAll(fields, vs, pos)
    ensures Measure(Object(fields), Fields(vs)) == MeasureAll(fields, vs)
  {
  }

  lemma EncodeOfRelative(previous: int32, current: int, pos: nat)
    requires 0 <= previous < current <= INT32_MAX
    ensures Legal(IntRelative(previous), Num(current))
    ensures Encode(IntRelative(previous), Num(current), pos) == RelativeBits(previous, current)
  {
  }

  lemma PadFits(pos: nat, whole: nat)
    requires pos <= 8 * whole
    ensures pos + AlignPad(pos) <= 8 * whole
  {
    var q, r := pos / 8, pos % 8;
    assert AlignPad(pos) == if r == 0 then 0 else 8 - r;
  }

  /** An align of whole bytes of data: its padding is always there. */
  lemma TakeOfAlign(bits: seq<bool>, pos: nat)
    requires pos <= |bits| && |bits| % 8 == 0
    ensures var next := pos + AlignPad(pos);
            && next <= |bits|
            && Take(Align, bits, pos)
               == if FromBits(bits[pos..next]) != 0 then No(NonzeroPadding, next) else Ok(Unit, next)
  {
    hide FromBits, AlignPad;
    PadFits(pos, |bits| / 8);
    FromBitsZero(bits[pos..pos + AlignPad(pos)]);
    NothingRead(bits, pos);
  }

  /** A field of any pattern reads an offset of its width and tests it against its span. */
  lemma TakeOfField(op: Op, bits: seq<bool>, pos: nat)
    requires pos <= |bits| && IsNumeric(op)
    requires NumericOf(op).Some? ==> NumericOf(op).value.pattern == AnyPattern
    ensures Take(op, bits, pos)
         == match NumericOf(op)
            case None => No(ValueOutOfRange, pos)
            case Some(f) =>
              var next := pos + f.width;
              if next > |bits| then No(PastEnd, pos)
              else if FromBits(bits[pos..next]) > f.span then No(ValueOutOfRange, next)
              else Ok(Num(f.low + FromBits(bits[pos..next])), next)
  {
    hide FromBits, NumericOf;
  }

  lemma FixedPattern(op: Op)
    requires op.Fixed64? || op.Fixed128?
    ensures NumericOf(op).Some? ==> NumericOf(op).value.pattern == AnyPattern
  {
    hide BitLen, Pow2, QFormat;
  }

  /** A ranged field reads an offset of its width and tests it against its span. */
  lemma TakeOfRanged(op: Op, low: int, high: int, bits: seq<bool>, pos: nat)
    requires pos <= |bits| && IsNumeric(op)
    requires NumericOf(op) == if low <= high then Some(Ranged(low, high)) else None
    ensures Take(op, bits, pos)
         == if low > high then No(ValueOutOfRange, pos)
            else
              var next := pos + BitLen(high - low);
              if next > |bits| then No(PastEnd, pos)
              else if FromBits(bits[pos..next]) > high - low then No(ValueOutOfRange, next)
              else Ok(Num(low + FromBits(bits[pos..next])), next)
  {
    hide FromBits, BitLen, NumericOf;
  }

  lemma EncodeOfText(size: int64, text: seq<byte>, pos: nat)
    requires Legal(Text(size), Blob(text))
    ensures 1 <= size <= INT32_MAX && |text| < size
    ensures var width := BitLen(size - 1);
            Encode(Text(size), Blob(text), pos)
            == ToBits(|text|, width) + (Zeros(AlignPad(pos + width)) + Unpack(text))
  {
    hide BitLen, ToBits, Unpack, WellFormed, HasNul;
  }

  lemma TakeOfObject(fields: seq<Op>, bits: seq<bool>, pos: nat)
    requires pos <= |bits|
    ensures Take(Object(fields), bits, pos) == TakeAll(fields, bits, pos)
  {
  }

  lemma AlignLands(bits: seq<bool>, pos: nat)
    requires pos <= |bits|
    ensures TakeAlign(bits, pos).Ok? ==> TakeAlign(bits, pos).value == Unit && TakeAlign(bits, pos).next % 8 == 0
  {
  }
}
