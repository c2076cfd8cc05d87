/** The measure stream: the writer's checks, and the bits it would take at worst. */
module MeasureStreams {
  import opened Bits
  import opened Words
  import opened Int128s
  import opened Params
  import opened Utf8
  import opened Wire
  import opened Codec
  import opened Messages
  import opened Ladders

  /** The align a measure counts, wherever the object may land. */
  const WORST_ALIGN := 7

  lemma RungCostUnfolds(difference: nat, i: nat)
    requires i < |BUCKETS|
    ensures RungCost(difference, i)
         == if difference <= BUCKETS[i].max then 1 + BitLen(BUCKETS[i].max - BUCKETS[i].min)
            else 1 + RungCost(difference, i + 1)
    ensures BUCKETS[i].min <= BUCKETS[i].max < TWO31
  {
  }

  lemma AbsoluteCost(difference: nat)
    ensures RungCost(difference, |BUCKETS|) == 32
  {
  }

  class MeasureStream {
    var bitsWritten: nat

    constructor ()
      ensures bitsWritten == 0
    {
      bitsWritten := 0;
    }

    twostate predicate Counts(op: Op, v: Value)
      requires Legal(op, v)
      reads this
    {
      bitsWritten == old(bitsWritten) + Measure(op, v)
    }

    method Count(bits: nat)
      modifies this
      ensures bitsWritten == old(bitsWritten) + bits
    {
      bitsWritten := bitsWritten + bits;
    }

    method SerializeBits(value: uint32, bits: int64)
      requires Legal(Op.Bits(bits), Num(value))
      modifies this
      ensures Counts(Op.Bits(bits), Num(value))
    {
      Count(bits);
    }

    method SerializeBits64(value: uint64, bits: int64)
      requires Legal(Bits64(bits), Num(value))
      modifies this
      ensures Counts(Bits64(bits), Num(value))
    {
      Count(bits);
    }

    /** The fields of one fixed width. */
    method SerializeWord(op: Op, v: Value)
      requires op.Bool? || op.Uint8? || op.Uint16? || op.Uint32? || op.Uint64? || op.RawUint128?
               || op.Float32? || op.Float64?
      requires Legal(op, v)
      modifies this
      ensures Counts(op, v)
    {
      hide Finite, Pow2;
      match op {
        case Bool => Count(1);
        case Uint8 => Count(8);
        case Uint16 => Count(16);
        case Uint32 => Count(32);
        case Uint64 => Count(64);
        case RawUint128 => Count(128);
        case Float32 => Count(32);
        case Float64 => Count(64);
      }
    }

    method SerializeInt(value: int32, min: int32, max: int32)
      requires Legal(RangedInt(min, max), Num(value))
      modifies this
      ensures Counts(RangedInt(min, max), Num(value))
    {
      hide BitLen;
      Ranged32(min, max, value);
      Count(BitsRequired(Wrap32(min), Wrap32(max)));
    }

    method SerializeInt64(value: int64, min: int64, max: int64)
      requires Legal(RangedInt64(min, max), Num(value))
      modifies this
      ensures Counts(RangedInt64(min, max), Num(value))
    {
      hide BitLen;
      Ranged64(min, max, value);
      Count(BitsRequired64(Wrap64(min), Wrap64(max)));
    }

    method SerializeInt128(value: Int128, min: Int128, max: Int128)
      requires Legal(RangedInt128(min.Val(), max.Val()), Num(value.Val()))
      modifies this
      ensures Counts(RangedInt128(min.Val(), max.Val()), Num(value.Val()))
    {
      hide BitLen, Int128.Val, Uint128.Val;
      Ranged128(min, max, value);
      Count(BitsRequired128(min.ToUint128(), max.ToUint128()));
    }

    method SerializeFixed64(value: int64, integerBits: qbits, fractionBits: qbits, min: int64, max: int64)
      requires Legal(Fixed64(integerBits, fractionBits, min, max), Num(RawOf64(min, value)))
      modifies this
      ensures Counts(Fixed64(integerBits, fractionBits, min, max), Num(RawOf64(min, value)))
    {
      hide BitLen, QFormat, Pow2, FixedPointParams64;
      var (_, _, numBits) := FixedPointParams64(integerBits, fractionBits, min, max);
      Params64Exact(integerBits, fractionBits, min, max);
      Count(numBits);
    }

    method SerializeFixed128(value: Int128, integerBits: qbits, fractionBits: qbits, min: int64, max: int64)
      requires Legal(Fixed128(integerBits, fractionBits, min, max), Num(RawOf128(min, value.Val())))
      modifies this
      ensures Counts(Fixed128(integerBits, fractionBits, min, max), Num(RawOf128(min, value.Val())))
    {
      hide BitLen, QFormat, Pow2, FixedPointParams128, Int128.Val, Uint128.Val;
      var (_, _, numBits) := FixedPointParams128(integerBits, fractionBits, min, max);
      Params128Exact(integerBits, fractionBits, min, max);
      Count(numBits);
    }

    method SerializeAlign()
      modifies this
      ensures Counts(Align, Unit)
    {
      Count(WORST_ALIGN);
    }

    method SerializeBytes(bytes: seq<byte>)
      modifies this
      ensures Counts(Op.Bytes(|bytes|), Blob(bytes))
    {
      Count(WORST_ALIGN + |bytes| * 8);
    }

    method SerializeString(text: seq<byte>, bufferSize: int64)
      requires Legal(Text(bufferSize), Blob(text))
      modifies this
      ensures Counts(Text(bufferSize), Blob(text))
    {
      hide BitLen, WellFormed, HasNul;
      Ranged32(0, bufferSize - 1, 0);
      bitsWritten := bitsWritten + BitsRequired(0, bufferSize - 1) + WORST_ALIGN;
      Count(|text| * 8);
    }

    /** The ladder's cost, rung by rung: exactly what a write stream emits. */
    method SerializeIntRelative(previous: int32, current: int32)
      requires Legal(IntRelative(previous), Num(current))
      modifies this
      ensures Counts(IntRelative(previous), Num(current))
    {
      hide BitLen, RungCost, LadderBits, RelativeBits, Encode, Legal, Flags;
      RelativeStarts(previous, current, 0);
      Ranged32(previous, current, current);
      var difference := Wrap32(Wrap32(current) - Wrap32(previous));
      var bits := 1;
      if difference != 1 {
        LadderCost(difference, current, 0);
        var matched := false;
        var i := 0;
        while i < |BUCKETS| && !matched
          invariant i <= |BUCKETS| && bitsWritten == old(bitsWritten)
          invariant matched ==> bits == |RelativeBits(previous, current)|
          invariant !matched ==> bits + RungCost(difference, i) == |RelativeBits(previous, current)|
        {
          RungCostUnfolds(difference, i);
          bits := bits + 1;
          if difference <= BUCKETS[i].max {
            Ranged32(BUCKETS[i].min, BUCKETS[i].max, BUCKETS[i].min);
            bits := bits + BitsRequired(BUCKETS[i].min, BUCKETS[i].max);
            matched := true;
          }
          i := i + 1;
        }
        if !matched {
          AbsoluteCost(difference);
          bits := bits + 32;
        }
      }
      Count(bits);
    }

    /** A whole object, measured field by field. */
    method MeasureObject(ops: seq<Op>, vs: seq<Value>)
      requires LegalAll(ops, vs)
      modifies this
      ensures bitsWritten == old(bitsWritten) + MeasureAll(ops, vs)
      decreases ops, 0
    {
      hide Legal, Measure;
      if ops != [] {
        MeasureField(ops[0], vs[0]);
        MeasureObject(ops[1..], vs[1..]);
      }
    }

    method MeasureNumber(op: Op, v: Value)
      requires IsNumeric(op) && Legal(op, v)
      modifies this
      ensures Counts(op, v)
    {
      hide Measure, Legal, LegalAll, Stored64, RawOf64, RawOf128, UintLanes, IntLanes, AsSigned, Int128.Val,
           Uint128.Val;
      NumericWord(op, v);
      match op
      case Bits(w) => SerializeBits(v.n, w);
      case Bits64(w) => SerializeBits64(v.n, w);
      case RangedInt(min, max) => SerializeInt(v.n, min, max);
      case RangedInt64(min, max) => SerializeInt64(v.n, min, max);
      case RangedInt128(min, max) => SerializeInt128(IntLanes(v.n), IntLanes(min), IntLanes(max));
      case Fixed64(ib, fb, min, max) => SerializeFixed64(Stored64(v.n), ib, fb, min, max);
      case Fixed128(ib, fb, min, max) =>
        StoredLanes(v.n);
        SerializeFixed128(UintLanes(v.n % TWO128).ToInt128(), ib, fb, min, max);
      case Bool | Uint8 | Uint16 | Uint32 | Uint64 | RawUint128 | Float32 | Float64 => SerializeWord(op, v);
    }

    method MeasureField(op: Op, v: Value)
      requires Legal(op, v)
      modifies this
      ensures Counts(op, v)
      decreases op, 1
    {
      hide Measure, Legal, LegalAll, MeasureAll;
      NumericWord(op, v);
      if IsNumeric(op) {
        MeasureNumber(op, v);
        return;
      }
      match op
      case Align => SerializeAlign();
      case Bytes(_) => SerializeBytes(v.bytes);
      case Text(size) => SerializeString(v.bytes, size);
      case IntRelative(previous) => SerializeIntRelative(previous, v.n);
      case Object(fields) =>
        EncodeOfObject(fields, v.values, 0);
        MeasureObject(fields, v.values);
    }
  }
}
