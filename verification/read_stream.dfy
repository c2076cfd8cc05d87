/** The read stream: every operation bounds and range checked, and the first refusal latched. */
module ReadStreams {
  import opened Bits
  import opened Words
  import opened Int128s
  import opened Params
  import opened Utf8
  import opened Wire
  import opened Codec
  import opened Ladders
  import opened Destinations
  import opened BitReaders

  class ReadStream {
    const reader: BitReader
    var err: Option<Refusal>

    ghost predicate Valid()
      reads this, reader, reader.padded, reader.tail
    {
      reader.Valid()
    }

    ghost function Bits(): seq<bool>
      requires reader.dataLen <= reader.padded.Length
      reads reader`padded, reader`dataLen, reader.padded
    {
      reader.DataBits()
    }

    ghost function Here(): Cursor
      reads this`err, reader`bitsRead
    {
      Cursor(reader.bitsRead, err)
    }

    constructor (backing: array<byte>, length: nat)
      requires length <= backing.Length
      ensures Valid() && fresh(reader) && fresh(reader.tail) && reader.padded == backing && reader.dataLen == length
      ensures Here() == Cursor(0, None)
      ensures backing[..] == old(backing[..])
    {
      reader := new BitReader(backing, length);
      err := None;
    }

    /** The only way to clear a refusal: a new buffer. */
    method Reset(backing: array<byte>, length: nat)
      requires Valid() && length <= backing.Length && reader.tail != backing
      modifies this, reader, reader.tail
      ensures Valid() && reader.padded == backing && reader.dataLen == length
      ensures Here() == Cursor(0, None)
    {
      reader.Reset(backing, length);
      err := None;
    }

    /** The stream did what the wire format says for op, and the destination went from dest to value. */
    twostate predicate Read(op: Op, dest: Value, value: Value, new failure: Option<Refusal>)
      requires old(reader.Valid())
      reads this, reader, reader.padded, reader.tail
    {
      && Valid() && reader.padded == old(reader.padded) && reader.dataLen == old(reader.dataLen)
      && var o := Take(op, old(Bits()), old(reader.bitsRead));
      && Here() == After(old(Here()), o)
      && value == Got(old(Here()), o, dest)
      && failure == err
    }

    // ---- the latch ----

    /** Latches the first refusal. */
    method Latch(reason: Refusal) returns (failure: Option<Refusal>)
      modifies this`err
      ensures err == (if old(err).Some? then old(err) else Some(reason)) && failure == err
    {
      if err.None? {
        err := Some(reason);
      }
      return err;
    }

    method Reject() returns (failure: Option<Refusal>)
      modifies this`err
      ensures err == (if old(err).Some? then old(err) else Some(Rejected)) && failure == err
    {
      failure := Latch(Rejected);
    }

    /** The caller's refusal with a reason of its own, given as its number in the closed list. */
    method Fail(reason: nat) returns (failure: Option<Refusal>)
      modifies this`err
      ensures err == (if old(err).Some? then old(err) else Some(ClosedRefusal(reason))) && failure == err
    {
      failure := Latch(ClosedRefusal(reason));
    }

    // ---- reads ----

    method ReadBits(dest: uint32, bits: nat) returns (value: uint32, failure: Option<Refusal>)
      requires Valid() && 1 <= bits <= 32
      modifies `err, reader`bitsRead
      ensures Read(Op.Bits(bits), Num(dest), Num(value), failure)
    {
      hide TailFilled, Unpack, FromBits;
      value := dest;
      if err.Some? {
        return value, err;
      }
      RawAccepts(bits, Bits(), reader.bitsRead);
      var past := Past(bits);
      if past {
        failure := Latch(PastEnd);
        return;
      }
      value := reader.LoadBits(bits);
      failure := None;
    }

    /** Whether a read of this many bits would run past the end. */
    method Past(bits: nat) returns (past: bool)
      requires Valid()
      ensures past == (reader.bitsRead + bits > |Bits()|)
    {
      past := reader.bitsRead + bits > reader.numBits;
    }

    method SerializeBits(dest: uint32, bits: int64) returns (value: uint32, failure: Option<Refusal>)
      requires Valid()
      modifies `err, reader`bitsRead
      ensures Read(Op.Bits(bits), Num(dest), Num(value), failure)
    {
      hide TailFilled, Unpack, FromBits;
      if bits < 1 || bits > 32 {
        value := dest;
        failure := Latch(ValueOutOfRange);
        return;
      }
      value, failure := ReadBits(dest, bits);
    }

    method SerializeBits64(dest: uint64, bits: int64) returns (value: uint64, failure: Option<Refusal>)
      requires Valid()
      modifies `err, reader`bitsRead
      ensures Read(Bits64(bits), Num(dest), Num(value), failure)
    {
      hide TailFilled, Unpack, FromBits;
      value := dest;
      if bits < 1 || bits > 64 {
        failure := Latch(ValueOutOfRange);
        return;
      }
      if err.Some? {
        return value, err;
      }
      RawAccepts(bits, Bits(), reader.bitsRead);
      var past := Past(bits);
      if past {
        failure := Latch(PastEnd);
        return;
      }
      value := reader.LoadBits64(bits);
      failure := None;
    }

    method SerializeInt(dest: int32, min: int32, max: int32) returns (value: int32, failure: Option<Refusal>)
      requires Valid()
      modifies `err, reader`bitsRead
      ensures Read(RangedInt(min, max), Num(dest), Num(value), failure)
    {
      hide TailFilled, Unpack, FromBits, BitLen, Pow2, Take, Wrap32, Signed32, BitsRequired;
      value := dest;
      TakeOfRanged(RangedInt(min, max), min, max, Bits(), reader.bitsRead);
      if min > max {
        failure := Latch(ValueOutOfRange);
        return;
      }
      if err.Some? {
        return value, err;
      }
      var bits := BitsRequired(Wrap32(min), Wrap32(max));
      Ranged32(min, max, min);
      RangedFits(min, max, min, 32);
      var past := Past(bits);
      if past {
        failure := Latch(PastEnd);
        return;
      }
      var unsigned := reader.LoadBits(bits);
      if unsigned > Wrap32(Wrap32(max) - Wrap32(min)) {
        failure := Latch(ValueOutOfRange);
        return;
      }
      Ranged32(min, max, min + unsigned);
      value := Signed32(Wrap32(unsigned + Wrap32(min)));
      failure := None;
    }

    method SerializeInt64(dest: int64, min: int64, max: int64) returns (value: int64, failure: Option<Refusal>)
      requires Valid()
      modifies `err, reader`bitsRead
      ensures Read(RangedInt64(min, max), Num(dest), Num(value), failure)
    {
      hide TailFilled, Unpack, FromBits, BitLen, Pow2, Take, Wrap64, Signed64, BitsRequired64;
      value := dest;
      TakeOfRanged(RangedInt64(min, max), min, max, Bits(), reader.bitsRead);
      if min > max {
        failure := Latch(ValueOutOfRange);
        return;
      }
      if err.Some? {
        return value, err;
      }
      var bits := BitsRequired64(Wrap64(min), Wrap64(max));
      Ranged64(min, max, min);
      RangedFits(min, max, min, 64);
      var past := Past(bits);
      if past {
        failure := Latch(PastEnd);
        return;
      }
      var unsigned := reader.LoadBits64(bits);
      if unsigned > Wrap64(Wrap64(max) - Wrap64(min)) {
        failure := Latch(ValueOutOfRange);
        return;
      }
      Ranged64(min, max, min + unsigned);
      value := Signed64(Wrap64(unsigned + Wrap64(min)));
      failure := None;
    }

    /** An offset of up to 128 bits that is known to be there. */
    method LoadGroups128(bits: nat) returns (offset: Uint128)
      requires Valid() && bits <= 128 && reader.bitsRead + bits <= |Bits()|
      modifies reader`bitsRead
      ensures reader.bitsRead == old(reader.bitsRead) + bits
      ensures offset.Val() == FromBits(Bits()[old(reader.bitsRead)..reader.bitsRead])
    {
      hide Unpack, FromBits;
      if bits <= 64 {
        var low := reader.LoadBits64(bits);
        return Uint128(low, 0);
      }
      GroupsJoin(Bits(), reader.bitsRead, bits);
      var low := reader.LoadBits64(64);
      var high := reader.LoadBits64(bits - 64);
      offset := Uint128(low, high);
    }

    method SerializeInt128(dest: Int128, min: Int128, max: Int128) returns (value: Int128, failure: Option<Refusal>)
      requires Valid()
      modifies `err, reader`bitsRead
      ensures Read(RangedInt128(min.Val(), max.Val()), Num(dest.Val()), Num(value.Val()), failure)
    {
      hide TailFilled, Unpack, FromBits, BitLen, Uint128.Sub, Uint128.Add, Uint128.Cmp, Int128.Cmp, Uint128.Val,
           Int128.Val, Take;
      value := dest;
      TakeOfRanged(RangedInt128(min.Val(), max.Val()), min.Val(), max.Val(), Bits(), reader.bitsRead);
      SignedCmpVal(min, max);
      if min.Cmp(max) > 0 {
        failure := Latch(ValueOutOfRange);
        return;
      }
      if err.Some? {
        return value, err;
      }
      var numBits := BitsRequired128(min.ToUint128(), max.ToUint128());
      Ranged128(min, max, min);
      RangedFits(min.Val(), max.Val(), min.Val(), 128);
      var past := Past(numBits);
      if past {
        failure := Latch(PastEnd);
        return;
      }
      var offset := LoadGroups128(numBits);
      CmpVal(offset, max.ToUint128().Sub(min.ToUint128()));
      if offset.Cmp(max.ToUint128().Sub(min.ToUint128())) > 0 {
        failure := Latch(ValueOutOfRange);
        return;
      }
      Rebuilt128(min, offset);
      value := offset.Add(min.ToUint128()).ToInt128();
      failure := None;
    }

    method SerializeUint128(dest: Uint128) returns (value: Uint128, failure: Option<Refusal>)
      requires Valid()
      modifies `err, reader`bitsRead
      ensures Read(RawUint128, Num(dest.Val()), Num(value.Val()), failure)
    {
      hide TailFilled, Unpack, FromBits, Take, Uint128.Val;
      value := dest;
      if err.Some? {
        return value, err;
      }
      TakeOfRaw128(Bits(), reader.bitsRead);
      var past := Past(128);
      if past {
        failure := Latch(PastEnd);
        return;
      }
      GroupsJoin(Bits(), reader.bitsRead, 128);
      var low := reader.LoadBits64(64);
      var high := reader.LoadBits64(64);
      value := Uint128(low, high);
      LanesVal(value);
      failure := None;
    }

    method SerializeFixed64(dest: int64, integerBits: qbits, fractionBits: qbits, min: int64, max: int64)
      returns (value: int64, failure: Option<Refusal>)
      requires Valid()
      modifies `err, reader`bitsRead
      ensures Read(Fixed64(integerBits, fractionBits, min, max),
                   Num(RawOf64(min, dest)), Num(RawOf64(min, value)), failure)
    {
      hide TailFilled, Unpack, FromBits, FixedPointParams64, Take, NumericOf, Wrap64, Signed64, RawOf64;
      value := dest;
      var (rawMin, rawRange, numBits) := FixedPointParams64(integerBits, fractionBits, min, max);
      Params64Exact(integerBits, fractionBits, min, max);
      FixedPattern(Fixed64(integerBits, fractionBits, min, max));
      TakeOfField(Fixed64(integerBits, fractionBits, min, max), Bits(), reader.bitsRead);
      if err.Some? {
        return value, err;
      }
      if numBits < 0 {
        failure := Latch(ValueOutOfRange);
        return;
      }
      FixedWidths64(integerBits, fractionBits, min, max);
      var past := Past(numBits);
      if past {
        failure := Latch(PastEnd);
        return;
      }
      var offset := reader.LoadBits64(numBits);
      if offset > rawRange {
        failure := Latch(ValueOutOfRange);
        return;
      }
      FixedRebuilt64(integerBits, fractionBits, min, max, offset);
      value := Signed64(Wrap64(rawMin + offset));
      failure := None;
    }

    method SerializeFixed128(dest: Int128, integerBits: qbits, fractionBits: qbits, min: int64, max: int64)
      returns (value: Int128, failure: Option<Refusal>)
      requires Valid()
      modifies `err, reader`bitsRead
      ensures Read(Fixed128(integerBits, fractionBits, min, max),
                   Num(RawOf128(min, dest.Val())), Num(RawOf128(min, value.Val())), failure)
    {
      hide TailFilled, Unpack, FromBits, FixedPointParams128, Take, NumericOf, RawOf128, Uint128.Add, Uint128.Cmp,
           Uint128.Val, Int128.Val;
      value := dest;
      var (rawMin, rawRange, numBits) := FixedPointParams128(integerBits, fractionBits, min, max);
      Params128Exact(integerBits, fractionBits, min, max);
      FixedPattern(Fixed128(integerBits, fractionBits, min, max));
      TakeOfField(Fixed128(integerBits, fractionBits, min, max), Bits(), reader.bitsRead);
      if err.Some? {
        return value, err;
      }
      if numBits < 0 {
        failure := Latch(ValueOutOfRange);
        return;
      }
      FixedWidths128(integerBits, fractionBits, min, max);
      var past := Past(numBits);
      if past {
        failure := Latch(PastEnd);
        return;
      }
      var offset := LoadGroups128(numBits);
      CmpVal(offset, rawRange);
      if offset.Cmp(rawRange) > 0 {
        failure := Latch(ValueOutOfRange);
        return;
      }
      FixedRebuilt128(integerBits, fractionBits, min, max, rawMin, offset);
      value := rawMin.Add(offset).ToInt128();
      failure := None;
    }

    /** A raw field of at most 32 bits through tryReadBits. */
    method TryRaw(bits: nat) returns (output: uint32, failure: Option<Refusal>)
      requires Valid() && 1 <= bits <= 32
      modifies `err, reader`bitsRead
      ensures Valid() && reader.padded == old(reader.padded) && reader.dataLen == old(reader.dataLen)
      ensures failure == err
      ensures var o := TakeNumeric(Raw(bits), old(Bits()), old(reader.bitsRead));
              Here() == After(old(Here()), o) && (failure.None? ==> o.Ok? && Num(output) == o.value)
    {
      hide TailFilled, Unpack, FromBits;
      output := 0;
      if err.Some? {
        return output, err;
      }
      RawAccepts(bits, Bits(), reader.bitsRead);
      var v, ok := reader.TryReadBits(bits);
      if !ok {
        failure := Latch(PastEnd);
        return;
      }
      return v, None;
    }

    method SerializeUint8(dest: byte) returns (value: byte, failure: Option<Refusal>)
      requires Valid()
      modifies `err, reader`bitsRead
      ensures Read(Uint8, Num(dest), Num(value), failure)
    {
      hide TailFilled, Unpack, FromBits;
      assert Pow2(8) == 256;
      hide Pow2;
      var v;
      v, failure := TryRaw(8);
      value := if failure.None? then v else dest;
    }

    method SerializeUint16(dest: uint32) returns (value: uint32, failure: Option<Refusal>)
      requires Valid()
      modifies `err, reader`bitsRead
      ensures Read(Uint16, Num(dest), Num(value), failure)
    {
      hide TailFilled, Unpack, FromBits, Pow2;
      var v;
      v, failure := TryRaw(16);
      value := if failure.None? then v else dest;
    }

    method SerializeUint32(dest: uint32) returns (value: uint32, failure: Option<Refusal>)
      requires Valid()
      modifies `err, reader`bitsRead
      ensures Read(Uint32, Num(dest), Num(value), failure)
    {
      hide TailFilled, Unpack, FromBits, Pow2;
      value, failure := ReadBits(dest, 32);
    }

    method SerializeUint64(dest: uint64) returns (value: uint64, failure: Option<Refusal>)
      requires Valid()
      modifies `err, reader`bitsRead
      ensures Read(Uint64, Num(dest), Num(value), failure)
    {
      hide TailFilled, Unpack, FromBits, Pow2;
      value, failure := SerializeBits64(dest, 64);
    }

    method SerializeBool(dest: bool) returns (value: bool, failure: Option<Refusal>)
      requires Valid()
      modifies `err, reader`bitsRead
      ensures Read(Op.Bool, Num(if dest then 1 else 0), Num(if value then 1 else 0), failure)
    {
      hide TailFilled, Unpack, FromBits;
      assert Pow2(1) == 2;
      hide Pow2;
      var v;
      v, failure := TryRaw(1);
      value := if failure.None? then v != 0 else dest;
    }

    method SerializeFloat32(dest: uint32) returns (value: uint32, failure: Option<Refusal>)
      requires Valid()
      modifies `err, reader`bitsRead
      ensures Read(Float32, Num(dest), Num(value), failure)
    {
      hide TailFilled, Unpack, FromBits, Pow2, Finite, FiniteBits32, FiniteBits64;
      value := dest;
      var v;
      ghost var c, bits := Here(), Bits();
      v, failure := TryRaw(32);
      PatternTake(Raw(32), Binary32, bits, c.pos);
      if failure.Some? {
        return;
      }
      FiniteMask32(v);
      if !FiniteBits32(v) {
        failure := Latch(NonFiniteFloat);
        return;
      }
      value := v;
    }

    method SerializeFloat64(dest: uint64) returns (value: uint64, failure: Option<Refusal>)
      requires Valid()
      modifies `err, reader`bitsRead
      ensures Read(Float64, Num(dest), Num(value), failure)
    {
      hide TailFilled, Unpack, FromBits, Pow2, Finite, FiniteBits32, FiniteBits64;
      value := dest;
      if err.Some? {
        return value, err;
      }
      RawAccepts(64, Bits(), reader.bitsRead);
      var past := Past(64);
      if past {
        failure := Latch(PastEnd);
        return;
      }
      var v := reader.LoadBits64(64);
      FiniteMask64(v);
      if !FiniteBits64(v) {
        failure := Latch(NonFiniteFloat);
        return;
      }
      value := v;
      failure := None;
    }

    /** An aligned stream returns its latch; otherwise the padding is read and must be zero. */
    method SerializeAlign() returns (failure: Option<Refusal>)
      requires Valid()
      modifies `err, reader`bitsRead
      ensures Read(Align, Unit, Unit, failure)
    {
      hide TailFilled, Unpack, FromBits, BitAnd, Take, AlignPad, Wrap64;
      NegateAndMask(reader.bitsRead);
      TakeOfAlign(Bits(), reader.bitsRead);
      var alignBits := BitAnd(Wrap64(0 - reader.bitsRead), 7);
      if alignBits == 0 {
        NothingRead(Bits(), reader.bitsRead);
        return err;
      }
      if err.Some? {
        return err;
      }
      // The data is whole bytes, so the padding of a byte already begun is always there.
      var past := Past(alignBits);
      if past {
        assert false;
      }
      var padding := reader.LoadBits(alignBits);
      if padding != 0 {
        failure := Latch(NonzeroPadding);
        return;
      }
      failure := None;
    }

    /** The align, the room check and the slice that byte blocks and strings share. */
    method ReadBlob(n: nat) returns (data: seq<byte>, failure: Option<Refusal>)
      requires Valid()
      modifies `err, reader`bitsRead
      ensures Valid() && reader.padded == old(reader.padded) && reader.dataLen == old(reader.dataLen)
      ensures var o := TakeBlob(n, old(Bits()), old(reader.bitsRead));
              Here() == After(old(Here()), o) && failure == err && (failure.None? ==> o.Ok? && o.value == Blob(data))
    {
      hide TailFilled, Unpack, FromBits, Pack;
      data := [];
      ghost var c, bits := Here(), Bits();
      failure := SerializeAlign();
      AlignLands(bits, c.pos);
      if failure.Some? {
        return;
      }
      var left := reader.BitsRemaining();
      SourceLength();
      if n > left / 8 {
        failure := Latch(PastEnd);
        return;
      }
      data := reader.ReadSlice(n);
    }

    method SerializeBytes(dest: seq<byte>) returns (value: seq<byte>, failure: Option<Refusal>)
      requires Valid()
      modifies `err, reader`bitsRead
      ensures Read(Op.Bytes(|dest|), Blob(dest), Blob(value), failure)
    {
      hide TailFilled, Unpack, FromBits, Pack, TakeBlob;
      var data;
      data, failure := ReadBlob(|dest|);
      value := if failure.None? then data else dest;
    }

    lemma SourceLength()
      requires Valid()
      ensures reader.numBits == |Bits()| && reader.bitsRead <= |Bits()|
    {
    }

    method SerializeString(dest: seq<byte>, bufferSize: int64) returns (value: seq<byte>, failure: Option<Refusal>)
      requires Valid()
      modifies `err, reader`bitsRead
      ensures Read(Text(bufferSize), Blob(dest), Blob(value), failure)
    {
      hide TailFilled, Unpack, FromBits, BitLen, WellFormed, TakeBlob;
      value := dest;
      if bufferSize < 1 || bufferSize > INT32_MAX {
        failure := Latch(ValueOutOfRange);
        return;
      }
      if err.Some? {
        return value, err;
      }
      var length;
      length, failure := SerializeInt(0, 0, bufferSize - 1);
      if failure.Some? {
        return;
      }
      var data;
      data, failure := ReadBlob(length);
      if failure.Some? {
        return;
      }
      if HasNul(data) {
        failure := Latch(EmbeddedNul);
        return;
      }
      if !WellFormed(data) {
        failure := Latch(InvalidUTF8);
        return;
      }
      value := data;
    }

    // ---- int_relative ----

    /** Checks a reconstructed value; the destination is written only when it holds. */
    method RelativeResult(dest: int32, previous: int32, reconstructed: int)
      returns (value: int32, failure: Option<Refusal>)
      requires Valid() && err.None?
      modifies `err
      ensures var o := Wire.RelativeResult(previous, reconstructed, reader.bitsRead);
              Here() == After(old(Here()), o) && Num(value) == Got(old(Here()), o, Num(dest))
      ensures failure == err
    {
      if reconstructed > INT32_MAX || reconstructed <= previous {
        failure := Latch(ValueOutOfRange);
        return dest, failure;
      }
      return reconstructed, None;
    }

    method SerializeIntRelative(dest: int32, previous: int32) returns (value: int32, failure: Option<Refusal>)
      requires Valid()
      modifies `err, reader`bitsRead
      ensures Read(IntRelative(previous), Num(dest), Num(value), failure)
    {
      hide TailFilled, Unpack, FromBits, BitLen, TakeNumeric, TakeLadder, Pow2, Wire.RelativeResult, Take;
      value := dest;
      ghost var bits, start := Bits(), reader.bitsRead;
      RelativeTake(previous, bits, start);
      if previous < 0 {
        failure := Latch(ValueOutOfRange);
        return;
      }
      if err.Some? {
        return value, err;
      }
      var flag;
      FlagTake(bits, start);
      flag, failure := SerializeBool(false);
      if failure.Some? {
        return;
      }
      if flag {
        value, failure := RelativeResult(dest, previous, previous + 1);
        return;
      }
      for i := 0 to |BUCKETS|
        invariant Valid() && err.None? && reader.padded == old(reader.padded) && reader.dataLen == old(reader.dataLen)
        invariant value == dest && failure.None?
        invariant TakeRelative(previous, bits, start) == TakeLadder(previous, bits, reader.bitsRead, i)
      {
        LadderStep(previous, bits, reader.bitsRead, i);
        FlagTake(bits, reader.bitsRead);
        flag, failure := SerializeBool(false);
        if failure.Some? {
          return;
        }
        if flag {
          BucketTake(i, bits, reader.bitsRead);
          var difference;
          difference, failure := SerializeInt(0, BUCKETS[i].min, BUCKETS[i].max);
          if failure.Some? {
            return;
          }
          value, failure := RelativeResult(dest, previous, previous + difference);
          return;
        }
      }
      LadderFoot(previous, bits, reader.bitsRead);
      WholeTake(bits, reader.bitsRead);
      var absolute;
      absolute, failure := ReadBits(0, 32);
      if failure.Some? {
        return;
      }
      if absolute <= INT32_MAX && absolute > previous && absolute - previous <= BOUNDED_MAX {
        failure := Latch(NonCanonical);
        return;
      }
      value, failure := RelativeResult(dest, previous, absolute);
    }

    // ---- messages ----

    /** The end of the packet: trailing data first, then the final byte's padding. */
    method SerializeEnd() returns (failure: Option<Refusal>)
      requires Valid()
      modifies `err, reader`bitsRead
      ensures Valid() && reader.padded == old(reader.padded) && reader.dataLen == old(reader.dataLen)
      ensures Here() == After(old(Here()), TakeEnd(old(Bits()), old(reader.bitsRead))) && failure == err
    {
      hide TailFilled, Unpack, FromBits;
      if err.Some? {
        return err;
      }
      SourceLength();
      var remaining := reader.numBits - reader.bitsRead;
      if remaining >= 8 {
        failure := Latch(TrailingData);
        return;
      }
      ghost var rest := Bits()[reader.bitsRead..];
      FromBitsZero(rest);
      assert rest == Bits()[reader.bitsRead..reader.bitsRead + remaining];
      if remaining > 0 {
        var padding := reader.LoadBits(remaining);
        if padding != 0 {
          failure := Latch(NonzeroPadding);
          return;
        }
      }
      failure := None;
    }

    /** The stream did what the wire format says for op, an object keeping the fields read before its refusal. */
    twostate predicate ReadInto(op: Op, dest: Value, value: Value, new failure: Option<Refusal>)
      requires old(reader.Valid())
      reads this, reader, reader.padded, reader.tail
    {
      && Valid() && reader.padded == old(reader.padded) && reader.dataLen == old(reader.dataLen)
      && Here() == After(old(Here()), Take(op, old(Bits()), old(reader.bitsRead)))
      && value == Kept(op, old(Bits()), old(Here()), dest)
      && failure == err
    }

    /** One field that is a single value, written to its variable when it is accepted. */
    method SerializeValue(op: Op, dest: Value) returns (value: Value, failure: Option<Refusal>)
      requires Valid() && !op.Object? && Holds(StorageOf(op), dest)
      modifies `err, reader`bitsRead
      ensures Read(op, dest, value, failure)
    {
      hide TailFilled, Unpack, Take, Int128.Val, Uint128.Val, HoldsAll, RawOf64, RawOf128, Stored64, UintLanes,
           IntLanes, AsSigned;
      match op {
        case Bits(w) => var n; n, failure := SerializeBits(dest.n, w); value := Num(n);
        case Bits64(w) => var n; n, failure := SerializeBits64(dest.n, w); value := Num(n);
        case Bool => var b; b, failure := SerializeBool(dest.n == 1); value := Num(if b then 1 else 0);
        case Uint8 => var n; n, failure := SerializeUint8(dest.n); value := Num(n);
        case Uint16 => var n; n, failure := SerializeUint16(dest.n); value := Num(n);
        case Uint32 => var n; n, failure := SerializeUint32(dest.n); value := Num(n);
        case Uint64 => var n; n, failure := SerializeUint64(dest.n); value := Num(n);
        case RawUint128 =>
          var x; x, failure := SerializeUint128(UintLanes(dest.n));
          LanesVal(x);
          value := Num(x.lo + x.hi * TWO64);
        case RangedInt(min, max) => var n; n, failure := SerializeInt(dest.n, min, max); value := Num(n);
        case RangedInt64(min, max) => var n; n, failure := SerializeInt64(dest.n, min, max); value := Num(n);
        case RangedInt128(min, max) =>
          var x; x, failure := SerializeInt128(IntLanes(dest.n), IntLanes(min), IntLanes(max));
          SignedLanesVal(x);
          value := Num(AsSigned(x.lo + x.hi * TWO64));
        case Fixed64(ib, fb, min, max) =>
          StoredWindow64(min, dest.n);
          var n; n, failure := SerializeFixed64(Stored64(dest.n), ib, fb, min, max);
          value := Num(RawOf64(min, n));
        case Fixed128(ib, fb, min, max) =>
          StoredWindow128(min, dest.n);
          StoredLanes(dest.n);
          var x; x, failure := SerializeFixed128(UintLanes(dest.n % TWO128).ToInt128(), ib, fb, min, max);
          SignedLanesVal(x);
          value := Num(RawOf128(min, AsSigned(x.lo + x.hi * TWO64)));
        case Float32 => var n; n, failure := SerializeFloat32(dest.n); value := Num(n);
        case Float64 => var n; n, failure := SerializeFloat64(dest.n); value := Num(n);
        case Align => failure := SerializeAlign(); value := dest;
        case Bytes(n) => var b; b, failure := SerializeBytes(dest.bytes); value := Blob(b);
        case Text(size) => var t; t, failure := SerializeString(dest.bytes, size); value := Blob(t);
        case IntRelative(previous) => var n; n, failure := SerializeIntRelative(dest.n, previous); value := Num(n);
      }
    }

    /** One field of a message, by its declaration, into a variable of its type. */
    method Serialize(op: Op, dest: Value) returns (value: Value, failure: Option<Refusal>)
      requires Valid() && Holds(StorageOf(op), dest)
      modifies `err, reader`bitsRead
      ensures ReadInto(op, dest, value, failure)
      decreases op, 1
    {
      hide TailFilled, Unpack, Take, HoldsAll;
      if op.Object? {
        HoldsShape(op.fields, dest.values);
        TakeOfObject(op.fields, Bits(), reader.bitsRead);
        var values;
        values, failure := SerializeObject(op.fields, dest.values);
        value := Fields(values);
      } else {
        value, failure := SerializeValue(op, dest);
      }
    }

    /** A nested object whose fields are read in order, up to the first refusal, and whose caller does not refuse. */
    method SerializeObject(ops: seq<Op>, dests: seq<Value>) returns (values: seq<Value>, failure: Option<Refusal>)
      requires Valid() && HoldsAll(StoragesOf(ops), dests)
      modifies `err, reader`bitsRead
      ensures Valid() && reader.padded == old(reader.padded) && reader.dataLen == old(reader.dataLen)
      ensures Here() == After(old(Here()), TakeAll(ops, old(Bits()), old(reader.bitsRead))) && failure == err
      ensures |dests| == |ops| && values == KeptAll(ops, old(Bits()), old(Here()), dests)
      decreases ops, 0
    {
      hide TailFilled, Unpack, Take, Kept, Holds, StorageOf;
      SourceLength();
      HoldsShape(ops, dests);
      values := dests;
      if err.Some? {
        RefusedKeepsAll(ops, Bits(), Here(), dests);
        return values, err;
      }
      if ops == [] {
        return values, None;
      }
      var first;
      first, failure := Serialize(ops[0], dests[0]);
      values := [first] + dests[1..];
      if failure.Some? {
        RefusedKeepsAll(ops[1..], Bits(), Here(), dests[1..]);
        return;
      }
      var rest;
      rest, failure := SerializeObject(ops[1..], dests[1..]);
      values := [first] + rest;
    }

    /** A whole packet: the object and its end. */
    method ReadPacket(ops: seq<Op>, dests: seq<Value>) returns (values: seq<Value>, failure: Option<Refusal>)
      requires Valid() && Here() == Cursor(0, None) && HoldsAll(StoragesOf(ops), dests)
      modifies `err, reader`bitsRead
      ensures Valid() && reader.padded == old(reader.padded) && reader.dataLen == old(reader.dataLen)
      ensures var packet := old(reader.padded[..reader.dataLen]);
              && Here() == After(Cursor(0, None), TakePacket(ops, packet)) && failure == err
              && |dests| == |ops| && values == KeptAll(ops, Unpack(packet), Cursor(0, None), dests)
      ensures failure.None? ==> Fields(values) == TakePacket(ops, old(reader.padded[..reader.dataLen])).value
    {
      hide TailFilled, Unpack, TakeAll, TakeEnd, KeptAll, HoldsAll, StoragesOf;
      ghost var bits, c := Bits(), Here();
      values, failure := SerializeObject(ops, dests);
      if failure.Some? {
        return;
      }
      AcceptedDeliversAll(ops, bits, c, dests);
      failure := SerializeEnd();
    }
  }
}
