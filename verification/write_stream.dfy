/** The write stream: flat writer state, positions derived from the bit count, and the serialize operations. */
module WriteStreams {
  import opened Bits
  import opened Words
  import opened Packing
  import opened Int128s
  import opened Params
  import opened Wire
  import opened Codec
  import opened Ladders
  import opened Messages

  class WriteStream {
    var data: array<byte>
    var scratch: uint64
    var numBits: nat
    var bitsWritten: nat
    // every bit written since the stream was pointed at the buffer, and the buffer as it was then
    ghost var written: seq<bool>
    ghost var origin: seq<byte>

    ghost predicate Valid()
      reads this, data
    {
      && numBits == 8 * data.Length
      && bitsWritten == |written| <= numBits
      && Image(data[..], origin, written, scratch)
    }

    constructor (buffer: array<byte>)
      requires buffer.Length % 8 == 0
      ensures Valid() && data == buffer && written == [] && origin == buffer[..]
    {
      data := buffer;
      scratch := 0;
      numBits := buffer.Length * 8;
      bitsWritten := 0;
      written := [];
      origin := buffer[..];
    }

    method Reset(buffer: array<byte>)
      requires buffer.Length % 8 == 0
      modifies this
      ensures Valid() && data == buffer && written == [] && origin == buffer[..]
    {
      data := buffer;
      scratch := 0;
      numBits := buffer.Length * 8;
      bitsWritten := 0;
      written := [];
      origin := buffer[..];
    }

    /** The stream has gained exactly these bits. */
    twostate predicate Gains(bits: seq<bool>)
      reads this, data
    {
      && Valid()
      && data == old(data)
      && numBits == old(numBits)
      && origin == old(origin)
      && written == old(written) + bits
    }

    /** The bits op would add fit the room left. */
    ghost predicate HasRoom(op: Op, v: Value)
      requires Legal(op, v)
      reads this
    {
      bitsWritten + |Encode(op, v, bitsWritten)| <= numBits
    }

    twostate predicate Wrote(op: Op, v: Value)
      requires Legal(op, v)
      reads this, data
    {
      Gains(Encode(op, v, old(bitsWritten)))
    }

    /** Nothing of the stream or its buffer has changed. */
    twostate predicate Untouched()
      reads this, data
    {
      Gains([]) && scratch == old(scratch) && data[..] == old(data[..])
    }

    /** The write fit and is there whole, or it did not fit, the stream traps, and nothing of it was written. */
    twostate predicate AllOrNothing(op: Op, v: Value, ok: bool)
      requires Legal(op, v)
      reads this, data
    {
      && ok == old(HasRoom(op, v))
      && if ok then Wrote(op, v) else Untouched()
    }

    /** The stream trapped part of the way through these bits: it has gained some first bits of them, and not all. */
    twostate predicate Trapped(bits: seq<bool>)
      reads this, data
    {
      && Valid() && data == old(data) && numBits == old(numBits) && origin == old(origin)
      && old(written) <= written < old(written) + bits
    }

    // ---- packing ----

    method TryWriteBits64(value: uint64, bits: nat) returns (ok: bool)
      requires Valid() && bits <= 64 && value < Pow2(bits)
      modifies this, data
      ensures ok == (old(bitsWritten) + bits <= numBits)
      ensures Gains(if ok then ToBits(value, bits) else [])
      ensures !ok ==> scratch == old(scratch) && data[..] == old(data[..])
    {
      hide Image, ToBits, FromBits, BitOr, Shl64, Shr, Pow2, Unpack;
      var bw := bitsWritten;
      if bw + bits > numBits {
        assert written == written + [];
        return false;
      }
      FieldMerges(data[..], origin, written, scratch, value, bits);
      var sb := bw % 64;
      scratch := Merged(scratch, value, sb);
      bitsWritten := bw + bits;
      written := written + ToBits(value, bits);
      if sb + bits >= 64 {
        WordOffset(bw);
        PutUint64(data, BitClear(Shr(bw, 3), 7), scratch);
        scratch := Shr64(value, 64 - sb);
      }
      return true;
    }

    method TryWriteBits(value: uint32, bits: nat) returns (ok: bool)
      requires Valid() && bits <= 32 && value < Pow2(bits)
      modifies this, data
      ensures ok == (old(bitsWritten) + bits <= numBits)
      ensures Gains(if ok then ToBits(value, bits) else [])
      ensures !ok ==> scratch == old(scratch) && data[..] == old(data[..])
    {
      hide Image, ToBits, FromBits, BitOr, Shl64, Shr, Pow2, Unpack;
      var bw := bitsWritten;
      if bw + bits > numBits {
        assert written == written + [];
        return false;
      }
      FieldMerges(data[..], origin, written, scratch, value, bits);
      var sb := bw % 64;
      scratch := Merged(scratch, value, sb);
      bitsWritten := bw + bits;
      written := written + ToBits(value, bits);
      if sb + bits >= 64 {
        WordOffset(bw);
        PutUint64(data, BitClear(Shr(bw, 3), 7), scratch);
        scratch := Shr64(value, 64 - sb);
      }
      return true;
    }

    /** A write that traps when it does not fit; the trap is the result. */
    method WriteBits(value: uint32, bits: nat) returns (ok: bool)
      requires Valid() && bits <= 32 && value < Pow2(bits)
      modifies this, data
      ensures ok == (old(bitsWritten) + bits <= numBits)
      ensures if ok then Gains(ToBits(value, bits)) else Untouched()
    {
      ok := TryWriteBits(value, bits);
    }

    method WriteBits64(value: uint64, bits: nat) returns (ok: bool)
      requires Valid() && bits <= 64 && value < Pow2(bits)
      modifies this, data
      ensures ok == (old(bitsWritten) + bits <= numBits)
      ensures if ok then Gains(ToBits(value, bits)) else Untouched()
    {
      ok := TryWriteBits64(value, bits);
    }

    method WriteBool(value: bool) returns (ok: bool)
      requires Valid()
      modifies this, data
      ensures ok == (old(bitsWritten) + 1 <= numBits)
      ensures if ok then Gains([value]) else Untouched()
    {
      OneBit(value);
      ok := WriteBits(if value then 1 else 0, 1);
    }

    /** Whether an operation of this many bits fits, asked before any of it is written. */
    method Room(bits: nat) returns (ok: bool)
      requires Valid()
      ensures ok == (bitsWritten + bits <= numBits)
      ensures Untouched()
    {
      assert written == written + [];
      ok := bitsWritten + bits <= numBits;
    }

    /** An offset of up to 128 bits: the low half first, the high half carrying the rest. */
    method WriteGroups128(offset: Uint128, bits: nat)
      requires Valid() && bits <= 128 && offset.Val() < Pow2(bits) && bitsWritten + bits <= numBits
      modifies this, data
      ensures Gains(ToBits(offset.Val(), bits))
    {
      hide Image, ToBits, Pow2, Shr;
      GroupsSplit(offset, bits);
      if bits <= 64 {
        var _ := TryWriteBits64(offset.lo, bits);
        return;
      }
      var _ := TryWriteBits64(offset.lo, 64);
      var _ := TryWriteBits64(offset.hi, bits - 64);
      SeqAssoc(old(written), ToBits(offset.lo, 64), ToBits(offset.hi, bits - 64));
    }

    /** Every byte as an 8-bit write. */
    method PackBytes(bytes: seq<byte>)
      requires Valid() && bitsWritten + 8 * |bytes| <= numBits
      modifies this, data
      ensures Gains(Unpack(bytes))
    {
      hide Image, ToBits, FromBits, Pow2, Unpack;
      NothingUnpacked(written, bytes);
      for i := 0 to |bytes|
        invariant Gains(Unpack(bytes[..i]))
      {
        NextByte(old(written), bytes, i);
        var _ := TryWriteBits(bytes[i], 8);
      }
      assert bytes[..|bytes|] == bytes;
    }

    /** Whole words of bytes copied straight into the buffer, at a word boundary. */
    method CopyWords(bytes: seq<byte>)
      requires Valid() && bitsWritten % 64 == 0 && |bytes| % 8 == 0 && bitsWritten + 8 * |bytes| <= numBits
      modifies this, data
      ensures Gains(Unpack(bytes))
    {
      hide Image, Unpack, Shr, Pow2;
      ghost var w := bitsWritten / 64;
      WordsCopied(data[..], origin, written, scratch, bytes, w, |bytes| / 8);
      ByteOffset(bitsWritten);
      CopyBytes(data, Shr(bitsWritten, 3), bytes);
      bitsWritten := bitsWritten + |bytes| / 8 * 64;
      written := written + Unpack(bytes);
    }

    /** A byte run: head bytes packed up to a word boundary, whole words copied, tail bytes packed. */
    method WriteBytesStream(bytes: seq<byte>)
      requires Valid() && bitsWritten % 8 == 0 && bitsWritten + 8 * |bytes| <= numBits
      modifies this, data
      ensures Gains(Unpack(bytes))
    {
      hide Image, Unpack;
      var n := |bytes|;
      var toBoundary := (8 - bitsWritten % 64 / 8) % 8;
      var headBytes := if toBoundary < n then toBoundary else n;
      var end := headBytes + (n - headBytes) / 8 * 8;
      RunSplit(written, bytes, headBytes, end);
      HeadReachesBoundary(bitsWritten);
      PackBytes(bytes[..headBytes]);
      if headBytes == n {
        return;
      }
      if end > headBytes {
        CopyWords(bytes[headBytes..end]);
      }
      PackBytes(bytes[end..]);
    }

    // ---- serialize operations: a value outside its declaration is misuse; a trap for room is the result ----

    method SerializeBits(value: uint32, bits: int64) returns (ok: bool)
      requires Valid() && Legal(Op.Bits(bits), Num(value))
      modifies this, data
      ensures AllOrNothing(Op.Bits(bits), Num(value), ok)
    {
      hide Image, ToBits, Pow2;
      ok := WriteBits(value, bits);
    }

    method SerializeBits64(value: uint64, bits: int64) returns (ok: bool)
      requires Valid() && Legal(Bits64(bits), Num(value))
      modifies this, data
      ensures AllOrNothing(Bits64(bits), Num(value), ok)
    {
      hide Image, ToBits, Pow2;
      ok := WriteBits64(value, bits);
    }

    method SerializeInt(value: int32, min: int32, max: int32) returns (ok: bool)
      requires Valid() && Legal(RangedInt(min, max), Num(value))
      modifies this, data
      ensures AllOrNothing(RangedInt(min, max), Num(value), ok)
    {
      hide Image, ToBits, BitLen, Pow2;
      var bits := BitsRequired(Wrap32(min), Wrap32(max));
      Ranged32(min, max, value);
      RangedFits(min, max, value, 32);
      ok := TryWriteBits(Wrap32(Wrap32(value) - Wrap32(min)), bits);
    }

    method SerializeInt64(value: int64, min: int64, max: int64) returns (ok: bool)
      requires Valid() && Legal(RangedInt64(min, max), Num(value))
      modifies this, data
      ensures AllOrNothing(RangedInt64(min, max), Num(value), ok)
    {
      hide Image, ToBits, BitLen, Pow2;
      var bits := BitsRequired64(Wrap64(min), Wrap64(max));
      Ranged64(min, max, value);
      RangedFits(min, max, value, 64);
      ok := WriteBits64(Wrap64(Wrap64(value) - Wrap64(min)), bits);
    }

    method SerializeInt128(value: Int128, min: Int128, max: Int128) returns (ok: bool)
      requires Valid() && Legal(RangedInt128(min.Val(), max.Val()), Num(value.Val()))
      modifies this, data
      ensures AllOrNothing(RangedInt128(min.Val(), max.Val()), Num(value.Val()), ok)
    {
      hide Image, ToBits, BitLen, Pow2, Uint128.Sub, Uint128.Val, Int128.Val;
      var numBits := BitsRequired128(min.ToUint128(), max.ToUint128());
      Ranged128(min, max, value);
      RangedFits(min.Val(), max.Val(), value.Val(), 128);
      ok := Room(numBits);
      if ok {
        WriteGroups128(value.ToUint128().Sub(min.ToUint128()), numBits);
      }
    }

    method SerializeUint128(value: Uint128) returns (ok: bool)
      requires Valid() && Legal(RawUint128, Num(value.Val()))
      modifies this, data
      ensures AllOrNothing(RawUint128, Num(value.Val()), ok)
    {
      hide Image, ToBits, Shr, Pow2, Uint128.Val;
      RawLanes(value);
      ok := Room(128);
      if !ok {
        return;
      }
      var _ := TryWriteBits64(value.lo, 64);
      var _ := TryWriteBits64(value.hi, 64);
      SeqAssoc(old(written), ToBits(value.lo, 64), ToBits(value.hi, 64));
    }

    method SerializeFixed64(value: int64, integerBits: qbits, fractionBits: qbits, min: int64, max: int64)
      returns (ok: bool)
      requires Valid()
      requires Legal(Fixed64(integerBits, fractionBits, min, max), Num(RawOf64(min, value)))
      modifies this, data
      ensures AllOrNothing(Fixed64(integerBits, fractionBits, min, max), Num(RawOf64(min, value)), ok)
    {
      hide Image, ToBits, BitLen, Pow2, FixedPointParams64, Scaled;
      var (rawMin, rawRange, numBits) := FixedPointParams64(integerBits, fractionBits, min, max);
      Params64Exact(integerBits, fractionBits, min, max);
      FixedTest64(integerBits, fractionBits, min, max, value);
      FixedWidths64(integerBits, fractionBits, min, max);
      var offset := Wrap64(Wrap64(value) - rawMin);
      ok := WriteBits64(offset, numBits);
    }

    method SerializeFixed128(value: Int128, integerBits: qbits, fractionBits: qbits, min: int64, max: int64)
      returns (ok: bool)
      requires Valid()
      requires Legal(Fixed128(integerBits, fractionBits, min, max), Num(RawOf128(min, value.Val())))
      modifies this, data
      ensures AllOrNothing(Fixed128(integerBits, fractionBits, min, max), Num(RawOf128(min, value.Val())), ok)
    {
      hide Image, ToBits, BitLen, Pow2, FixedPointParams128, Scaled, Uint128.Sub, Uint128.Val, Int128.Val;
      var (rawMin, rawRange, numBits) := FixedPointParams128(integerBits, fractionBits, min, max);
      Params128Exact(integerBits, fractionBits, min, max);
      FixedTest128(integerBits, fractionBits, min, max, value, rawMin);
      FixedWidths128(integerBits, fractionBits, min, max);
      var offset := value.ToUint128().Sub(rawMin);
      ok := Room(numBits);
      if ok {
        WriteGroups128(offset, numBits);
      }
    }

    method SerializeUint8(value: byte) returns (ok: bool)
      requires Valid() && Legal(Uint8, Num(value))
      modifies this, data
      ensures AllOrNothing(Uint8, Num(value), ok)
    {
      hide Image, ToBits, Pow2;
      ok := WriteBits(value, 8);
    }

    method SerializeUint16(value: uint32) returns (ok: bool)
      requires Valid() && Legal(Uint16, Num(value))
      modifies this, data
      ensures AllOrNothing(Uint16, Num(value), ok)
    {
      hide Image, ToBits, Pow2;
      ok := WriteBits(value, 16);
    }

    method SerializeUint32(value: uint32) returns (ok: bool)
      requires Valid() && Legal(Uint32, Num(value))
      modifies this, data
      ensures AllOrNothing(Uint32, Num(value), ok)
    {
      hide Image, ToBits, Pow2;
      ok := WriteBits(value, 32);
    }

    method SerializeUint64(value: uint64) returns (ok: bool)
      requires Valid() && Legal(Uint64, Num(value))
      modifies this, data
      ensures AllOrNothing(Uint64, Num(value), ok)
    {
      hide Image, ToBits, Pow2;
      ok := WriteBits64(value, 64);
    }

    method SerializeBool(value: bool) returns (ok: bool)
      requires Valid() && Legal(Op.Bool, Num(if value then 1 else 0))
      modifies this, data
      ensures AllOrNothing(Op.Bool, Num(if value then 1 else 0), ok)
    {
      hide Image, ToBits, Pow2;
      OneBit(value);
      ok := WriteBool(value);
    }

    /** A finite binary32 value, as its bit pattern. */
    method SerializeFloat32(pattern: uint32) returns (ok: bool)
      requires Valid() && Legal(Float32, Num(pattern))
      modifies this, data
      ensures AllOrNothing(Float32, Num(pattern), ok)
    {
      hide Image, ToBits, Pow2, Finite;
      ok := WriteBits(pattern, 32);
    }

    method SerializeFloat64(pattern: uint64) returns (ok: bool)
      requires Valid() && Legal(Float64, Num(pattern))
      modifies this, data
      ensures AllOrNothing(Float64, Num(pattern), ok)
    {
      hide Image, ToBits, Pow2, Finite;
      ok := WriteBits64(pattern, 64);
    }

    method SerializeAlign() returns (ok: bool)
      requires Valid() && Legal(Align, Unit)
      modifies this, data
      ensures AllOrNothing(Align, Unit, ok)
    {
      hide Image, ToBits, Pow2, BitAnd, Shr;
      NegateAndMask(bitsWritten);
      var alignBits := BitAnd(Wrap64(0 - bitsWritten), 7);
      if alignBits == 0 {
        assert written == written + Zeros(0);
        return true;
      }
      ZeroBits(alignBits);
      ok := WriteBits(0, alignBits);
    }

    method SerializeBytes(bytes: seq<byte>) returns (ok: bool)
      requires Valid() && Legal(Op.Bytes(|bytes|), Blob(bytes))
      modifies this, data
      ensures AllOrNothing(Op.Bytes(|bytes|), Blob(bytes), ok)
    {
      hide Image, Unpack, ToBits, Pow2, BitAnd;
      NegateAndMask(bitsWritten);
      var alignBits := BitAnd(Wrap64(0 - bitsWritten), 7);
      ok := Room(alignBits + 8 * |bytes|);
      if !ok {
        return;
      }
      ZeroBits(alignBits);
      var _ := TryWriteBits(0, alignBits);
      WriteBytesStream(bytes);
      SeqAssoc(old(written), Zeros(alignBits), Unpack(bytes));
    }

    method SerializeString(text: seq<byte>, bufferSize: int64) returns (ok: bool)
      requires Valid() && Legal(Text(bufferSize), Blob(text))
      modifies this, data
      ensures AllOrNothing(Text(bufferSize), Blob(text), ok)
    {
      hide Image, Unpack, ToBits, Pow2, BitAnd, BitLen, Encode, Legal, BitsRequired, AlignPad;
      EncodeOfText(bufferSize, text, bitsWritten);
      var lengthBits := BitsRequired(0, bufferSize - 1);
      Ranged32(0, bufferSize - 1, |text|);
      RangedFits(0, bufferSize - 1, |text|, 32);
      NegateAndMask(bitsWritten + lengthBits);
      var alignBits := BitAnd(Wrap64(0 - (bitsWritten + lengthBits)), 7);
      ok := Room(lengthBits + alignBits + 8 * |text|);
      if !ok {
        return;
      }
      ZeroBits(alignBits);
      var _ := TryWriteBits(|text|, lengthBits);
      var _ := TryWriteBits(0, alignBits);
      WriteBytesStream(text);
      StringAssembled(old(written), ToBits(|text|, lengthBits), Zeros(alignBits), Unpack(text));
    }

    /**
     The ladder writes its flags one by one before the room for its payload is asked for, so a trap leaves
     behind the flags that fit: nothing is written exactly when the value fits nowhere, that is, no room at all.
     */
    method SerializeIntRelative(previous: int32, current: int32) returns (ok: bool)
      requires Valid() && Legal(IntRelative(previous), Num(current))
      modifies this, data
      ensures ok == old(HasRoom(IntRelative(previous), Num(current)))
      ensures ok ==> Wrote(IntRelative(previous), Num(current))
      ensures !ok ==> var flags := Flags(current - previous);
                      Gains(flags[..Lesser(old(numBits - bitsWritten), |flags|)])
      ensures !ok ==> (written == old(written) <==> old(bitsWritten == numBits))
    {
      hide Image, ToBits, Pow2, BitLen, LadderBits, EncodeNumeric, Encode, Legal, RelativeBits, Flags, RungFlags;
      RelativeStarts(previous, current, bitsWritten);
      Ranged32(previous, current, current);
      var difference := Wrap32(Wrap32(current) - Wrap32(previous));
      ok := WriteBool(difference == 1);
      if !ok || difference == 1 {
        return;
      }
      ghost var prefix := [false];
      for i := 0 to |BUCKETS|
        invariant difference >= RungFloor(i)
        invariant Gains(prefix)
        invariant RelativeBits(previous, current) == prefix + LadderBits(difference, current, i)
        invariant i + 1 <= |Flags(difference)| && prefix == Flags(difference)[..i + 1]
        invariant i == |BUCKETS| ==> prefix == Flags(difference)
      {
        LadderUnfolds(difference, current, i);
        FlagsNext(difference, i);
        var inBucket := difference <= BUCKETS[i].max;
        ok := WriteBool(inBucket);
        if !ok {
          assert written == old(written) + prefix + [];
          return;
        }
        ghost var payload := LadderPayload(difference, current, i);
        SeqAssoc(prefix, [inBucket], payload);
        SeqAssoc(old(written), prefix, [inBucket]);
        prefix := prefix + [inBucket];
        if inBucket {
          BucketLegal(difference, i);
          ok := SerializeInt(difference, BUCKETS[i].min, BUCKETS[i].max);
          SeqAssoc(old(written), prefix, payload);
          return;
        }
      }
      LadderEnds(difference, current);
      ok := WriteBits(current, 32);
      SeqAssoc(old(written), prefix, ToBits(current, 32));
    }

    // ---- messages ----

    /** One field of the operations that ask for all their room first. */
    method SerializeWhole(op: Op, v: Value) returns (ok: bool)
      requires Valid() && !op.IntRelative? && !op.Object? && Legal(op, v)
      modifies this, data
      ensures AllOrNothing(op, v, ok)
    {
      hide Image, Encode, Legal, LegalAll, Stored64, RawOf64, RawOf128, UintLanes, IntLanes, AsSigned, Int128.Val,
           Uint128.Val;
      NumericWord(op, v);
      match op
      case Bits(w) => ok := SerializeBits(v.n, w);
      case Bits64(w) => ok := SerializeBits64(v.n, w);
      case Bool => ok := SerializeBool(v.n == 1);
      case Uint8 => ok := SerializeUint8(v.n);
      case Uint16 => ok := SerializeUint16(v.n);
      case Uint32 => ok := SerializeUint32(v.n);
      case Uint64 => ok := SerializeUint64(v.n);
      case RawUint128 => ok := SerializeUint128(UintLanes(v.n));
      case RangedInt(min, max) => ok := SerializeInt(v.n, min, max);
      case RangedInt64(min, max) => ok := SerializeInt64(v.n, min, max);
      case RangedInt128(min, max) => ok := SerializeInt128(IntLanes(v.n), IntLanes(min), IntLanes(max));
      case Fixed64(ib, fb, min, max) => ok := SerializeFixed64(Stored64(v.n), ib, fb, min, max);
      case Fixed128(ib, fb, min, max) =>
        StoredLanes(v.n);
        ok := SerializeFixed128(UintLanes(v.n % TWO128).ToInt128(), ib, fb, min, max);
      case Float32 => ok := SerializeFloat32(v.n);
      case Float64 => ok := SerializeFloat64(v.n);
      case Align => ok := SerializeAlign();
      case Bytes(_) => ok := SerializeBytes(v.bytes);
      case Text(size) => ok := SerializeString(v.bytes, size);
    }

    /** One field of a message, by its declaration; a trap leaves some first part of it. */
    method Serialize(op: Op, v: Value) returns (ok: bool)
      requires Valid() && Legal(op, v)
      modifies this, data
      ensures ok == old(HasRoom(op, v))
      ensures if ok then Wrote(op, v) else Trapped(Encode(op, v, old(bitsWritten)))
      decreases op, 1
    {
      hide Image, Encode, Legal, LegalAll, Flags, RelativeBits;
      NumericWord(op, v);
      if op.IntRelative? {
        EncodeOfRelative(op.previous, v.n, bitsWritten);
        FlagsLead(op.previous, v.n);
        ok := SerializeIntRelative(op.previous, v.n);
      } else if op.Object? {
        EncodeOfObject(op.fields, v.values, bitsWritten);
        ok := SerializeObject(op.fields, v.values);
      } else {
        ok := SerializeWhole(op, v);
      }
    }

    /** A nested object: its fields in order, with no bits of its own. */
    method SerializeObject(ops: seq<Op>, vs: seq<Value>) returns (ok: bool)
      requires Valid() && LegalAll(ops, vs)
      modifies this, data
      ensures ok == (old(bitsWritten) + |EncodeAll(ops, vs, old(bitsWritten))| <= numBits)
      ensures var bits := EncodeAll(ops, vs, old(bitsWritten)); if ok then Gains(bits) else Trapped(bits)
      decreases ops, 0
    {
      hide Image, Encode, Legal;
      if ops == [] {
        assert written == written + [];
        return true;
      }
      ghost var start, first := written, Encode(ops[0], vs[0], bitsWritten);
      ghost var rest := EncodeAll(ops[1..], vs[1..], bitsWritten + |first|);
      SeqAssoc(start, first, rest);
      ok := Serialize(ops[0], vs[0]);
      if !ok {
        assert start + first <= start + first + rest;
        return;
      }
      ok := SerializeObject(ops[1..], vs[1..]);
    }

    /** A whole packet. */
    method WritePacket(ops: seq<Op>, vs: seq<Value>) returns (packet: seq<byte>)
      requires Valid() && written == [] && LegalAll(ops, vs) && |EncodeAll(ops, vs, 0)| <= numBits
      modifies this, data
      ensures packet == Packet(ops, vs)
    {
      hide Image, EncodeAll, LegalAll, Pack, Unpack, Flushed, Packet;
      var _ := SerializeObject(ops, vs);
      SerializeEnd();
      Flush();
      packet := Data();
      PacketBits(ops, vs);
      assert written == EncodeAll(ops, vs, 0);
      UnpackInjective(packet, Packet(ops, vs));
    }

    /** The end of an object emits nothing. */
    method SerializeEnd()
      requires Valid()
      ensures Valid() && written == old(written)
    {
    }

    /** Stores the partial word. */
    method Flush()
      requires Valid()
      modifies data
      ensures data == old(data) && Flushed(data[..], origin, written)
    {
      hide FromBits, Unpack, LeBytes, ToBits;
      ImageHasRoom(data[..], origin, written, scratch);
      if bitsWritten % 64 != 0 {
        WordOffset(bitsWritten);
        PutUint64(data, BitClear(Shr(bitsWritten, 3), 7), scratch);
      }
      ImageFlushes(old(data[..]), origin, written, scratch, data[..], bitsWritten / 64);
    }

    /** The packet to send: the bytes the bits occupy. */
    method Data() returns (packet: seq<byte>)
      requires bitsWritten == |written| && Flushed(data[..], origin, written)
      ensures Unpack(packet) == written + Zeros(AlignPad(|written|))
    {
      hide Unpack;
      FlushedPrefix(data[..], origin, written);
      packet := data[..(bitsWritten + 7) / 8];
      assert data[..][..(bitsWritten + 7) / 8] == packet;
    }
  }

  /** A ladder that traps part of the way: one bit of room, and a difference that takes two flags and a payload. */
  method LadderTraps() returns (s: WriteStream, ok: bool, ghost before: seq<bool>)
    ensures s.Valid() && |before| == 63 && Legal(IntRelative(0), Num(2))
    ensures !ok && s.written == before + [false]
  {
    hide Image, ToBits, Pow2, LadderBits, Encode;
    var buffer := new byte[8];
    s := new WriteStream(buffer);
    ZeroBits(63);
    var _ := s.WriteBits64(0, 63);
    before := s.written;
    ok := s.SerializeIntRelative(0, 2);
    ShortLadder();
  }
}
