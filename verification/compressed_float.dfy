/** Compressed floats on the streams: the ranged integer of the code, and on a read the test of its decode. */
module CompressedFloats {
  import opened Bits
  import opened Words
  import opened Params
  import opened Roundings
  import opened Quantizations
  import opened Wire
  import opened Packing
  import opened WriteStreams
  import opened BitReaders
  import opened MeasureStreams
  import opened Programs
  import opened Codec
  import opened Destinations
  import opened ReadStreams

  /** On the wire a compressed float is the ranged integer of its code. */
  function CodeField(c: Constants): Op {
    RangedInt64(0, c.maxInteger)
  }

  lemma CodeFieldWidth(c: Constants)
    requires WidthValid(c)
    ensures NumericOf(CodeField(c)) == Some(Ranged(0, c.maxInteger))
    ensures 1 <= c.bits == Ranged(0, c.maxInteger).width <= 32 && c.maxInteger < Pow2(c.bits)
  {
    Ranged32Width(c.maxInteger);
  }

  /** Writes the code of a finite value, under constants and a top decode the writer checks first. */
  method WriteCompressed(round: real -> real, s: WriteStream, value: real, c: Constants, min: real)
    returns (ok: bool)
    requires s.Valid() && Rounding(round) && ConstantsValid(c)
    requires IsFinite(round(min + c.delta)) && IsFinite(value)
    modifies s, s.data
    ensures Legal(CodeField(c), Num(Quantize(round, c, min, value)))
    ensures s.AllOrNothing(CodeField(c), Num(Quantize(round, c, min, value)), ok)
  {
    hide Image, Rounding, Quantize, Normalized, RoundedSum, ToBits, Pow2, BitsRequired, BitLen;
    CodeFits(round, c, min, value);
    CodeFieldWidth(c);
    ok := s.WriteBits(Quantize(round, c, min, value), c.bits);
  }

  /** The same from a declaration, whose width, ratio and top decode the writer checks to be finite. */
  method WriteDeclared(round: real -> real, s: WriteStream, value: real, min: real, max: real, resolution: real)
    returns (ok: bool)
    requires s.Valid() && Rounding(round) && Derivable(min, max, resolution) && round(min) == min && round(max) == max
    requires IsFinite(round(max - min)) && IsFinite(round(Over(round(max - min), resolution)))
    requires IsFinite(round(min + round(max - min))) && IsFinite(value)
    modifies s, s.data
    ensures var c := CompressedFloatParams(round, min, max, resolution);
            && ConstantsValid(c) && Legal(CodeField(c), Num(Quantize(round, c, min, value)))
            && s.AllOrNothing(CodeField(c), Num(Quantize(round, c, min, value)), ok)
  {
    hide Image, Rounding, Quantize, BitsRequired, Legal;
    FiniteWidthIsValid(round, min, max, resolution);
    ok := WriteCompressed(round, s, value, CompressedFloatParams(round, min, max, resolution), min);
  }

  /** The measure counts the width of the code. */
  method MeasureCompressed(round: real -> real, m: MeasureStream, ghost value: real, c: Constants, ghost min: real)
    requires Rounding(round) && ConstantsValid(c) && IsFinite(round(min + c.delta)) && IsFinite(value)
    modifies m
    ensures Legal(CodeField(c), Num(Quantize(round, c, min, value)))
    ensures m.Counts(CodeField(c), Num(Quantize(round, c, min, value)))
  {
    hide Rounding, Quantize, Pow2, BitsRequired, BitLen;
    CodeFits(round, c, min, value);
    CodeFieldWidth(c);
    m.Count(c.bits);
  }

  /** The code's read, and then the test of its decode. */
  function TakeCompressed(round: real -> real, c: Constants, min: real, bits: seq<bool>, pos: nat): Outcome
    requires pos <= |bits| && WidthValid(c) && round(c.maxInteger as real) != 0.0
  {
    var o := Take(CodeField(c), bits, pos);
    if o.Ok? && o.value.Num? && o.value.n >= 0 && Accept(round, c, min, o.value.n).NonFinite? then
      No(NonFiniteFloat, o.next)
    else o
  }

  /** The stream read one compressed float; the destination is the finite decode of its code, or as it was. */
  twostate predicate Decodes(round: real -> real, s: ReadStream, c: Constants, min: real, dest: real, value: real,
                             new failure: Option<Refusal>)
    requires WidthValid(c) && round(c.maxInteger as real) != 0.0 && old(s.Valid())
    reads s, s.reader, s.reader.padded, s.reader.tail
  {
    var o := TakeCompressed(round, c, min, old(s.Bits()), old(s.reader.bitsRead));
    && s.Valid() && s.reader.padded == old(s.reader.padded) && s.reader.dataLen == old(s.reader.dataLen)
    && s.Here() == After(old(s.Here()), o) && failure == s.err
    && if failure.None? then o.Ok? && o.value.Num? && o.value.n >= 0
                             && Accept(round, c, min, o.value.n) == Accepted(value)
       else value == dest
  }

  /** A bad declaration is refused before anything is read. */
  twostate predicate Rejects(s: ReadStream, dest: real, value: real, new failure: Option<Refusal>)
    requires old(s.Valid())
    reads s, s.reader, s.reader.padded, s.reader.tail
  {
    && s.Valid() && s.reader.padded == old(s.reader.padded) && s.reader.dataLen == old(s.reader.dataLen)
    && s.Here() == After(old(s.Here()), No(ValueOutOfRange, old(s.reader.bitsRead)))
    && failure == s.err && value == dest
  }

  /** A code is read as the raw bits of its width and then tested against the largest code. */
  lemma CodeTaken(c: Constants, bits: seq<bool>, pos: nat)
    requires pos <= |bits| && WidthValid(c)
    ensures Take(CodeField(c), bits, pos)
         == if pos + c.bits > |bits| then No(PastEnd, pos)
            else
              var code := FromBits(bits[pos..pos + c.bits]);
              if code > c.maxInteger then No(ValueOutOfRange, pos + c.bits) else Ok(Num(code), pos + c.bits)
  {
    hide FromBits, Pow2, BitsRequired, BitLen;
    CodeFieldWidth(c);
  }

  /**
   A compressed float, read from any bits: a code past the end, past the largest, with a decode that is not finite, or
   accepted.
   */
  lemma CompressedRead(round: real -> real, c: Constants, min: real, bits: seq<bool>, pos: nat)
    requires pos <= |bits| && WidthValid(c) && round(c.maxInteger as real) != 0.0
    ensures var o, next := TakeCompressed(round, c, min, bits, pos), pos + c.bits;
            if next > |bits| then o == No(PastEnd, pos)
            else
              var code := FromBits(bits[pos..next]);
              if code > c.maxInteger then o == No(ValueOutOfRange, next)
              else if IsFinite(c.delta) && IsFinite(Decode(round, c, min, code)) then o == Ok(Num(code), next)
              else o == No(NonFiniteFloat, next)
  {
    hide FromBits, BitsRequired, Take, Decode;
    CodeTaken(c, bits, pos);
  }

  /** Reads a code and decodes it; the destination is written only with a finite decode of a code in range. */
  method ReadCode(round: real -> real, s: ReadStream, dest: real, c: Constants, min: real)
    returns (value: real, failure: Option<Refusal>)
    requires s.Valid() && Rounding(round) && WidthValid(c)
    modifies s`err, s.reader`bitsRead
    ensures round(c.maxInteger as real) != 0.0 && Decodes(round, s, c, min, dest, value, failure)
  {
    hide Rounding, TailFilled, Unpack, FromBits, Decode, BitsRequired, BitLen, Pow2;
    TopIsPositive(round, c);
    CodeFieldWidth(c);
    value := dest;
    s.SourceLength();
    ghost var bits, at := s.Bits(), s.Here();
    CodeTaken(c, bits, at.pos);
    RawAccepts(c.bits, bits, at.pos);
    var code;
    code, failure := s.ReadBits(0, c.bits);
    if failure.Some? {
      return;
    }
    if code > c.maxInteger {
      failure := s.Latch(ValueOutOfRange);
      return;
    }
    // a product with, or a sum of, an infinite width is not finite
    var decoded := Decode(round, c, min, code);
    if !IsFinite(c.delta) || !IsFinite(decoded) {
      failure := s.Latch(NonFiniteFloat);
      return;
    }
    value := decoded;
  }

  /** Constants supplied by a caller are checked first. */
  method ReadPrecomputed(round: real -> real, s: ReadStream, dest: real, c: Constants, min: real)
    returns (value: real, failure: Option<Refusal>)
    requires s.Valid() && Rounding(round)
    modifies s`err, s.reader`bitsRead
    ensures if ConstantsValid(c) then
              round(c.maxInteger as real) != 0.0 && Decodes(round, s, c, min, dest, value, failure)
            else Rejects(s, dest, value, failure)
  {
    hide Rounding, BitsRequired, TailFilled, Unpack, Accept, Take, TakeCompressed;
    if !ConstantsValid(c) {
      value := dest;
      failure := s.Latch(ValueOutOfRange);
      return;
    }
    value, failure := ReadCode(round, s, dest, c, min);
  }

  /** Derived constants are not checked: a width that is not finite is found out by every decode. */
  method ReadDeclared(round: real -> real, s: ReadStream, dest: real, min: real, max: real, resolution: real)
    returns (value: real, failure: Option<Refusal>)
    requires s.Valid() && Rounding(round)
    modifies s`err, s.reader`bitsRead
    ensures if min < max && resolution > 0.0 then
              var c := CompressedFloatParams(round, min, max, resolution);
              && WidthValid(c) && round(c.maxInteger as real) != 0.0
              && Decodes(round, s, c, min, dest, value, failure)
            else Rejects(s, dest, value, failure)
  {
    hide Rounding, BitsRequired, TailFilled, Unpack, Accept, Take, TakeCompressed;
    if !Derivable(min, max, resolution) {
      value := dest;
      failure := s.Latch(ValueOutOfRange);
      return;
    }
    DerivedConstantsValid(round, min, max, resolution);
    value, failure := ReadCode(round, s, dest, CompressedFloatParams(round, min, max, resolution), min);
  }

  /** A written float is read back as the decode of its code, whatever follows it. */
  lemma WrittenIsDecoded(round: real -> real, c: Constants, min: real, value: real, bits: seq<bool>, pos: nat)
    requires Rounding(round) && ConstantsValid(c) && round(c.maxInteger as real) != 0.0 && pos <= |bits|
    requires round(min) == min && round(c.delta) == c.delta && IsFinite(min) && IsFinite(round(c.delta + min))
    ensures var code := Quantize(round, c, min, value);
            && code >= 0 && Legal(CodeField(c), Num(code))
            && (At(bits, pos, Encode(CodeField(c), Num(code), pos)) ==>
                  TakeCompressed(round, c, min, bits, pos) == Ok(Num(code), pos + c.bits))
  {
    hide Rounding, Quantize, BitsRequired, BitLen, Pow2, At, Accept, TakeNumeric, EncodeNumeric;
    CodeFits(round, c, min, value);
    CodeFieldWidth(c);
    WrittenCodesAreAccepted(round, c, min, value);
    var code := Quantize(round, c, min, value);
    if At(bits, pos, Encode(CodeField(c), Num(code), pos)) {
      RoundTrip(CodeField(c), Num(code), bits, pos);
    }
  }

  // ---- in a message ----

  /** A compressed float as a program of a message: its code, and the refusal of a decode that is not finite. */
  function CompressedProgram(round: real -> real, c: Constants, min: real): Program
    requires c.maxInteger >= 1 && round(c.maxInteger as real) != 0.0
  {
    (past: seq<Value>) =>
      if past == [] then Move.Read(CodeField(c))
      else if |past| == 1 && past[0].Num? && past[0].n >= 0 && Accept(round, c, min, past[0].n).NonFinite? then
        Move.Reject(NonFiniteFloat)
      else Stop
  }

  /** One step of a program that reads nothing further. */
  lemma OneMore(p: Program, past: seq<Value>, bits: seq<bool>, pos: nat)
    requires pos <= |bits| && !p(past).Read?
    ensures TakeFrom(p, past, 1, bits, pos)
         == if p(past).Stop? then Ok(Fields([]), pos) else No(p(past).reason, pos)
  {
  }

  /** Reading that program is reading the float. */
  lemma CompressedIsProgram(round: real -> real, c: Constants, min: real, bits: seq<bool>, pos: nat)
    requires pos <= |bits| && WidthValid(c) && round(c.maxInteger as real) != 0.0
    ensures TakeFrom(CompressedProgram(round, c, min), [], 2, bits, pos)
         == match TakeCompressed(round, c, min, bits, pos)
            case Ok(v, next) => Ok(Fields([v]), next)
            case No(reason, next) => No(reason, next)
  {
    hide Take, Accept, BitsRequired;
    var p, o := CompressedProgram(round, c, min), Take(CodeField(c), bits, pos);
    if o.Ok? {
      assert [] + [o.value] == [o.value];
      OneMore(p, [o.value], bits, o.next);
    }
  }
}
