/**
 The wire format: what each operation puts on the wire and what a reader takes from it, over bit strings and
 mathematical integers. The streams are proved against these functions.
 */
module Wire {
  import opened Bits
  import opened Words
  import opened Utf8

  datatype Option<+T> = None | Some(value: T)

  datatype Refusal =
    | PastEnd
    | ValueOutOfRange
    | NonzeroPadding
    | TrailingData
    | NonFiniteFloat
    | InvalidUTF8
    | EmbeddedNul
    | NonCanonical
    | Rejected

  /** Integer and fraction bits of a Q format; bounded so that their sum does not wrap. */
  type qbits = x: int | -0x4000_0000_0000_0000 <= x < 0x4000_0000_0000_0000

  /** One serialize call with its declaration. */
  datatype Op =
    | Bits(width: int64)
    | Bits64(width: int64)
    | Bool
    | Uint8
    | Uint16
    | Uint32
    | Uint64
    | RawUint128
    | RangedInt(min: int32, max: int32)
    | RangedInt64(min64: int64, max64: int64)
    | RangedInt128(min128: int128, max128: int128)
    | Fixed64(integerBits: qbits, fractionBits: qbits, minUnits: int64, maxUnits: int64)
    | Fixed128(integerBits: qbits, fractionBits: qbits, minUnits: int64, maxUnits: int64)
    | Float32
    | Float64
    | Align
    | Bytes(count: nat)
    | Text(bufferSize: int64)
    | IntRelative(previous: int32)
    | Object(fields: seq<Op>)

  datatype Value =
    | Unit
    | Num(n: int)
    | Blob(bytes: seq<byte>)
    | Fields(values: seq<Value>)

  // ---- fields that are one offset from a lower bound ----

  datatype Pattern = AnyPattern | Binary32 | Binary64

  /** A field of width bits holding n - low, which must not exceed span. */
  datatype Numeric = Numeric(width: nat, low: int, span: nat, pattern: Pattern)

  function Raw(width: nat): Numeric {
    Numeric(width, 0, Pow2(width) - 1, AnyPattern)
  }

  function Ranged(low: int, high: int): Numeric
    requires low <= high
  {
    Numeric(BitLen(high - low), low, high - low, AnyPattern)
  }

  /** A Q format whose whole-unit bounds its storage can hold: signed exactly when the lower bound is negative. */
  predicate QFormat(integerBits: int, fractionBits: int, min: int, max: int) {
    && integerBits >= 1 && fractionBits >= 0 && min <= max
    && if min < 0 then 0 - Pow2(integerBits - 1) <= min && max < Pow2(integerBits - 1)
       else max < Pow2(integerBits)
  }

  function Scaled(ib: int, fb: int, min: int, max: int): Option<Numeric> {
    if QFormat(ib, fb, min, max) then
      MulMonotone(min, max, Pow2(fb));
      Some(Ranged(min * Pow2(fb), max * Pow2(fb)))
    else None
  }

  /** The numeric field an operation declares, or nothing when the declaration is bad. */
  function NumericOf(op: Op): Option<Numeric> {
    match op
    case Bits(w) => if 1 <= w <= 32 then Some(Raw(w)) else None
    case Bits64(w) => if 1 <= w <= 64 then Some(Raw(w)) else None
    case Bool => Some(Raw(1))
    case Uint8 => Some(Raw(8))
    case Uint16 => Some(Raw(16))
    case Uint32 => Some(Raw(32))
    case Uint64 => Some(Raw(64))
    case RawUint128 => Some(Raw(128))
    case RangedInt(min, max) => if min <= max then Some(Ranged(min, max)) else None
    case RangedInt64(min, max) => if min <= max then Some(Ranged(min, max)) else None
    case RangedInt128(min, max) => if min <= max then Some(Ranged(min, max)) else None
    case Fixed64(ib, fb, min, max) => if ib + fb <= 64 then Scaled(ib, fb, min, max) else None
    case Fixed128(ib, fb, min, max) => if ib + fb == 128 then Scaled(ib, fb, min, max) else None
    case Float32 => Some(Raw(32).(pattern := Binary32))
    case Float64 => Some(Raw(64).(pattern := Binary64))
    case _ => None
  }

  predicate IsNumeric(op: Op) {
    !op.Align? && !op.Bytes? && !op.Text? && !op.IntRelative? && !op.Object?
  }

  /** A binary floating point pattern is finite when its exponent field is not all ones. */
  predicate Finite(p: Pattern, n: int) {
    match p
    case AnyPattern => true
    case Binary32 => n / 0x80_0000 % 0x100 != 0xFF
    case Binary64 => n / 0x10_0000_0000_0000 % 0x800 != 0x7FF
  }

  predicate Fits(f: Numeric, n: int) {
    0 <= n - f.low <= f.span && Finite(f.pattern, n)
  }

  function EncodeNumeric(f: Numeric, n: int): (s: seq<bool>)
    requires Fits(f, n)
    ensures |s| == f.width
  {
    ToBits(n - f.low, f.width)
  }

  // ---- int_relative ----

  const INT32_MAX := 0x7FFF_FFFF
  const BOUNDED_MAX := 69914

  datatype Bucket = Bucket(min: nat, max: nat)

  const BUCKETS: seq<Bucket> :=
    [Bucket(2, 6), Bucket(7, 23), Bucket(24, 280), Bucket(281, 4377), Bucket(4378, BOUNDED_MAX)]

  function BucketField(i: nat): Numeric
    requires i < |BUCKETS|
  {
    Ranged(BUCKETS[i].min, BUCKETS[i].max)
  }

  /** The least difference rung i carries. */
  function RungFloor(i: nat): nat
    requires i <= |BUCKETS|
  {
    if i == |BUCKETS| then BOUNDED_MAX + 1 else BUCKETS[i].min
  }

  /** The ladder from rung i down: a flag for each rung, then the payload of the first that holds the difference. */
  function LadderBits(difference: nat, current: nat, i: nat): seq<bool>
    requires i <= |BUCKETS|
    requires difference >= RungFloor(i)
    decreases |BUCKETS| - i
  {
    if i == |BUCKETS| then ToBits(current, 32)
    else if difference <= BUCKETS[i].max then [true] + EncodeNumeric(BucketField(i), difference)
    else [false] + LadderBits(difference, current, i + 1)
  }

  function RelativeBits(previous: nat, current: nat): seq<bool>
    requires previous < current
  {
    if current - previous == 1 then [true] else [false] + LadderBits(current - previous, current, 0)
  }

  // ---- writing ----

  /** The declaration is one a writer accepts. */
  predicate Declared(op: Op) {
    match op
    case Align => true
    case Bytes(_) => true
    case Text(size) => 1 <= size <= INT32_MAX
    case IntRelative(previous) => previous >= 0
    case Object(fields) => forall f | f in fields :: Declared(f)
    case _ => NumericOf(op).Some?
  }

  predicate LegalText(size: int64, text: seq<byte>) {
    1 <= size <= INT32_MAX && |text| < size && !HasNul(text) && WellFormed(text)
  }

  /** The value is one the operation can carry. */
  predicate Legal(op: Op, v: Value)
    decreases op, 1
  {
    match op
    case Align => v.Unit?
    case Bytes(n) => v.Blob? && |v.bytes| == n
    case Text(size) => v.Blob? && LegalText(size, v.bytes)
    case IntRelative(previous) => v.Num? && 0 <= previous < v.n <= INT32_MAX
    case Object(fields) => v.Fields? && LegalAll(fields, v.values)
    case _ => NumericOf(op).Some? && v.Num? && Fits(NumericOf(op).value, v.n)
  }

  predicate LegalAll(ops: seq<Op>, vs: seq<Value>)
    decreases ops, 0
  {
    |ops| == |vs| && (ops == [] || (Legal(ops[0], vs[0]) && LegalAll(ops[1..], vs[1..])))
  }

  function EncodeBlob(bytes: seq<byte>, pos: nat): seq<bool> {
    Zeros(AlignPad(pos)) + Unpack(bytes)
  }

  function EncodeText(size: int64, text: seq<byte>, pos: nat): seq<bool>
    requires LegalText(size, text)
  {
    var length := Ranged(0, size - 1);
    EncodeNumeric(length, |text|) + EncodeBlob(text, pos + length.width)
  }

  /** The bits an operation adds to a stream that already holds pos bits. */
  function Encode(op: Op, v: Value, pos: nat): seq<bool>
    requires Legal(op, v)
    decreases op, 1
  {
    match op
    case Align => Zeros(AlignPad(pos))
    case Bytes(_) => EncodeBlob(v.bytes, pos)
    case Text(size) => EncodeText(size, v.bytes, pos)
    case IntRelative(previous) => RelativeBits(previous, v.n)
    case Object(fields) => EncodeAll(fields, v.values, pos)
    case _ => EncodeNumeric(NumericOf(op).value, v.n)
  }

  function EncodeAll(ops: seq<Op>, vs: seq<Value>, pos: nat): seq<bool>
    requires LegalAll(ops, vs)
    decreases ops, 0
  {
    if ops == [] then [] else
      var first := Encode(ops[0], vs[0], pos);
      first + EncodeAll(ops[1..], vs[1..], pos + |first|)
  }

  // ---- reading ----

  /** What one read does: the value and the bit index after it, or the refusal and the bit index it stopped at. */
  datatype Outcome = Ok(value: Value, next: nat) | No(reason: Refusal, next: nat) {
    predicate IsFailure() { No? }

    function PropagateFailure(): Outcome
      requires No?
    {
      this
    }

    function Extract(): (Value, nat)
      requires Ok?
    {
      (value, next)
    }
  }

  /** A read of a whole operation that would take it past the end consumes nothing. */
  function TakeNumeric(f: Numeric, bits: seq<bool>, pos: nat): (o: Outcome)
    requires pos <= |bits|
    ensures pos <= o.next <= |bits|
    ensures o.Ok? ==> o.value.Num?
  {
    var next := pos + f.width;
    if next > |bits| then No(PastEnd, pos) else
      var offset := FromBits(bits[pos..next]);
      if offset > f.span then No(ValueOutOfRange, next)
      else if !Finite(f.pattern, f.low + offset) then No(NonFiniteFloat, next)
      else Ok(Num(f.low + offset), next)
  }

  function TakeAlign(bits: seq<bool>, pos: nat): (o: Outcome)
    requires pos <= |bits|
    ensures pos <= o.next <= |bits|
  {
    var next := pos + AlignPad(pos);
    if next == pos then Ok(Unit, pos)
    else if next > |bits| then No(PastEnd, pos)
    else if bits[pos..next] != Zeros(AlignPad(pos)) then No(NonzeroPadding, next)
    else Ok(Unit, next)
  }

  /** An align and n bytes. */
  function TakeBlob(n: nat, bits: seq<bool>, pos: nat): (o: Outcome)
    requires pos <= |bits|
    ensures pos <= o.next <= |bits|
    ensures o.Ok? ==> o.value.Blob?
  {
    var (_, start) :- TakeAlign(bits, pos);
    if n > (|bits| - start) / 8 then No(PastEnd, start)
    else Ok(Blob(Pack(bits[start..start + 8 * n])), start + 8 * n)
  }

  function TakeText(size: int64, bits: seq<bool>, pos: nat): (o: Outcome)
    requires pos <= |bits|
    ensures pos <= o.next <= |bits|
  {
    if !(1 <= size <= INT32_MAX) then No(ValueOutOfRange, pos) else
      var (length, p) :- TakeNumeric(Ranged(0, size - 1), bits, pos);
      var (text, q) :- TakeBlob(length.n, bits, p);
      if HasNul(text.bytes) then No(EmbeddedNul, q)
      else if !WellFormed(text.bytes) then No(InvalidUTF8, q)
      else Ok(text, q)
  }

  /** The reconstructed value must lie in the domain, above previous. */
  function RelativeResult(previous: int, current: int, pos: nat): (o: Outcome)
    ensures o.next == pos
  {
    if current > INT32_MAX || current <= previous then No(ValueOutOfRange, pos) else Ok(Num(current), pos)
  }

  function TakeLadder(previous: int, bits: seq<bool>, pos: nat, i: nat): (o: Outcome)
    requires pos <= |bits| && i <= |BUCKETS|
    ensures pos <= o.next <= |bits|
    decreases |BUCKETS| - i
  {
    if i == |BUCKETS| then
      var (raw, p) :- TakeNumeric(Raw(32), bits, pos);
      if previous < raw.n <= INT32_MAX && raw.n - previous <= BOUNDED_MAX then No(NonCanonical, p)
      else RelativeResult(previous, raw.n, p)
    else
      var (flag, p) :- TakeNumeric(Raw(1), bits, pos);
      if flag.n != 0 then
        var (difference, q) :- TakeNumeric(BucketField(i), bits, p);
        RelativeResult(previous, previous + difference.n, q)
      else TakeLadder(previous, bits, p, i + 1)
  }

  function TakeRelative(previous: int, bits: seq<bool>, pos: nat): (o: Outcome)
    requires pos <= |bits|
    ensures pos <= o.next <= |bits|
  {
    if previous < 0 then No(ValueOutOfRange, pos) else
      var (flag, p) :- TakeNumeric(Raw(1), bits, pos);
      if flag.n != 0 then RelativeResult(previous, previous + 1, p)
      else TakeLadder(previous, bits, p, 0)
  }

  function Take(op: Op, bits: seq<bool>, pos: nat): (o: Outcome)
    requires pos <= |bits|
    ensures pos <= o.next <= |bits|
    decreases op, 1
  {
    match op
    case Align => TakeAlign(bits, pos)
    case Bytes(n) => TakeBlob(n, bits, pos)
    case Text(size) => TakeText(size, bits, pos)
    case IntRelative(previous) => TakeRelative(previous, bits, pos)
    case Object(fields) => TakeAll(fields, bits, pos)
    case _ =>
      match NumericOf(op)
      case None => No(ValueOutOfRange, pos)
      case Some(f) => TakeNumeric(f, bits, pos)
  }

  function TakeAll(ops: seq<Op>, bits: seq<bool>, pos: nat): (o: Outcome)
    requires pos <= |bits|
    ensures pos <= o.next <= |bits|
    ensures o.Ok? ==> o.value.Fields?
    decreases ops, 0
  {
    if ops == [] then Ok(Fields([]), pos) else
      var (v, p) :- Take(ops[0], bits, pos);
      var (vs, q) :- TakeAll(ops[1..], bits, p);
      Ok(Fields([v] + vs.values), q)
  }

  /** The end of a packet's object: nothing left but zero padding in the final byte. */
  function TakeEnd(bits: seq<bool>, pos: nat): (o: Outcome)
    requires pos <= |bits|
    ensures pos <= o.next <= |bits|
  {
    var left := |bits| - pos;
    if left >= 8 then No(TrailingData, pos)
    else if bits[pos..] != Zeros(left) then No(NonzeroPadding, |bits|)
    else Ok(Unit, |bits|)
  }

  /** A whole packet: an object and its end. */
  function TakePacket(ops: seq<Op>, packet: seq<byte>): Outcome {
    var bits := Unpack(packet);
    var (vs, p) :- TakeAll(ops, bits, 0);
    var (_, q) :- TakeEnd(bits, p);
    Ok(vs, q)
  }

  /** The packet a writer hands on: the bits of the object, zero padded to a whole byte. */
  function Packet(ops: seq<Op>, vs: seq<Value>): seq<byte>
    requires LegalAll(ops, vs)
  {
    var bits := EncodeAll(ops, vs, 0);
    Pack(bits + Zeros(AlignPad(|bits|)))
  }

  // ---- measuring ----

  /** The bits a measure counts: 7 for every possible align, the exact width for everything else. */
  function Measure(op: Op, v: Value): nat
    requires Legal(op, v)
    decreases op, 1
  {
    match op
    case Align => 7
    case Bytes(n) => 7 + 8 * n
    case Text(size) => BitLen(size - 1) + 7 + 8 * |v.bytes|
    case IntRelative(previous) => |RelativeBits(previous, v.n)|
    case Object(fields) => MeasureAll(fields, v.values)
    case _ => NumericOf(op).value.width
  }

  function MeasureAll(ops: seq<Op>, vs: seq<Value>): nat
    requires LegalAll(ops, vs)
    decreases ops, 0
  {
    if ops == [] then 0 else Measure(ops[0], vs[0]) + MeasureAll(ops[1..], vs[1..])
  }

  /** How many align, bytes and text fields there are, at any depth. */
  function Aligns(op: Op): nat
    decreases op, 1
  {
    match op
    case Align => 1
    case Bytes(_) => 1
    case Text(_) => 1
    case Object(fields) => AlignsAll(fields)
    case _ => 0
  }

  function AlignsAll(ops: seq<Op>): nat
    decreases ops, 0
  {
    if ops == [] then 0 else Aligns(ops[0]) + AlignsAll(ops[1..])
  }

  // ---- refusals a caller gives ----

  /** closedRefusal: a reason outside the closed list is the caller refusing without saying why. */
  function ClosedRefusal(reason: nat): Refusal {
    match reason
    case 1 => PastEnd
    case 2 => ValueOutOfRange
    case 3 => NonzeroPadding
    case 4 => TrailingData
    case 5 => NonFiniteFloat
    case 6 => InvalidUTF8
    case 7 => EmbeddedNul
    case 8 => NonCanonical
    case _ => Rejected
  }
}
