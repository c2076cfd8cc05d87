/**
 Messages whose later fields depend on the values already read: a flag that says whether a field follows, a value
 relative to the one before it, a value the caller refuses for what it is.
 */
module Programs {
  import opened Bits
  import opened Words
  import opened Packing
  import opened Wire
  import opened Codec
  import opened Messages
  import opened WriteStreams
  import opened BitReaders
  import opened Destinations
  import opened ReadStreams

  /** What a serialize function does next: nothing more, its own refusal, or a field. */
  datatype Move =
    | Stop
    | Reject(reason: Refusal)
    | Read(op: Op)

  /** A serialize function: what it does next, given the values of the fields so far. */
  type Program = seq<Value> -> Move

  // ---- on the wire: the program p after the fields in past, with at most n more ----

  predicate LegalFrom(p: Program, past: seq<Value>, n: nat, vs: seq<Value>)
    decreases n
  {
    if n == 0 then vs == []
    else match p(past)
      case Stop => vs == []
      case Reject(_) => false
      case Read(op) => vs != [] && Legal(op, vs[0]) && LegalFrom(p, past + [vs[0]], n - 1, vs[1..])
  }

  function EncodeFrom(p: Program, past: seq<Value>, n: nat, vs: seq<Value>, pos: nat): seq<bool>
    requires LegalFrom(p, past, n, vs)
    decreases n
  {
    if vs == [] then []
    else
      var first := Encode(p(past).op, vs[0], pos);
      first + EncodeFrom(p, past + [vs[0]], n - 1, vs[1..], pos + |first|)
  }

  function TakeFrom(p: Program, past: seq<Value>, n: nat, bits: seq<bool>, pos: nat): (o: Outcome)
    requires pos <= |bits|
    ensures pos <= o.next <= |bits|
    ensures o.Ok? ==> o.value.Fields?
    decreases n
  {
    if n == 0 then Ok(Fields([]), pos)
    else match p(past)
      case Stop => Ok(Fields([]), pos)
      case Reject(reason) => No(reason, pos)
      case Read(op) =>
        var (v, q) :- Take(op, bits, pos);
        var (vs, r) :- TakeFrom(p, past + [v], n - 1, bits, q);
        Ok(Fields([v] + vs.values), r)
  }

  /** The bits an accepted read consumed are the ones a writer puts there for the values it returned. */
  predicate ReadFrom(p: Program, past: seq<Value>, n: nat, bits: seq<bool>, pos: nat)
    requires pos <= |bits| && TakeFrom(p, past, n, bits, pos).Ok?
  {
    var o := TakeFrom(p, past, n, bits, pos);
    && LegalFrom(p, past, n, o.value.values)
    && o.next == pos + |EncodeFrom(p, past, n, o.value.values, pos)|
    && At(bits, pos, EncodeFrom(p, past, n, o.value.values, pos))
  }

  /** One value list, one encoding, whatever the values read decide. */
  lemma {:induction false} ProgramCanonical(p: Program, past: seq<Value>, n: nat, bits: seq<bool>, pos: nat)
    requires pos <= |bits| && TakeFrom(p, past, n, bits, pos).Ok?
    ensures ReadFrom(p, past, n, bits, pos)
    decreases n
  {
    hide At, Take, Encode, Legal;
    if n > 0 && p(past).Read? {
      var op := p(past).op;
      Canonical(op, bits, pos);
      var o := Take(op, bits, pos);
      ProgramCanonical(p, past + [o.value], n - 1, bits, o.next);
      var rest := TakeFrom(p, past + [o.value], n - 1, bits, o.next).value.values;
      assert ([o.value] + rest)[1..] == rest;
      AtConcat(bits, pos, Encode(op, o.value, pos), EncodeFrom(p, past + [o.value], n - 1, rest, o.next));
    } else {
      AtSlice(bits, pos, 0);
    }
  }

  lemma {:induction false} ProgramRoundTrip(p: Program, past: seq<Value>, n: nat, vs: seq<Value>,
                                            bits: seq<bool>, pos: nat)
    requires pos <= |bits| && LegalFrom(p, past, n, vs) && At(bits, pos, EncodeFrom(p, past, n, vs, pos))
    ensures TakeFrom(p, past, n, bits, pos) == Ok(Fields(vs), pos + |EncodeFrom(p, past, n, vs, pos)|)
    decreases n
  {
    hide At, Take, Encode, Legal;
    if vs != [] {
      var op := p(past).op;
      var first := Encode(op, vs[0], pos);
      AtConcat(bits, pos, first, EncodeFrom(p, past + [vs[0]], n - 1, vs[1..], pos + |first|));
      RoundTrip(op, vs[0], bits, pos);
      ProgramRoundTrip(p, past + [vs[0]], n - 1, vs[1..], bits, pos + |first|);
      assert [vs[0]] + vs[1..] == vs;
    }
  }

  // ---- packets ----

  function ProgramPacket(p: Program, n: nat, vs: seq<Value>): seq<byte>
    requires LegalFrom(p, [], n, vs)
  {
    var bits := EncodeFrom(p, [], n, vs, 0);
    Pack(bits + Zeros(AlignPad(|bits|)))
  }

  function TakeProgramPacket(p: Program, n: nat, packet: seq<byte>): Outcome {
    var bits := Unpack(packet);
    var (vs, q) :- TakeFrom(p, [], n, bits, 0);
    var (_, r) :- TakeEnd(bits, q);
    Ok(vs, r)
  }

  lemma ProgramPacketBits(p: Program, n: nat, vs: seq<Value>)
    requires LegalFrom(p, [], n, vs)
    ensures var bits := EncodeFrom(p, [], n, vs, 0);
            Unpack(ProgramPacket(p, n, vs)) == bits + Zeros(AlignPad(|bits|))
  {
    hide EncodeFrom, LegalFrom, Pack, Unpack;
    var bits := EncodeFrom(p, [], n, vs, 0);
    UnpackPack(bits + Zeros(AlignPad(|bits|)));
  }

  lemma PaddingEnds(s: seq<bool>)
    ensures var bits := s + Zeros(AlignPad(|s|));
            TakeEnd(bits, |s|) == Ok(Unit, |bits|)
  {
    var bits := s + Zeros(AlignPad(|s|));
    assert bits[|s|..] == Zeros(AlignPad(|s|));
  }

  lemma EndConsumes(bits: seq<bool>, pos: nat)
    requires pos <= |bits|
    ensures TakeEnd(bits, pos).Ok? ==> TakeEnd(bits, pos).next == |bits|
  {
  }

  lemma ProgramPacketRoundTrip(p: Program, n: nat, vs: seq<Value>)
    requires LegalFrom(p, [], n, vs)
    ensures TakeProgramPacket(p, n, ProgramPacket(p, n, vs)) == Ok(Fields(vs), 8 * |ProgramPacket(p, n, vs)|)
  {
    hide At, EncodeFrom, LegalFrom, Pack, Unpack, ProgramPacket, TakeFrom, TakeEnd;
    ProgramPacketBits(p, n, vs);
    var s := EncodeFrom(p, [], n, vs, 0);
    AtStart(s, Zeros(AlignPad(|s|)));
    ProgramRoundTrip(p, [], n, vs, Unpack(ProgramPacket(p, n, vs)), 0);
    PaddingEnds(s);
  }

  lemma ProgramPacketCanonical(p: Program, n: nat, packet: seq<byte>)
    requires TakeProgramPacket(p, n, packet).Ok?
    ensures var o := TakeProgramPacket(p, n, packet);
            && o.value.Fields? && LegalFrom(p, [], n, o.value.values)
            && packet == ProgramPacket(p, n, o.value.values) && o.next == 8 * |packet|
  {
    hide At, EncodeFrom, LegalFrom, Pack, Unpack, ProgramPacket, TakeFrom, TakeEnd;
    var bits := Unpack(packet);
    ProgramCanonical(p, [], n, bits, 0);
    var o := TakeFrom(p, [], n, bits, 0);
    EndGives(bits, EncodeFrom(p, [], n, o.value.values, 0));
    EndConsumes(bits, o.next);
    ProgramPacketBits(p, n, o.value.values);
    UnpackInjective(packet, ProgramPacket(p, n, o.value.values));
  }

  /** A reader accepts a packet with given values exactly when they are legal and it is their packet. */
  lemma ProgramExact(p: Program, n: nat, packet: seq<byte>, vs: seq<Value>)
    ensures TakeProgramPacket(p, n, packet) == Ok(Fields(vs), 8 * |packet|)
       <==> LegalFrom(p, [], n, vs) && packet == ProgramPacket(p, n, vs)
  {
    hide LegalFrom, ProgramPacket, TakeProgramPacket;
    if LegalFrom(p, [], n, vs) && packet == ProgramPacket(p, n, vs) {
      ProgramPacketRoundTrip(p, n, vs);
    }
    if TakeProgramPacket(p, n, packet).Ok? {
      ProgramPacketCanonical(p, n, packet);
    }
  }

  /** An accepted message, read from its stream cut short, is unchanged or past the end. */
  lemma {:induction false} ProgramCut(p: Program, past: seq<Value>, n: nat, bits: seq<bool>, pos: nat, m: nat)
    requires pos <= m <= |bits| && TakeFrom(p, past, n, bits, pos).Ok?
    ensures Cut(TakeFrom(p, past, n, bits, pos), TakeFrom(p, past, n, bits[..m], pos), m)
    decreases n
  {
    hide Take;
    if n > 0 && p(past).Read? {
      var op := p(past).op;
      FieldCut(op, bits, pos, m);
      var o := Take(op, bits, pos);
      if o.next <= m {
        ProgramCut(p, past + [o.value], n - 1, bits, o.next, m);
      }
    }
  }

  /** Every strict byte prefix of a packet is refused as past_end, though the cut may change what is asked for next. */
  lemma ProgramPrefixRefused(p: Program, n: nat, vs: seq<Value>, k: nat)
    requires LegalFrom(p, [], n, vs) && k < |ProgramPacket(p, n, vs)|
    ensures var o := TakeProgramPacket(p, n, ProgramPacket(p, n, vs)[..k]);
            o.No? && o.reason == PastEnd
  {
    hide At, EncodeFrom, LegalFrom, Pack, Unpack, ProgramPacket, TakeFrom, TakeEnd;
    var packet := ProgramPacket(p, n, vs);
    var bits, s := Unpack(packet), EncodeFrom(p, [], n, vs, 0);
    ProgramPacketBits(p, n, vs);
    AtStart(s, Zeros(AlignPad(|s|)));
    ProgramRoundTrip(p, [], n, vs, bits, 0);
    assert packet[0..k] == packet[..k];
    UnpackSlice(packet, 0, k);
    assert bits[0..8 * k] == bits[..8 * k];
    ProgramCut(p, [], n, bits, 0, 8 * k);
  }

  /** Every extension of a packet is refused as trailing_data. */
  lemma ProgramExtensionRefused(p: Program, n: nat, vs: seq<Value>, more: seq<byte>)
    requires LegalFrom(p, [], n, vs) && more != []
    ensures var o := TakeProgramPacket(p, n, ProgramPacket(p, n, vs) + more);
            o.No? && o.reason == TrailingData
  {
    hide At, EncodeFrom, LegalFrom, Pack, Unpack, ProgramPacket, TakeFrom;
    var s := EncodeFrom(p, [], n, vs, 0);
    var pad := Zeros(AlignPad(|s|));
    ProgramPacketBits(p, n, vs);
    UnpackConcat(ProgramPacket(p, n, vs), more);
    SeqAssoc(s, pad, Unpack(more));
    AtStart(s, pad + Unpack(more));
    ProgramRoundTrip(p, [], n, vs, s + (pad + Unpack(more)), 0);
  }

  // ---- the measure ----

  function MeasureFrom(p: Program, past: seq<Value>, n: nat, vs: seq<Value>): nat
    requires LegalFrom(p, past, n, vs)
    decreases n
  {
    if vs == [] then 0 else Measure(p(past).op, vs[0]) + MeasureFrom(p, past + [vs[0]], n - 1, vs[1..])
  }

  function AlignsFrom(p: Program, past: seq<Value>, n: nat, vs: seq<Value>): nat
    requires LegalFrom(p, past, n, vs)
    decreases n
  {
    if vs == [] then 0 else Aligns(p(past).op) + AlignsFrom(p, past + [vs[0]], n - 1, vs[1..])
  }

  lemma {:induction false} ProgramMeasureBounds(p: Program, past: seq<Value>, n: nat, vs: seq<Value>, pos: nat)
    requires LegalFrom(p, past, n, vs)
    ensures |EncodeFrom(p, past, n, vs, pos)| <= MeasureFrom(p, past, n, vs)
         <= |EncodeFrom(p, past, n, vs, pos)| + 7 * AlignsFrom(p, past, n, vs)
    decreases n
  {
    hide Encode, Measure, Aligns, Legal;
    if vs != [] {
      MeasureBounds(p(past).op, vs[0], pos);
      ProgramMeasureBounds(p, past + [vs[0]], n - 1, vs[1..], pos + |Encode(p(past).op, vs[0], pos)|);
    }
  }

  // ---- failure ----

  /**
   A caller that never looks at the error while it reads: after a refusal it goes on with whatever its variables
   hold, stale(i) at its field number i, down whatever branches those values lead to.
   */
  function Drive(p: Program, past: seq<Value>, n: nat, bits: seq<bool>, c: Cursor, stale: nat -> Value): (c': Cursor)
    requires c.pos <= |bits|
    decreases n
  {
    if n == 0 then c
    else match p(past)
      case Stop => c
      case Reject(reason) => After(c, No(reason, c.pos))
      case Read(op) =>
        var o := Take(op, bits, c.pos);
        Drive(p, past + [Got(c, o, stale(|past|))], n - 1, bits, After(c, o), stale)
  }

  /** Failure is terminal for every program: whatever branches stale values lead to, the stream does not move again. */
  lemma {:induction false} DriveTerminal(p: Program, past: seq<Value>, n: nat, bits: seq<bool>, c: Cursor,
                                         stale: nat -> Value)
    requires c.pos <= |bits| && c.err.Some?
    ensures Drive(p, past, n, bits, c, stale) == c
    decreases n
  {
    hide Take;
    if n > 0 && p(past).Read? {
      DriveTerminal(p, past + [stale(|past|)], n - 1, bits, c, stale);
    }
  }

  /** Checking the error once at the end gives the stream that stopping at the first refusal gives. */
  lemma {:induction false} DriveEnds(p: Program, past: seq<Value>, n: nat, bits: seq<bool>, c: Cursor,
                                     stale: nat -> Value)
    requires c.pos <= |bits|
    ensures Drive(p, past, n, bits, c, stale) == After(c, TakeFrom(p, past, n, bits, c.pos))
    decreases n
  {
    hide Take;
    if c.err.Some? {
      DriveTerminal(p, past, n, bits, c, stale);
    } else if n > 0 && p(past).Read? {
      var o := Take(p(past).op, bits, c.pos);
      if o.No? {
        DriveTerminal(p, past + [stale(|past|)], n - 1, bits, After(c, o), stale);
      } else {
        DriveEnds(p, past + [o.value], n - 1, bits, After(c, o), stale);
      }
    }
  }

  // ---- on the streams ----

  method WriteProgram(p: Program, past: seq<Value>, ghost n: nat, vs: seq<Value>, s: WriteStream) returns (ok: bool)
    requires s.Valid() && LegalFrom(p, past, n, vs)
    modifies s, s.data
    ensures var bits := EncodeFrom(p, past, n, vs, old(s.bitsWritten));
            && ok == (old(s.bitsWritten) + |bits| <= s.numBits)
            && if ok then s.Gains(bits) else s.Trapped(bits)
    decreases n
  {
    hide Image, Encode, Legal;
    if vs == [] {
      assert s.written == s.written + [];
      return true;
    }
    ghost var start, first := s.written, Encode(p(past).op, vs[0], s.bitsWritten);
    ghost var rest := EncodeFrom(p, past + [vs[0]], n - 1, vs[1..], s.bitsWritten + |first|);
    SeqAssoc(start, first, rest);
    ok := s.Serialize(p(past).op, vs[0]);
    if !ok {
      assert start + first <= start + first + rest;
      return;
    }
    ok := WriteProgram(p, past + [vs[0]], n - 1, vs[1..], s);
  }

  /** Each field into a fresh variable, up to the first refusal, the caller's own included. */
  method ReadProgram(p: Program, past: seq<Value>, n: nat, s: ReadStream)
    returns (values: seq<Value>, failure: Option<Refusal>)
    requires s.Valid()
    modifies s`err, s.reader`bitsRead
    ensures s.Valid() && s.reader.padded == old(s.reader.padded) && s.reader.dataLen == old(s.reader.dataLen)
    ensures var o := TakeFrom(p, past, n, old(s.Bits()), old(s.reader.bitsRead));
            && s.Here() == After(old(s.Here()), o) && failure == s.err
            && (failure.None? ==> o.Ok? && Fields(values) == o.value)
    decreases n
  {
    hide TailFilled, Unpack, Take, Kept, Holds, StorageOf, Blank;
    s.SourceLength();
    values, failure := [], s.err;
    if failure.Some? || n == 0 || p(past).Stop? {
      return;
    }
    if p(past).Reject? {
      failure := s.Latch(p(past).reason);
      return;
    }
    var op := p(past).op;
    ghost var bits, c := s.Bits(), s.Here();
    BlankHolds(op);
    var first;
    first, failure := s.Serialize(op, Blank(op));
    if failure.Some? {
      return;
    }
    AcceptedDelivers(op, bits, c, Blank(op));
    var rest;
    rest, failure := ReadProgram(p, past + [first], n - 1, s);
    values := [first] + rest;
  }

  /** A caller that checks no error before the end: the stream ends as it does for one that checks every field. */
  method RunUnchecked(p: Program, past: seq<Value>, n: nat, s: ReadStream)
    requires s.Valid()
    modifies s`err, s.reader`bitsRead
    ensures s.Valid() && s.reader.padded == old(s.reader.padded) && s.reader.dataLen == old(s.reader.dataLen)
    ensures s.Here() == After(old(s.Here()), TakeFrom(p, past, n, old(s.Bits()), old(s.reader.bitsRead)))
    decreases n
  {
    hide TailFilled, Unpack, Take, Kept, Holds, StorageOf, Blank;
    s.SourceLength();
    if n == 0 {
      return;
    }
    match p(past)
    case Stop =>
    case Reject(reason) => var _ := s.Latch(reason);
    case Read(op) =>
      ghost var bits, c := s.Bits(), s.Here();
      BlankHolds(op);
      var value, failure := s.Serialize(op, Blank(op));
      if failure.None? {
        AcceptedDelivers(op, bits, c, Blank(op));
      }
      RunUnchecked(p, past + [value], n - 1, s);
  }

  /** A legal message of any program, through both streams, arrives as it was sent and ends where its packet ends. */
  method SendAndReceiveProgram(p: Program, n: nat, vs: seq<Value>, buffer: array<byte>)
    returns (values: seq<Value>, failure: Option<Refusal>, stream: ReadStream)
    requires LegalFrom(p, [], n, vs) && buffer.Length % 8 == 0 && MeasureFrom(p, [], n, vs) <= 8 * buffer.Length
    modifies buffer
    ensures values == vs && failure.None? && stream.Valid()
    ensures stream.Here() == Cursor(8 * |ProgramPacket(p, n, vs)|, None)
  {
    hide LegalFrom, MeasureFrom, EncodeFrom, TakeFrom, TakeEnd, ProgramPacket, Image, Flushed, Unpack, TailFilled;
    ProgramMeasureBounds(p, [], n, vs, 0);
    var writer := new WriteStream(buffer);
    var _ := WriteProgram(p, [], n, vs, writer);
    writer.Flush();
    var packet := writer.Data();
    assert writer.written == EncodeFrom(p, [], n, vs, 0);
    ProgramPacketBits(p, n, vs);
    UnpackInjective(packet, ProgramPacket(p, n, vs));
    var backing := new byte[|packet|];
    CopyBytes(backing, 0, packet);
    assert backing[..|packet|] == packet;
    stream := new ReadStream(backing, |packet|);
    ProgramPacketRoundTrip(p, n, vs);
    values, failure := ReadProgram(p, [], n, stream);
    failure := stream.SerializeEnd();
  }

  // ---- some programs ----

  /** A fixed list of fields. */
  function Sequence(ops: seq<Op>): Program {
    past => if |past| < |ops| then Read(ops[|past|]) else Stop
  }

  lemma {:induction false} SequenceIsSchema(ops: seq<Op>, past: seq<Value>, bits: seq<bool>, pos: nat)
    requires pos <= |bits| && |past| <= |ops|
    ensures TakeFrom(Sequence(ops), past, |ops| - |past|, bits, pos) == TakeAll(ops[|past|..], bits, pos)
    decreases |ops| - |past|
  {
    hide Take;
    if |past| < |ops| {
      var o := Take(ops[|past|], bits, pos);
      assert ops[|past|..][1..] == ops[|past| + 1..];
      if o.Ok? {
        SequenceIsSchema(ops, past + [o.value], bits, o.next);
      }
    }
  }

  /** A flag, and the fields that follow it when it has the value given. */
  function Guarded(present: bool, ops: seq<Op>): Program {
    past =>
      if past == [] then Read(Op.Bool)
      else if past[0] == Num(if present then 1 else 0) && |past| <= |ops| then Read(ops[|past| - 1])
      else Stop
  }

  lemma {:induction false} GuardedTail(present: bool, ops: seq<Op>, past: seq<Value>, vs: seq<Value>)
    requires 0 < |past| <= |ops| + 1 && past[0] == Num(if present then 1 else 0)
    ensures LegalFrom(Guarded(present, ops), past, |ops| + 1 - |past|, vs) <==> LegalAll(ops[|past| - 1..], vs)
    decreases |vs|
  {
    hide Legal;
    if |past| <= |ops| && vs != [] {
      assert ops[|past| - 1..][1..] == ops[|past|..];
      GuardedTail(present, ops, past + [vs[0]], vs[1..]);
    }
  }

  lemma GuardedStops(present: bool, ops: seq<Op>, flag: Value, vs: seq<Value>)
    requires flag != Num(if present then 1 else 0)
    ensures LegalFrom(Guarded(present, ops), [flag], |ops|, vs) <==> vs == []
  {
    hide Legal;
  }

  lemma GuardedOpens(present: bool, ops: seq<Op>, vs: seq<Value>)
    ensures LegalFrom(Guarded(present, ops), [], |ops| + 1, vs) <==>
              vs != [] && Legal(Op.Bool, vs[0]) && LegalFrom(Guarded(present, ops), [vs[0]], |ops|, vs[1..])
  {
    hide Legal;
    assert vs != [] ==> [] + [vs[0]] == [vs[0]];
  }

  /** The fields are there, and legal, exactly when the flag says so. */
  lemma GuardedCarries(present: bool, ops: seq<Op>, vs: seq<Value>)
    ensures LegalFrom(Guarded(present, ops), [], |ops| + 1, vs) <==>
              && vs != [] && Legal(Op.Bool, vs[0])
              && if vs[0] == Num(if present then 1 else 0) then LegalAll(ops, vs[1..]) else |vs| == 1
  {
    hide Legal, LegalAll, LegalFrom, Guarded;
    GuardedOpens(present, ops, vs);
    if vs != [] {
      if vs[0] == Num(if present then 1 else 0) {
        GuardedTail(present, ops, [vs[0]], vs[1..]);
      } else {
        GuardedStops(present, ops, vs[0], vs[1..]);
      }
    }
  }

  function NumberOf(v: Value): int { if v.Num? then v.n else 0 }

  /** Values each relative to the one before it, the first to previous. */
  function Chain(previous: int32): Program {
    past =>
      var last := if past == [] then previous else NumberOf(past[|past| - 1]);
      if -TWO31 <= last < TWO31 then Read(IntRelative(last)) else Reject(ValueOutOfRange)
  }

  /** Numbers that rise strictly, above last. */
  predicate Rises(last: int, vs: seq<Value>)
    decreases |vs|
  {
    vs == [] || (vs[0].Num? && last < vs[0].n <= INT32_MAX && Rises(vs[0].n, vs[1..]))
  }

  /** A chain carries exactly the strictly rising lists of its length, from any previous value in the domain. */
  lemma {:induction false} ChainCarriesRising(previous: int32, past: seq<Value>, n: nat, vs: seq<Value>)
    requires 0 <= (if past == [] then previous else NumberOf(past[|past| - 1])) <= INT32_MAX
    ensures LegalFrom(Chain(previous), past, n, vs)
       <==> |vs| == n && Rises(if past == [] then previous else NumberOf(past[|past| - 1]), vs)
    decreases n
  {
    var last := if past == [] then previous else NumberOf(past[|past| - 1]);
    if n > 0 && vs != [] && Legal(IntRelative(last), vs[0]) {
      ChainCarriesRising(previous, past + [vs[0]], n - 1, vs[1..]);
    }
  }
}
