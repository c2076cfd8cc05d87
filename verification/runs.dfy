/** Runs over a read stream: any program of reads and refusals, and a packet from one end to the other. */
module Runs {
  import opened Bits
  import opened Packing
  import opened Wire
  import opened Messages
  import opened WriteStreams
  import opened BitReaders
  import opened Destinations
  import opened ReadStreams
  import opened MeasureStreams

  /**
   One step of a program a reader's caller may run. A field is read into the variable in its slot, two fields into
   one variable when they share a slot; a slot that is not there is a value thrown away. A nested object may end in
   the caller's own refusal.
   */
  datatype Step =
    | Field(op: Op, slot: nat)
    | End
    | RejectStep
    | FailStep(reason: nat)
    | Nested(steps: seq<Step>, verdict: Option<nat>)

  /** The stream and every variable its caller reads into. */
  datatype State = State(at: Cursor, store: seq<Value>)

  /** The caller refusing: the first reason stays. */
  function Refuse(c: Cursor, reason: Refusal): Cursor {
    if c.err.Some? then c else c.(err := Some(reason))
  }

  function ReadSlot(op: Op, slot: nat, bits: seq<bool>, s: State): seq<Value>
    requires s.at.pos <= |bits|
  {
    if slot < |s.store| then s.store[slot := Kept(op, bits, s.at, s.store[slot])] else s.store
  }

  function Exec(step: Step, bits: seq<bool>, s: State): (s': State)
    requires s.at.pos <= |bits|
    ensures s.at.pos <= s'.at.pos <= |bits| && |s'.store| == |s.store|
    decreases step, 1
  {
    match step
    case Field(op, slot) => State(After(s.at, Take(op, bits, s.at.pos)), ReadSlot(op, slot, bits, s))
    case End => s.(at := After(s.at, TakeEnd(bits, s.at.pos)))
    case RejectStep => s.(at := Refuse(s.at, Rejected))
    case FailStep(reason) => s.(at := Refuse(s.at, ClosedRefusal(reason)))
    case Nested(steps, verdict) =>
      var inner := ExecAll(steps, bits, s);
      if verdict.Some? then inner.(at := Refuse(inner.at, ClosedRefusal(verdict.value))) else inner
  }

  function ExecAll(steps: seq<Step>, bits: seq<bool>, s: State): (s': State)
    requires s.at.pos <= |bits|
    ensures s.at.pos <= s'.at.pos <= |bits| && |s'.store| == |s.store|
    decreases steps, 0
  {
    if steps == [] then s else ExecAll(steps[1..], bits, Exec(steps[0], bits, s))
  }

  /**
   Failure is terminal: after a refusal no step, of any kind, moves the stream, changes its reason or writes to any
   variable.
   */
  lemma {:induction false} Terminal(steps: seq<Step>, bits: seq<bool>, s: State)
    requires s.at.pos <= |bits| && s.at.err.Some?
    ensures ExecAll(steps, bits, s) == s
    decreases steps, 0
  {
    hide Exec;
    if steps != [] {
      TerminalStep(steps[0], bits, s);
      Terminal(steps[1..], bits, s);
    }
  }

  lemma {:induction false} TerminalStep(step: Step, bits: seq<bool>, s: State)
    requires s.at.pos <= |bits| && s.at.err.Some?
    ensures Exec(step, bits, s) == s
    decreases step, 1
  {
    hide Take, TakeEnd, Kept, ExecAll;
    match step
    case Field(op, slot) =>
      if slot < |s.store| {
        RefusedKeeps(op, bits, s.at, s.store[slot]);
      }
    case Nested(steps, _) => Terminal(steps, bits, s);
    case _ =>
  }

  lemma {:induction false} ExecAppend(a: seq<Step>, b: seq<Step>, bits: seq<bool>, s: State)
    requires s.at.pos <= |bits|
    ensures ExecAll(a + b, bits, s) == ExecAll(b, bits, ExecAll(a, bits, s))
    decreases a
  {
    hide Exec;
    if a == [] {
      assert a + b == b;
    } else {
      assert (a + b)[1..] == a[1..] + b;
      ExecAppend(a[1..], b, bits, Exec(a[0], bits, s));
    }
  }

  /** The reason a run reports is its first refusal's; stream and variables stay as that refusal left them. */
  lemma FirstReasonWins(before: seq<Step>, after: seq<Step>, bits: seq<bool>, s: State)
    requires s.at.pos <= |bits| && ExecAll(before, bits, s).at.err.Some?
    ensures ExecAll(before + after, bits, s) == ExecAll(before, bits, s)
  {
    hide Exec, ExecAll;
    ExecAppend(before, after, bits, s);
    Terminal(after, bits, ExecAll(before, bits, s));
  }

  /** A step reads into a slot, itself or inside a nested object. */
  predicate Reads(step: Step, slot: nat) {
    match step
    case Field(_, at) => at == slot
    case Nested(steps, _) => exists inner | inner in steps :: Reads(inner, slot)
    case _ => false
  }

  predicate ReadsAny(steps: seq<Step>, slot: nat) {
    exists step | step in steps :: Reads(step, slot)
  }

  /** A run changes no variable but those its steps name. */
  lemma {:induction false} OthersUntouched(steps: seq<Step>, bits: seq<bool>, s: State, slot: nat)
    requires s.at.pos <= |bits| && slot < |s.store| && !ReadsAny(steps, slot)
    ensures ExecAll(steps, bits, s).store[slot] == s.store[slot]
    decreases steps, 0
  {
    hide Exec;
    if steps != [] {
      assert !Reads(steps[0], slot);
      OtherUntouched(steps[0], bits, s, slot);
      assert forall step | step in steps[1..] :: step in steps;
      OthersUntouched(steps[1..], bits, Exec(steps[0], bits, s), slot);
    }
  }

  lemma {:induction false} OtherUntouched(step: Step, bits: seq<bool>, s: State, slot: nat)
    requires s.at.pos <= |bits| && slot < |s.store| && !Reads(step, slot)
    ensures Exec(step, bits, s).store[slot] == s.store[slot]
    decreases step, 1
  {
    hide Take, TakeEnd, Kept, ExecAll;
    if step.Nested? {
      OthersUntouched(step.steps, bits, s, slot);
    }
  }

  lemma ExecOne(step: Step, bits: seq<bool>, s: State)
    requires s.at.pos <= |bits|
    ensures ExecAll([step], bits, s) == Exec(step, bits, s)
  {
    hide Exec;
    assert [step][1..] == [];
  }

  /**
   A run refused at a field that is one value and not an object changes only the variables of the steps before it:
   the refused field's own variable and those of the steps behind it stay as they were.
   */
  lemma OnlyStepsBefore(before: seq<Step>, op: Op, at: nat, after: seq<Step>, bits: seq<bool>, s: State, slot: nat)
    requires s.at.pos <= |bits| && !op.Object?
    requires var reached := ExecAll(before, bits, s); reached.at.err.None? && Take(op, bits, reached.at.pos).No?
    requires slot < |s.store| && !ReadsAny(before, slot)
    ensures var end := ExecAll(before + [Field(op, at)] + after, bits, s);
            && end.at == After(ExecAll(before, bits, s).at, Take(op, bits, ExecAll(before, bits, s).at.pos))
            && end.store == ExecAll(before, bits, s).store
            && end.store[slot] == s.store[slot]
  {
    hide Take, ExecAll;
    var reached, step := ExecAll(before, bits, s), Field(op, at);
    ExecAppend(before, [step], bits, s);
    ExecOne(step, bits, reached);
    assert Exec(step, bits, reached).store == reached.store;
    FirstReasonWins(before + [step], after, bits, s);
    OthersUntouched(before, bits, s, slot);
  }

  /** The fields of a message as steps, each into the next slot from base on. */
  function Unchecked(ops: seq<Op>, base: nat): seq<Step> {
    if ops == [] then [] else [Field(ops[0], base)] + Unchecked(ops[1..], base + 1)
  }

  /**
   A caller may check the error after every field, stopping at the first refusal, or once at the end: the stream and
   every variable end the same.
   */
  lemma {:induction false} CheckOnceAtTheEnd(ops: seq<Op>, bits: seq<bool>, c: Cursor,
                                             done: seq<Value>, dests: seq<Value>)
    requires c.pos <= |bits| && |ops| == |dests|
    ensures ExecAll(Unchecked(ops, |done|), bits, State(c, done + dests))
         == State(After(c, TakeAll(ops, bits, c.pos)), done + KeptAll(ops, bits, c, dests))
    decreases ops
  {
    hide Take, Kept;
    if ops != [] {
      var first := Kept(ops[0], bits, c, dests[0]);
      var next := After(c, Take(ops[0], bits, c.pos));
      assert (done + dests)[|done| := first] == (done + [first]) + dests[1..];
      assert Unchecked(ops, |done|)[1..] == Unchecked(ops[1..], |done + [first]|);
      CheckOnceAtTheEnd(ops[1..], bits, next, done + [first], dests[1..]);
      SeqAssoc(done, [first], KeptAll(ops[1..], bits, next, dests[1..]));
    }
  }

  lemma NestedRuns(steps: seq<Step>, verdict: Option<nat>, bits: seq<bool>, s: State)
    requires s.at.pos <= |bits|
    ensures var inner := ExecAll(steps, bits, s);
            && (verdict.None? ==> Exec(Nested(steps, verdict), bits, s) == inner)
            && (verdict.Some? ==>
                Exec(Nested(steps, verdict), bits, s) == Exec(FailStep(verdict.value), bits, inner))
  {
    hide Take, TakeEnd, Kept, ReadSlot, ExecAll;
  }

  /** A nested object whose caller does not refuse reads exactly as its steps do in place. */
  lemma NestingIsTransparent(steps: seq<Step>, rest: seq<Step>, bits: seq<bool>, s: State)
    requires s.at.pos <= |bits|
    ensures ExecAll([Nested(steps, None)] + rest, bits, s) == ExecAll(steps + rest, bits, s)
  {
    hide Exec, ExecAll;
    var nested := Nested(steps, None);
    NestedRuns(steps, None, bits, s);
    ExecAppend(steps, rest, bits, s);
    ExecAppend([nested], rest, bits, s);
    ExecOne(nested, bits, s);
  }

  /** One whose caller refuses reads as its steps in place and then the caller's own refusal. */
  lemma VerdictIsRefusal(steps: seq<Step>, reason: nat, rest: seq<Step>, bits: seq<bool>, s: State)
    requires s.at.pos <= |bits|
    ensures ExecAll([Nested(steps, Some(reason))] + rest, bits, s)
         == ExecAll(steps + [FailStep(reason)] + rest, bits, s)
  {
    hide Exec, ExecAll;
    var nested, fail := Nested(steps, Some(reason)), FailStep(reason);
    NestedRuns(steps, Some(reason), bits, s);
    ExecAppend(steps + [fail], rest, bits, s);
    ExecAppend(steps, [fail], bits, s);
    ExecOne(fail, bits, ExecAll(steps, bits, s));
    ExecAppend([nested], rest, bits, s);
    ExecOne(nested, bits, s);
  }

  // ---- the stream runs such programs ----

  /** Every field is read into a variable of its own type. */
  predicate Typed(step: Step, types: seq<Storage>) {
    match step
    case Field(op, slot) => slot < |types| && types[slot] == StorageOf(op)
    case Nested(steps, _) => forall inner | inner in steps :: Typed(inner, types)
    case _ => true
  }

  lemma SlotHolds(types: seq<Storage>, store: seq<Value>, slot: nat)
    requires HoldsAll(types, store) && slot < |types|
    ensures |store| == |types| && Holds(types[slot], store[slot])
    ensures forall v :: Holds(types[slot], v) ==> HoldsAll(types, store[slot := v])
    decreases slot
  {
    hide Holds;
    if slot > 0 {
      SlotHolds(types[1..], store[1..], slot - 1);
      forall v | Holds(types[slot], v) ensures HoldsAll(types, store[slot := v]) {
        assert store[slot := v][1..] == store[1..][slot - 1 := v];
      }
    }
  }

  /** The stream and its variables run every program as Exec says. */
  method Run(steps: seq<Step>, s: ReadStream, store: array<Value>, ghost types: seq<Storage>)
    requires s.Valid() && HoldsAll(types, store[..]) && forall step | step in steps :: Typed(step, types)
    modifies s`err, s.reader`bitsRead, store
    ensures s.Valid() && s.reader.padded == old(s.reader.padded) && s.reader.dataLen == old(s.reader.dataLen)
    ensures s.Bits() == old(s.Bits()) && HoldsAll(types, store[..])
    ensures State(s.Here(), store[..]) == ExecAll(steps, old(s.Bits()), old(State(s.Here(), store[..])))
    decreases steps, 0
  {
    hide TailFilled, Unpack, Take, TakeEnd, HoldsAll, Holds, StorageOf, Kept;
    s.SourceLength();
    if steps == [] {
      return;
    }
    assert steps[0] in steps;
    match steps[0] {
      case Field(op, slot) =>
        SlotHolds(types, store[..], slot);
        KeptHolds(op, s.Bits(), s.Here(), store[slot]);
        var value, _ := s.Serialize(op, store[slot]);
        store[slot] := value;
      case End => var _ := s.SerializeEnd();
      case RejectStep => var _ := s.Reject();
      case FailStep(reason) => var _ := s.Fail(reason);
      case Nested(inner, verdict) => RunObject(inner, verdict, s, store, types);
    }
    Run(steps[1..], s, store, types);
  }

  /** SerializeObject with the caller's own verdict, as its Serialize method returned it. */
  method RunObject(steps: seq<Step>, verdict: Option<nat>, s: ReadStream, store: array<Value>,
                   ghost types: seq<Storage>)
    requires s.Valid() && HoldsAll(types, store[..]) && forall step | step in steps :: Typed(step, types)
    modifies s`err, s.reader`bitsRead, store
    ensures s.Valid() && s.reader.padded == old(s.reader.padded) && s.reader.dataLen == old(s.reader.dataLen)
    ensures s.Bits() == old(s.Bits()) && HoldsAll(types, store[..])
    ensures State(s.Here(), store[..]) == Exec(Nested(steps, verdict), old(s.Bits()), old(State(s.Here(), store[..])))
    decreases steps, 1
  {
    hide TailFilled, Unpack, Take, TakeEnd, HoldsAll, Holds, StorageOf, Kept;
    s.SourceLength();
    if s.err.Some? {
      Terminal(steps, s.Bits(), State(s.Here(), store[..]));
      return;
    }
    Run(steps, s, store, types);
    if verdict.Some? {
      if s.err.Some? {
        return;
      }
      var _ := s.Latch(ClosedRefusal(verdict.value));
    }
  }

  // ---- end to end ----

  /** Room for what a measure reports is room for the write, wherever the stream stands: no field traps. */
  method MeasureThenWrite(ops: seq<Op>, vs: seq<Value>, s: WriteStream) returns (measured: nat, ok: bool)
    requires s.Valid() && LegalAll(ops, vs)
    modifies s, s.data
    ensures old(s.bitsWritten) + measured <= s.numBits ==> ok
    ensures ok ==> s.Gains(EncodeAll(ops, vs, old(s.bitsWritten)))
    ensures measured <= |EncodeAll(ops, vs, old(s.bitsWritten))| + 7 * AlignsAll(ops)
  {
    hide LegalAll, MeasureAll, EncodeAll, AlignsAll, Image;
    var m := new MeasureStream();
    m.MeasureObject(ops, vs);
    measured := m.bitsWritten;
    MeasureAllBounds(ops, vs, s.bitsWritten);
    ok := s.SerializeObject(ops, vs);
  }

  /**
   A legal message written into any buffer with the measured room, and read back from a buffer with any slack
   behind the packet into any variables of its fields' types, arrives as it was sent, exactly consumed.
   */
  method SendAndReceive(ops: seq<Op>, vs: seq<Value>, buffer: array<byte>, slack: seq<byte>, dests: seq<Value>)
    returns (values: seq<Value>, failure: Option<Refusal>, stream: ReadStream)
    requires LegalAll(ops, vs) && buffer.Length % 8 == 0 && MeasureAll(ops, vs) <= 8 * buffer.Length
    requires HoldsAll(StoragesOf(ops), dests)
    modifies buffer
    ensures values == vs && failure.None?
    ensures stream.Valid() && stream.reader.padded[..stream.reader.dataLen] == Packet(ops, vs)
    ensures stream.Here() == Cursor(8 * |Packet(ops, vs)|, None)
  {
    hide LegalAll, MeasureAll, EncodeAll, Packet, TakePacket, Image, TailFilled, HoldsAll, StoragesOf, KeptAll;
    MeasureAllBounds(ops, vs, 0);
    var writer := new WriteStream(buffer);
    var packet := writer.WritePacket(ops, vs);
    var backing := new byte[|packet| + |slack|];
    CopyBytes(backing, 0, packet + slack);
    assert backing[..|packet|] == packet;
    stream := new ReadStream(backing, |packet|);
    PacketRoundTrip(ops, vs);
    values, failure := stream.ReadPacket(ops, dests);
  }

  /** Whatever bytes a reader accepts, writing the values it returned gives those bytes again. */
  method ReceiveAndSend(ops: seq<Op>, backing: array<byte>, length: nat, buffer: array<byte>, dests: seq<Value>)
    returns (accepted: bool, packet: seq<byte>)
    requires length <= backing.Length && backing != buffer
    requires buffer.Length % 8 == 0 && length <= buffer.Length
    requires HoldsAll(StoragesOf(ops), dests)
    modifies buffer
    ensures accepted <==> TakePacket(ops, old(backing[..length])).Ok?
    ensures accepted ==> packet == old(backing[..length])
  {
    hide LegalAll, EncodeAll, Packet, TakePacket, Image, TailFilled, HoldsAll, StoragesOf, KeptAll;
    var stream := new ReadStream(backing, length);
    ghost var received := backing[..length];
    var values, failure := stream.ReadPacket(ops, dests);
    if failure.Some? {
      return false, [];
    }
    PacketCanonical(ops, received);
    PacketLength(ops, values);
    var writer := new WriteStream(buffer);
    packet := writer.WritePacket(ops, values);
    accepted := true;
  }
}
