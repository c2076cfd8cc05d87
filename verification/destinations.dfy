/** What reads leave behind: the stream's bit index and latch, and the variables the values went to. */
module Destinations {
  import opened Words
  import opened Params
  import opened Wire
  import opened Codec

  /** Where a read stream stands: its bit index and its latch. */
  datatype Cursor = Cursor(pos: nat, err: Option<Refusal>)

  /** A refused stream stays where it is; a healthy one moves as the read says. */
  function After(c: Cursor, o: Outcome): Cursor {
    if c.err.Some? then c
    else match o
      case Ok(_, next) => Cursor(next, None)
      case No(reason, next) => Cursor(next, Some(reason))
  }

  /** What one variable holds after a read: the value on success, otherwise what it held before. */
  function Got(c: Cursor, o: Outcome, dest: Value): Value {
    if c.err.None? && o.Ok? then o.value else dest
  }

  // ---- variables and what they can hold ----

  /** The storage an operation reads into: an integer type, a buffer, a string, or an object of such fields. */
  datatype Storage =
    | Nothing
    | Whole(low: int, high: int)
    | Buffer(length: nat)
    | Str
    | Struct(fields: seq<Storage>)

  function StorageOf(op: Op): Storage {
    match op
    case Bits(_) => Whole(0, TWO32 - 1)
    case Bits64(_) => Whole(0, TWO64 - 1)
    case Bool => Whole(0, 1)
    case Uint8 => Whole(0, 0xFF)
    case Uint16 => Whole(0, 0xFFFF)
    case Uint32 => Whole(0, TWO32 - 1)
    case Uint64 => Whole(0, TWO64 - 1)
    case RawUint128 => Whole(0, TWO128 - 1)
    case RangedInt(_, _) => Whole(-TWO31, TWO31 - 1)
    case RangedInt64(_, _) => Whole(-TWO63, TWO63 - 1)
    case RangedInt128(_, _) => Whole(-TWO127, TWO127 - 1)
    case Fixed64(_, _, min, _) => if min < 0 then Whole(-TWO63, TWO63 - 1) else Whole(0, TWO64 - 1)
    case Fixed128(_, _, min, _) => if min < 0 then Whole(-TWO127, TWO127 - 1) else Whole(0, TWO128 - 1)
    case Float32 => Whole(0, TWO32 - 1)
    case Float64 => Whole(0, TWO64 - 1)
    case Align => Nothing
    case Bytes(n) => Buffer(n)
    case Text(_) => Str
    case IntRelative(_) => Whole(-TWO31, TWO31 - 1)
    case Object(fields) => Struct(StoragesOf(fields))
  }

  function StoragesOf(ops: seq<Op>): (types: seq<Storage>)
    ensures |types| == |ops|
  {
    if ops == [] then [] else [StorageOf(ops[0])] + StoragesOf(ops[1..])
  }

  predicate Holds(s: Storage, v: Value)
    decreases s, 1
  {
    match s
    case Nothing => v.Unit?
    case Whole(low, high) => v.Num? && low <= v.n <= high
    case Buffer(length) => v.Blob? && |v.bytes| == length
    case Str => v.Blob?
    case Struct(fields) => v.Fields? && HoldsAll(fields, v.values)
  }

  predicate HoldsAll(types: seq<Storage>, vs: seq<Value>)
    decreases types, 0
  {
    |types| == |vs| && (types == [] || (Holds(types[0], vs[0]) && HoldsAll(types[1..], vs[1..])))
  }

  // ---- after a read ----

  /** What the variable of an operation holds after it is read: an object keeps the fields read before its refusal. */
  function Kept(op: Op, bits: seq<bool>, c: Cursor, dest: Value): Value
    requires c.pos <= |bits|
    decreases op, 1
  {
    match op
    case Object(fields) =>
      if dest.Fields? && |dest.values| == |fields| then Fields(KeptAll(fields, bits, c, dest.values)) else dest
    case _ => Got(c, Take(op, bits, c.pos), dest)
  }

  function KeptAll(ops: seq<Op>, bits: seq<bool>, c: Cursor, dests: seq<Value>): (values: seq<Value>)
    requires c.pos <= |bits| && |ops| == |dests|
    ensures |values| == |ops|
    decreases ops, 0
  {
    if ops == [] then [] else
      [Kept(ops[0], bits, c, dests[0])] + KeptAll(ops[1..], bits, After(c, Take(ops[0], bits, c.pos)), dests[1..])
  }

  /** A refused stream writes to no variable. */
  lemma {:induction false} RefusedKeeps(op: Op, bits: seq<bool>, c: Cursor, dest: Value)
    requires c.pos <= |bits| && c.err.Some?
    ensures Kept(op, bits, c, dest) == dest
    decreases op, 1
  {
    hide Take;
    if op.Object? && dest.Fields? && |dest.values| == |op.fields| {
      RefusedKeepsAll(op.fields, bits, c, dest.values);
    }
  }

  lemma {:induction false} RefusedKeepsAll(ops: seq<Op>, bits: seq<bool>, c: Cursor, dests: seq<Value>)
    requires c.pos <= |bits| && c.err.Some? && |ops| == |dests|
    ensures KeptAll(ops, bits, c, dests) == dests
    decreases ops, 0
  {
    hide Take, Kept;
    if ops != [] {
      RefusedKeeps(ops[0], bits, c, dests[0]);
      RefusedKeepsAll(ops[1..], bits, c, dests[1..]);
    }
  }

  lemma HoldsShape(ops: seq<Op>, dests: seq<Value>)
    requires HoldsAll(StoragesOf(ops), dests)
    ensures |ops| == |dests|
  {
  }

  /** An accepted read leaves exactly the values it took. */
  lemma {:induction false} AcceptedDelivers(op: Op, bits: seq<bool>, c: Cursor, dest: Value)
    requires c.pos <= |bits| && c.err.None? && Take(op, bits, c.pos).Ok? && Holds(StorageOf(op), dest)
    ensures Kept(op, bits, c, dest) == Take(op, bits, c.pos).value
    decreases op, 1
  {
    hide TakeAll, TakeNumeric, NumericOf, TakeText, TakeBlob, TakeAlign, TakeRelative, HoldsAll;
    if op.Object? {
      HoldsShape(op.fields, dest.values);
      AcceptedDeliversAll(op.fields, bits, c, dest.values);
    }
  }

  lemma {:induction false} AcceptedDeliversAll(ops: seq<Op>, bits: seq<bool>, c: Cursor, dests: seq<Value>)
    requires c.pos <= |bits| && c.err.None? && TakeAll(ops, bits, c.pos).Ok? && HoldsAll(StoragesOf(ops), dests)
    ensures |ops| == |dests| && Fields(KeptAll(ops, bits, c, dests)) == TakeAll(ops, bits, c.pos).value
    decreases ops, 0
  {
    hide Take, Kept, Holds, StorageOf;
    if ops != [] {
      AcceptedDelivers(ops[0], bits, c, dests[0]);
      AcceptedDeliversAll(ops[1..], bits, After(c, Take(ops[0], bits, c.pos)), dests[1..]);
    }
  }

  /** A legal value of a field is one its variable can hold. */
  lemma LegalHolds(op: Op, v: Value)
    requires !op.Object? && Legal(op, v)
    ensures Holds(StorageOf(op), v)
  {
    hide Legal, HoldsAll, LegalAll, Stored64;
    NumericWord(op, v);
  }

  /** What a read leaves behind is still a value of the variable's type. */
  lemma {:induction false} KeptHolds(op: Op, bits: seq<bool>, c: Cursor, dest: Value)
    requires c.pos <= |bits| && Holds(StorageOf(op), dest)
    ensures Holds(StorageOf(op), Kept(op, bits, c, dest))
    decreases op, 1
  {
    hide TakeAll, HoldsAll, Take, Legal, StoragesOf, KeptAll, Encode, At;
    if op.Object? {
      HoldsShape(op.fields, dest.values);
      KeptHoldsAll(op.fields, bits, c, dest.values);
    } else if Take(op, bits, c.pos).Ok? {
      Canonical(op, bits, c.pos);
      LegalHolds(op, Take(op, bits, c.pos).value);
    }
  }

  lemma {:induction false} KeptHoldsAll(ops: seq<Op>, bits: seq<bool>, c: Cursor, dests: seq<Value>)
    requires c.pos <= |bits| && HoldsAll(StoragesOf(ops), dests)
    ensures |ops| == |dests| && HoldsAll(StoragesOf(ops), KeptAll(ops, bits, c, dests))
    decreases ops, 0
  {
    hide Take, Kept, Holds, StorageOf;
    if ops != [] {
      KeptHolds(ops[0], bits, c, dests[0]);
      KeptHoldsAll(ops[1..], bits, After(c, Take(ops[0], bits, c.pos)), dests[1..]);
    }
  }

  /** A fresh variable of an operation's type. */
  function Blank(op: Op): Value {
    match StorageOf(op)
    case Nothing => Unit
    case Whole(_, _) => Num(0)
    case Buffer(length) => Blob(seq(length, _ => 0))
    case Str => Blob([])
    case Struct(_) => Fields(BlankAll(op.fields))
  }

  function BlankAll(ops: seq<Op>): seq<Value> {
    if ops == [] then [] else [Blank(ops[0])] + BlankAll(ops[1..])
  }

  lemma {:induction false} BlankHolds(op: Op)
    ensures Holds(StorageOf(op), Blank(op))
    decreases op, 1
  {
    hide HoldsAll;
    if op.Object? {
      BlankAllHolds(op.fields);
    }
  }

  lemma {:induction false} BlankAllHolds(ops: seq<Op>)
    ensures HoldsAll(StoragesOf(ops), BlankAll(ops))
    decreases ops, 0
  {
    hide Holds, StorageOf, Blank;
    if ops != [] {
      BlankHolds(ops[0]);
      BlankAllHolds(ops[1..]);
    }
  }
}
