/** Whole packets: exact, self-delimiting, and never longer than their measure. */
module Messages {
  import opened Bits
  import opened Words
  import opened Utf8
  import opened Wire
  import opened Codec

  // ---- one packet per value, one value per packet ----

  lemma PacketBits(ops: seq<Op>, vs: seq<Value>)
    requires LegalAll(ops, vs)
    ensures var bits := EncodeAll(ops, vs, 0);
            Unpack(Packet(ops, vs)) == bits + Zeros(AlignPad(|bits|))
  {
    hide EncodeAll, LegalAll, Pack, Unpack;
    var bits := EncodeAll(ops, vs, 0);
    UnpackPack(bits + Zeros(AlignPad(|bits|)));
  }

  lemma PadTo8(n: nat, total: nat)
    requires n <= total < n + 8 && total % 8 == 0
    ensures total - n == AlignPad(n)
  {
  }

  lemma AtStart(s: seq<bool>, more: seq<bool>)
    ensures At(s + more, 0, s)
  {
  }

  /** A writer's packet reads back as the values written, with nothing left over. */
  lemma PacketRoundTrip(ops: seq<Op>, vs: seq<Value>)
    requires LegalAll(ops, vs)
    ensures TakePacket(ops, Packet(ops, vs)) == Ok(Fields(vs), 8 * |Packet(ops, vs)|)
  {
    hide At, EncodeAll, LegalAll, Pack, Unpack, Packet, TakeAll;
    var s := EncodeAll(ops, vs, 0);
    var pad := Zeros(AlignPad(|s|));
    PacketBits(ops, vs);
    AtStart(s, pad);
    RoundTripAll(ops, vs, s + pad, 0);
    assert (s + pad)[|s|..] == pad;
  }

  /** An accepted end leaves nothing but the padding to a whole byte. */
  lemma EndGives(bits: seq<bool>, s: seq<bool>)
    requires |bits| % 8 == 0 && At(bits, 0, s) && TakeEnd(bits, |s|).Ok?
    ensures bits == s + Zeros(AlignPad(|s|))
  {
    assert bits == bits[0..|s|] + bits[|s|..];
    PadTo8(|s|, |bits|);
  }

  /** A packet the reader accepts is the one packet of the values it returned, byte for byte. */
  lemma PacketCanonical(ops: seq<Op>, packet: seq<byte>)
    requires TakePacket(ops, packet).Ok?
    ensures var o := TakePacket(ops, packet);
            o.value.Fields? && LegalAll(ops, o.value.values) && packet == Packet(ops, o.value.values)
  {
    hide At, EncodeAll, LegalAll, Pack, Unpack, Packet, TakeAll, TakeEnd;
    var bits := Unpack(packet);
    CanonicalAll(ops, bits, 0);
    var values := TakeAll(ops, bits, 0).value.values;
    EndGives(bits, EncodeAll(ops, values, 0));
    PacketBits(ops, values);
    UnpackInjective(packet, Packet(ops, values));
  }

  /** The reader accepts exactly the packets writers produce, and tells apart every two of them. */
  lemma PacketExact(ops: seq<Op>, packet: seq<byte>, vs: seq<Value>)
    ensures TakePacket(ops, packet) == Ok(Fields(vs), 8 * |packet|) <==> LegalAll(ops, vs) && packet == Packet(ops, vs)
  {
    hide LegalAll, Packet, TakePacket;
    if LegalAll(ops, vs) && packet == Packet(ops, vs) {
      PacketRoundTrip(ops, vs);
    }
    if TakePacket(ops, packet).Ok? {
      PacketCanonical(ops, packet);
    }
  }

  /** Different values never share a packet. */
  lemma PacketsDiffer(ops: seq<Op>, vs: seq<Value>, vs': seq<Value>)
    requires LegalAll(ops, vs) && LegalAll(ops, vs') && vs != vs'
    ensures Packet(ops, vs) != Packet(ops, vs')
  {
    hide LegalAll, Packet, TakePacket;
    PacketRoundTrip(ops, vs);
    PacketRoundTrip(ops, vs');
  }

  // ---- truncation and extension ----

  /** Cutting a stream changes a field only when the cut goes through it, and then the field is past the end. */
  lemma NumericCut(f: Numeric, bits: seq<bool>, pos: nat, m: nat)
    requires pos <= m <= |bits|
    ensures TakeNumeric(f, bits[..m], pos)
         == if pos + f.width <= m then TakeNumeric(f, bits, pos) else No(PastEnd, pos)
  {
    hide FromBits, Finite;
    if pos + f.width <= m {
      assert bits[..m][pos..pos + f.width] == bits[pos..pos + f.width];
    }
  }

  lemma AlignCut(bits: seq<bool>, pos: nat, m: nat)
    requires pos <= m <= |bits|
    ensures TakeAlign(bits[..m], pos)
         == if pos + AlignPad(pos) <= m then TakeAlign(bits, pos) else No(PastEnd, pos)
  {
    var next := pos + AlignPad(pos);
    if next <= m {
      assert bits[..m][pos..next] == bits[pos..next];
    }
  }

  /** An accepted read, on a stream cut at m: the same, or past the end when it needed more. */
  predicate Cut(o: Outcome, o': Outcome, m: nat) {
    if o.next <= m then o' == o else o'.No? && o'.reason == PastEnd
  }

  lemma BlobCut(n: nat, bits: seq<bool>, pos: nat, m: nat)
    requires pos <= m <= |bits| && TakeBlob(n, bits, pos).Ok?
    ensures Cut(TakeBlob(n, bits, pos), TakeBlob(n, bits[..m], pos), m)
  {
    hide Pack;
    AlignCut(bits, pos, m);
    var start := TakeAlign(bits, pos).next;
    if start + 8 * n <= m {
      assert bits[..m][start..start + 8 * n] == bits[start..start + 8 * n];
    }
  }

  lemma NumericNext(f: Numeric, bits: seq<bool>, pos: nat)
    requires pos <= |bits| && TakeNumeric(f, bits, pos).Ok?
    ensures var o := TakeNumeric(f, bits, pos); o.next == pos + f.width && o.value.n >= f.low
  {
  }

  lemma TextCut(size: int64, bits: seq<bool>, pos: nat, m: nat)
    requires pos <= m <= |bits| && TakeText(size, bits, pos).Ok?
    ensures Cut(TakeText(size, bits, pos), TakeText(size, bits[..m], pos), m)
  {
    hide TakeNumeric, TakeBlob, WellFormed, HasNul;
    var f := Ranged(0, size - 1);
    NumericCut(f, bits, pos, m);
    var o := TakeNumeric(f, bits, pos);
    NumericNext(f, bits, pos);
    if o.next <= m {
      BlobCut(o.value.n, bits, o.next, m);
    }
  }

  lemma {:induction false} LadderCut(previous: int, bits: seq<bool>, pos: nat, i: nat, m: nat)
    requires pos <= m <= |bits| && i <= |BUCKETS| && TakeLadder(previous, bits, pos, i).Ok?
    ensures Cut(TakeLadder(previous, bits, pos, i), TakeLadder(previous, bits[..m], pos, i), m)
    decreases |BUCKETS| - i
  {
    hide TakeNumeric, BitLen, At;
    if i == |BUCKETS| {
      NumericCut(Raw(32), bits, pos, m);
      NumericNext(Raw(32), bits, pos);
    } else {
      NumericCut(Raw(1), bits, pos, m);
      NumericNext(Raw(1), bits, pos);
      if pos + 1 <= m {
        FlagReads(bits, pos);
        if bits[pos] {
          NumericCut(BucketField(i), bits, pos + 1, m);
          NumericNext(BucketField(i), bits, pos + 1);
        } else {
          LadderCut(previous, bits, pos + 1, i + 1, m);
        }
      }
    }
  }

  lemma RelativeCut(previous: int, bits: seq<bool>, pos: nat, m: nat)
    requires pos <= m <= |bits| && TakeRelative(previous, bits, pos).Ok?
    ensures Cut(TakeRelative(previous, bits, pos), TakeRelative(previous, bits[..m], pos), m)
  {
    hide TakeNumeric, TakeLadder, At;
    NumericCut(Raw(1), bits, pos, m);
    NumericNext(Raw(1), bits, pos);
    if pos + 1 <= m {
      FlagReads(bits, pos);
      if !bits[pos] {
        LadderCut(previous, bits, pos + 1, 0, m);
      }
    }
  }

  /** A field of an accepted packet, read from the packet cut short, is either unchanged or past the end. */
  lemma {:induction false} FieldCut(op: Op, bits: seq<bool>, pos: nat, m: nat)
    requires pos <= m <= |bits| && Take(op, bits, pos).Ok?
    ensures Cut(Take(op, bits, pos), Take(op, bits[..m], pos), m)
    decreases op, 1
  {
    hide TakeAll, TakeText, TakeBlob, TakeRelative, TakeNumeric, TakeAlign, NumericOf;
    if IsNumeric(op) {
      NumericCut(NumericOf(op).value, bits, pos, m);
      NumericNext(NumericOf(op).value, bits, pos);
      return;
    }
    match op
    case Align =>
      AlignCut(bits, pos, m);
      AlignReads(bits, pos);
    case Bytes(n) => BlobCut(n, bits, pos, m);
    case Text(size) => TextCut(size, bits, pos, m);
    case IntRelative(previous) => RelativeCut(previous, bits, pos, m);
    case Object(fields) => FieldsCut(fields, bits, pos, m);
  }

  lemma {:induction false} FieldsCut(ops: seq<Op>, bits: seq<bool>, pos: nat, m: nat)
    requires pos <= m <= |bits| && TakeAll(ops, bits, pos).Ok?
    ensures Cut(TakeAll(ops, bits, pos), TakeAll(ops, bits[..m], pos), m)
    decreases ops, 0
  {
    hide Take;
    if ops != [] {
      FieldCut(ops[0], bits, pos, m);
      var next := Take(ops[0], bits, pos).next;
      if next <= m {
        FieldsCut(ops[1..], bits, next, m);
      }
    }
  }

  /** Every strict byte prefix of a packet is refused as past_end. */
  lemma PrefixRefused(ops: seq<Op>, vs: seq<Value>, k: nat)
    requires LegalAll(ops, vs) && k < |Packet(ops, vs)|
    ensures var o := TakePacket(ops, Packet(ops, vs)[..k]);
            o.No? && o.reason == PastEnd
  {
    hide At, EncodeAll, LegalAll, Pack, Unpack, Packet, TakeAll;
    var packet := Packet(ops, vs);
    var bits, s := Unpack(packet), EncodeAll(ops, vs, 0);
    PacketBits(ops, vs);
    AtStart(s, Zeros(AlignPad(|s|)));
    RoundTripAll(ops, vs, bits, 0);
    assert packet[0..k] == packet[..k];
    UnpackSlice(packet, 0, k);
    assert bits[0..8 * k] == bits[..8 * k];
    assert 8 * k < |s|;
    FieldsCut(ops, bits, 0, 8 * k);
  }

  /** Every extension of a packet is refused as trailing_data. */
  lemma ExtensionRefused(ops: seq<Op>, vs: seq<Value>, more: seq<byte>)
    requires LegalAll(ops, vs) && more != []
    ensures var o := TakePacket(ops, Packet(ops, vs) + more);
            o.No? && o.reason == TrailingData
  {
    hide At, EncodeAll, LegalAll, Pack, Unpack, Packet, TakeAll;
    var s := EncodeAll(ops, vs, 0);
    var pad := Zeros(AlignPad(|s|));
    PacketBits(ops, vs);
    UnpackConcat(Packet(ops, vs), more);
    SeqAssoc(s, pad, Unpack(more));
    AtStart(s, pad + Unpack(more));
    RoundTripAll(ops, vs, s + (pad + Unpack(more)), 0);
  }

  // ---- the measure ----

  /** The cost of the ladder from rung i, as a measure adds it up. */
  function RungCost(difference: nat, i: nat): nat
    requires i <= |BUCKETS|
    decreases |BUCKETS| - i
  {
    if i == |BUCKETS| then 32
    else if difference <= BUCKETS[i].max then 1 + BitLen(BUCKETS[i].max - BUCKETS[i].min)
    else 1 + RungCost(difference, i + 1)
  }

  lemma {:induction false} LadderCost(difference: nat, current: nat, i: nat)
    requires i <= |BUCKETS| && difference >= RungFloor(i)
    ensures |LadderBits(difference, current, i)| == RungCost(difference, i)
    decreases |BUCKETS| - i
  {
    if i < |BUCKETS| && difference > BUCKETS[i].max {
      RungTooSmall(difference, current, i);
      LadderCost(difference, current, i + 1);
    }
  }

  /** A measure is enough from every starting position, and over by at most 7 bits for each align it may pay. */
  lemma {:induction false} MeasureBounds(op: Op, v: Value, pos: nat)
    requires Legal(op, v)
    ensures |Encode(op, v, pos)| <= Measure(op, v) <= |Encode(op, v, pos)| + 7 * Aligns(op)
    decreases op, 1
  {
    hide EncodeAll, MeasureAll, AlignsAll, LegalAll, RelativeBits, Unpack, BitLen, WellFormed, HasNul;
    match op
    case Object(fields) => MeasureAllBounds(fields, v.values, pos);
    case _ =>
  }

  lemma {:induction false} MeasureAllBounds(ops: seq<Op>, vs: seq<Value>, pos: nat)
    requires LegalAll(ops, vs)
    ensures |EncodeAll(ops, vs, pos)| <= MeasureAll(ops, vs) <= |EncodeAll(ops, vs, pos)| + 7 * AlignsAll(ops)
    decreases ops, 0
  {
    hide Encode, Measure, Aligns, Legal;
    if ops != [] {
      MeasureBounds(ops[0], vs[0], pos);
      MeasureAllBounds(ops[1..], vs[1..], pos + |Encode(ops[0], vs[0], pos)|);
    }
  }

  lemma PacketLength(ops: seq<Op>, vs: seq<Value>)
    requires LegalAll(ops, vs)
    ensures |EncodeAll(ops, vs, 0)| <= 8 * |Packet(ops, vs)|
  {
    hide LegalAll, EncodeAll;
  }
}
