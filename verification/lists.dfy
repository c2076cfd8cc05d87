/**
 Sentinel-driven loops: a flag before every element of a sequence, and one more flag to end it. Continue sends true
 for another element, Until sends true for the end; mark is the flag that another element follows.
 */
module Lists {
  import opened Bits
  import opened Words
  import opened Packing
  import opened Wire
  import opened Codec
  import opened Messages
  import opened Ladders
  import opened WriteStreams
  import opened BitReaders
  import opened Destinations
  import opened ReadStreams

  // ---- one flag ----

  /** A flag was read, one bit of the stream, or the stream refuses and stands still with the flag as it was. */
  predicate FlagTaken(bits: seq<bool>, c: Cursor, flag: bool, c': Cursor, flag': bool) {
    if c.err.None? && c.pos < |bits| then c' == Cursor(c.pos + 1, None) && flag' == bits[c.pos]
    else c' == Cursor(c.pos, Some(if c.err.Some? then c.err.value else PastEnd)) && flag' == flag
  }

  lemma FlagIsTaken(bits: seq<bool>, c: Cursor, flag: bool, flag': bool)
    requires c.pos <= |bits|
    requires Num(if flag' then 1 else 0) == Got(c, Take(Op.Bool, bits, c.pos), Num(if flag then 1 else 0))
    ensures FlagTaken(bits, c, flag, After(c, Take(Op.Bool, bits, c.pos)), flag')
  {
    hide TakeNumeric, Take, At;
    FlagTake(bits, c.pos);
    FlagReads(bits, c.pos);
  }

  /** Continue on a read stream: false as soon as the stream has refused, and then the flag is as it was. */
  method Continue(s: ReadStream, more: bool) returns (proceed: bool, more': bool)
    requires s.Valid()
    modifies s`err, s.reader`bitsRead
    ensures s.Valid() && s.reader.padded == old(s.reader.padded) && s.reader.dataLen == old(s.reader.dataLen)
    ensures FlagTaken(s.Bits(), old(s.Here()), more, s.Here(), more') && proceed == (s.err.None? && more')
  {
    hide TailFilled, Unpack, Take;
    s.SourceLength();
    ghost var c := s.Here();
    var failure;
    more', failure := s.SerializeBool(more);
    FlagIsTaken(s.Bits(), c, more, more');
    proceed := failure.None? && more';
  }

  /** Until on a read stream: the same with the opposite polarity. */
  method Until(s: ReadStream, done: bool) returns (proceed: bool, done': bool)
    requires s.Valid()
    modifies s`err, s.reader`bitsRead
    ensures s.Valid() && s.reader.padded == old(s.reader.padded) && s.reader.dataLen == old(s.reader.dataLen)
    ensures FlagTaken(s.Bits(), old(s.Here()), done, s.Here(), done') && proceed == (s.err.None? && !done')
  {
    hide TailFilled, Unpack, Take;
    s.SourceLength();
    ghost var c := s.Here();
    var failure;
    done', failure := s.SerializeBool(done);
    FlagIsTaken(s.Bits(), c, done, done');
    proceed := failure.None? && !done';
  }

  /** The flag on a write stream: written, and the loop proceeds on its own value. */
  method ContinueWriting(s: WriteStream, more: bool) returns (proceed: bool, ok: bool)
    requires s.Valid()
    modifies s, s.data
    ensures ok == (old(s.bitsWritten) + 1 <= s.numBits)
    ensures if ok then s.Gains([more]) && proceed == more else s.Untouched()
  {
    ok := s.WriteBool(more);
    proceed := more;
  }

  method UntilWriting(s: WriteStream, done: bool) returns (proceed: bool, ok: bool)
    requires s.Valid()
    modifies s, s.data
    ensures ok == (old(s.bitsWritten) + 1 <= s.numBits)
    ensures if ok then s.Gains([done]) && proceed == !done else s.Untouched()
  {
    ok := s.WriteBool(done);
    proceed := !done;
  }

  // ---- a whole list on the wire ----

  predicate LegalList(element: seq<Op>, vs: seq<seq<Value>>) {
    forall v | v in vs :: LegalAll(element, v)
  }

  function EncodeList(element: seq<Op>, mark: bool, vs: seq<seq<Value>>, pos: nat): seq<bool>
    requires LegalList(element, vs)
  {
    if vs == [] then [!mark] else
      var first := EncodeAll(element, vs[0], pos + 1);
      [mark] + (first + EncodeList(element, mark, vs[1..], pos + 1 + |first|))
  }

  /** What a loop of reads took: the elements and the bit index after the last flag, or the first refusal. */
  datatype ListOutcome = Items(values: seq<seq<Value>>, next: nat) | Refused(reason: Refusal, next: nat)

  function TakeList(element: seq<Op>, mark: bool, bits: seq<bool>, pos: nat): (o: ListOutcome)
    requires pos <= |bits|
    ensures pos <= o.next <= |bits|
    decreases |bits| - pos
  {
    if pos == |bits| then Refused(PastEnd, pos)
    else if bits[pos] != mark then Items([], pos + 1)
    else match TakeAll(element, bits, pos + 1)
      case No(reason, next) => Refused(reason, next)
      case Ok(first, next) =>
        match TakeList(element, mark, bits, next)
        case Refused(reason, next') => Refused(reason, next')
        case Items(rest, next') => Items([first.values] + rest, next')
  }

  /** A written list reads back element for element, and the loop ends on its last flag. */
  lemma {:induction false} ListRoundTrip(element: seq<Op>, mark: bool, vs: seq<seq<Value>>, bits: seq<bool>, pos: nat)
    requires pos <= |bits| && LegalList(element, vs) && At(bits, pos, EncodeList(element, mark, vs, pos))
    ensures TakeList(element, mark, bits, pos) == Items(vs, pos + |EncodeList(element, mark, vs, pos)|)
    decreases vs
  {
    hide At, TakeAll, EncodeAll, LegalAll;
    if vs == [] {
      FlagReads(bits, pos);
    } else {
      var first := EncodeAll(element, vs[0], pos + 1);
      var rest := EncodeList(element, mark, vs[1..], pos + 1 + |first|);
      AtConcat(bits, pos, [mark], first + rest);
      AtConcat(bits, pos + 1, first, rest);
      FlagReads(bits, pos);
      AtGives(bits, pos + 1, first);
      RoundTripAll(element, vs[0], bits, pos + 1);
      ListRoundTrip(element, mark, vs[1..], bits, pos + 1 + |first|);
      assert [vs[0]] + vs[1..] == vs;
    }
  }

  predicate ListRead(element: seq<Op>, mark: bool, bits: seq<bool>, pos: nat)
    requires pos <= |bits| && TakeList(element, mark, bits, pos).Items?
  {
    var o := TakeList(element, mark, bits, pos);
    && LegalList(element, o.values)
    && At(bits, pos, EncodeList(element, mark, o.values, pos))
    && o.next == pos + |EncodeList(element, mark, o.values, pos)|
  }

  /** A list the loop accepted stands in the stream as the list of the elements read. */
  lemma {:induction false} ListCanonical(element: seq<Op>, mark: bool, bits: seq<bool>, pos: nat)
    requires pos <= |bits| && TakeList(element, mark, bits, pos).Items?
    ensures ListRead(element, mark, bits, pos)
    decreases |bits| - pos
  {
    hide At, TakeAll, EncodeAll, LegalAll;
    FlagReads(bits, pos);
    if bits[pos] == mark {
      var o := TakeAll(element, bits, pos + 1);
      CanonicalAll(element, bits, pos + 1);
      ListCanonical(element, mark, bits, o.next);
      var rest := TakeList(element, mark, bits, o.next).values;
      var first := EncodeAll(element, o.value.values, pos + 1);
      assert ([o.value.values] + rest)[1..] == rest;
      AtConcat(bits, pos + 1, first, EncodeList(element, mark, rest, o.next));
      AtConcat(bits, pos, [mark], first + EncodeList(element, mark, rest, o.next));
    }
  }

  // ---- the loops ----

  function Prepend(vs: seq<seq<Value>>, o: ListOutcome): ListOutcome {
    match o
    case Items(rest, next) => Items(vs + rest, next)
    case Refused(_, _) => o
  }

  /**
   The list from start on is the elements read and then, on a healthy stream, the list from here on. A stream that
   had refused before the loop stays where it was.
   */
  predicate Along(element: seq<Op>, mark: bool, bits: seq<bool>, start: Cursor, vs: seq<seq<Value>>, c: Cursor)
    requires start.pos <= |bits| && c.pos <= |bits|
  {
    if start.err.Some? then c == start && vs == []
    else
      TakeList(element, mark, bits, start.pos)
      == if c.err.Some? then Refused(c.err.value, c.pos) else Prepend(vs, TakeList(element, mark, bits, c.pos))
  }

  predicate Ended(element: seq<Op>, mark: bool, bits: seq<bool>, start: Cursor, vs: seq<seq<Value>>, c: Cursor)
    requires start.pos <= |bits|
  {
    if start.err.Some? then c == start && vs == []
    else
      TakeList(element, mark, bits, start.pos)
      == if c.err.Some? then Refused(c.err.value, c.pos) else Items(vs, c.pos)
  }

  /** What one flag does to a loop: on to an element, or the end. */
  lemma FlagDecides(element: seq<Op>, mark: bool, bits: seq<bool>, start: Cursor, vs: seq<seq<Value>>,
                    c: Cursor, flag: bool, c': Cursor, flag': bool)
    requires start.pos <= |bits| && c.pos <= |bits| && FlagTaken(bits, c, flag, c', flag')
    requires Along(element, mark, bits, start, vs, c)
    ensures c'.err.None? && flag' == mark ==>
              c.err.None? && c'.pos == c.pos + 1 <= |bits| && bits[c.pos] == mark
    ensures !(c'.err.None? && flag' == mark) ==> Ended(element, mark, bits, start, vs, c')
  {
    hide TakeAll;
    assert vs + [] == vs;
  }

  /** One element read: the loop goes on behind it, or has its refusal. */
  lemma ElementTaken(element: seq<Op>, mark: bool, bits: seq<bool>, start: Cursor, vs: seq<seq<Value>>, pos: nat)
    requires start.pos <= |bits| && pos < |bits| && bits[pos] == mark
    requires Along(element, mark, bits, start, vs, Cursor(pos, None))
    ensures var o := TakeAll(element, bits, pos + 1);
            Along(element, mark, bits, start, if o.Ok? then vs + [o.value.values] else vs,
                  After(Cursor(pos + 1, None), o))
  {
    hide TakeAll;
    var o := TakeAll(element, bits, pos + 1);
    if o.Ok? {
      var rest := TakeList(element, mark, bits, o.next);
      if rest.Items? {
        SeqAssoc(vs, [o.value.values], rest.values);
      }
    }
  }

  lemma NothingYet(element: seq<Op>, mark: bool, bits: seq<bool>, start: Cursor)
    requires start.pos <= |bits|
    ensures Along(element, mark, bits, start, [], start)
  {
    hide TakeList;
    var o := TakeList(element, mark, bits, start.pos);
    assert o.Items? ==> [] + o.values == o.values;
  }

  /** The loop's condition: Continue or Until, as the wire has it. */
  method NextFlag(ghost element: seq<Op>, mark: bool, flag: bool, ghost bits: seq<bool>, ghost start: Cursor,
                  ghost vs: seq<seq<Value>>, s: ReadStream)
    returns (flag': bool, proceed: bool)
    requires s.Valid() && bits == s.Bits() && start.pos <= |bits| && s.reader.bitsRead <= |bits|
    requires Along(element, mark, bits, start, vs, s.Here())
    modifies s`err, s.reader`bitsRead
    ensures s.Valid() && s.reader.padded == old(s.reader.padded) && s.reader.dataLen == old(s.reader.dataLen)
    ensures old(s.reader.bitsRead) <= s.reader.bitsRead <= |bits|
    ensures proceed ==> && old(s.err).None? && s.Here() == Cursor(old(s.reader.bitsRead) + 1, None)
                        && bits[old(s.reader.bitsRead)] == mark
    ensures !proceed ==> Ended(element, mark, bits, start, vs, s.Here())
  {
    hide TailFilled, Unpack, TakeAll, TakeList, Along, Ended;
    ghost var c := s.Here();
    if mark {
      proceed, flag' := Continue(s, flag);
    } else {
      proceed, flag' := Until(s, flag);
    }
    s.SourceLength();
    FlagDecides(element, mark, bits, start, vs, c, flag, s.Here(), flag');
  }

  /**
   A loop over Continue (mark true) or Until (mark false), each element read into fresh variables and kept. It ends
   on every packet, after no more rounds than the packet has bits left, with the elements the wire holds.
   */
  method ReadList(element: seq<Op>, mark: bool, blank: seq<Value>, s: ReadStream)
    returns (values: seq<seq<Value>>, rounds: nat)
    requires s.Valid() && HoldsAll(StoragesOf(element), blank)
    modifies s`err, s.reader`bitsRead
    ensures s.Valid() && s.reader.padded == old(s.reader.padded) && s.reader.dataLen == old(s.reader.dataLen)
    ensures rounds <= |s.Bits()| - old(s.reader.bitsRead)
    ensures Ended(element, mark, s.Bits(), old(s.Here()), values, s.Here())
  {
    hide TailFilled, Unpack, TakeAll, TakeList, KeptAll, HoldsAll, StoragesOf, Along, Ended, FlagTaken;
    s.SourceLength();
    values, rounds := [], 0;
    ghost var bits, start := s.Bits(), s.Here();
    NothingYet(element, mark, bits, start);
    var flag, proceed := NextFlag(element, mark, mark, bits, start, values, s);
    while proceed
      invariant s.Valid() && s.reader.padded == old(s.reader.padded) && s.reader.dataLen == old(s.reader.dataLen)
      invariant s.reader.bitsRead <= |bits| && start.pos + rounds + (if proceed then 1 else 0) <= s.reader.bitsRead
      invariant proceed ==> && s.err.None? && bits[s.reader.bitsRead - 1] == mark
                            && Along(element, mark, bits, start, values, Cursor(s.reader.bitsRead - 1, None))
      invariant !proceed ==> Ended(element, mark, bits, start, values, s.Here())
      decreases |bits| - s.reader.bitsRead, proceed
    {
      rounds := rounds + 1;
      ghost var at := s.Here();
      ElementTaken(element, mark, bits, start, values, at.pos - 1);
      var item, failure := s.SerializeObject(element, blank);
      s.SourceLength();
      if failure.None? {
        AcceptedDeliversAll(element, bits, at, blank);
        values := values + [item];
      }
      flag, proceed := NextFlag(element, mark, flag, bits, start, values, s);
    }
  }

  method NextFlagWriting(mark: bool, more: bool, s: WriteStream) returns (proceed: bool, ok: bool)
    requires s.Valid()
    modifies s, s.data
    ensures ok == (old(s.bitsWritten) + 1 <= s.numBits)
    ensures if ok then s.Gains([more == mark]) && proceed == more else s.Untouched()
  {
    if mark {
      proceed, ok := ContinueWriting(s, more);
    } else {
      proceed, ok := UntilWriting(s, !more);
    }
  }

  /** What one round of the writer's loop puts on the wire: the flag, and the element when there is one. */
  function RoundBits(element: seq<Op>, mark: bool, vs: seq<seq<Value>>, pos: nat): seq<bool>
    requires LegalList(element, vs)
  {
    if vs == [] then [!mark] else [mark] + EncodeAll(element, vs[0], pos + 1)
  }

  lemma ListUnfolds(element: seq<Op>, mark: bool, vs: seq<seq<Value>>, pos: nat, prefix: seq<bool>)
    requires LegalList(element, vs)
    ensures var round, all := RoundBits(element, mark, vs, pos), EncodeList(element, mark, vs, pos);
            && prefix + round <= prefix + all
            && (vs == [] ==> prefix + all == prefix + round)
            && (vs != [] ==> prefix + all == prefix + round + EncodeList(element, mark, vs[1..], pos + |round|))
  {
    hide EncodeAll, LegalAll;
  }

  /** The flag before an element, set from whether one follows, and the element. */
  method WriteRound(element: seq<Op>, mark: bool, vs: seq<seq<Value>>, s: WriteStream) returns (proceed: bool, ok: bool)
    requires s.Valid() && LegalList(element, vs)
    modifies s, s.data
    ensures var bits := RoundBits(element, mark, vs, old(s.bitsWritten));
            && ok == (old(s.bitsWritten) + |bits| <= s.numBits)
            && if ok then s.Gains(bits) && proceed == (vs != []) else s.Trapped(bits)
  {
    hide Image, EncodeAll, LegalAll;
    proceed, ok := NextFlagWriting(mark, vs != [], s);
    if ok && proceed {
      SeqAssoc(old(s.written), [mark], EncodeAll(element, vs[0], s.bitsWritten));
      ok := s.SerializeObject(element, vs[0]);
    }
  }

  lemma StillWithin<T>(a: seq<T>, b: seq<T>, c: seq<T>)
    requires a < b <= c
    ensures a < c
  {
  }

  /** A round of a list of which all is still to come: it leaves the rest of the list, or traps within it. */
  method WriteNext(element: seq<Op>, mark: bool, vs: seq<seq<Value>>, s: WriteStream, ghost all: seq<bool>)
    returns (proceed: bool, ok: bool)
    requires s.Valid() && LegalList(element, vs) && all == s.written + EncodeList(element, mark, vs, s.bitsWritten)
    modifies s, s.data
    ensures s.Valid() && s.data == old(s.data) && s.numBits == old(s.numBits) && s.origin == old(s.origin)
    ensures old(s.written) <= s.written
    ensures ok ==> proceed == (vs != [])
    ensures ok && proceed ==> all == s.written + EncodeList(element, mark, vs[1..], s.bitsWritten)
    ensures ok && !proceed ==> all == s.written
    ensures !ok ==> s.written < all && |all| > s.numBits
  {
    hide Image, EncodeAll, LegalAll, EncodeList, RoundBits, LegalList;
    ghost var was, round := s.written, RoundBits(element, mark, vs, s.bitsWritten);
    ListUnfolds(element, mark, vs, s.bitsWritten, s.written);
    proceed, ok := WriteRound(element, mark, vs, s);
    if !ok {
      StillWithin(s.written, was + round, all);
    }
  }

  lemma PrefixOfPrefix<T>(a: seq<T>, b: seq<T>, c: seq<T>)
    requires a <= b <= c
    ensures a <= c
  {
  }

  lemma DropOne<T>(s: seq<T>, i: nat)
    requires i <= |s|
    ensures i < |s| ==> s[i..][1..] == s[i + 1..]
  {
  }

  /** The writer's loop, over Continue or Until. */
  method WriteList(element: seq<Op>, mark: bool, vs: seq<seq<Value>>, s: WriteStream) returns (ok: bool)
    requires s.Valid() && LegalList(element, vs)
    modifies s, s.data
    ensures var bits := EncodeList(element, mark, vs, old(s.bitsWritten));
            && ok == (old(s.bitsWritten) + |bits| <= s.numBits)
            && if ok then s.Gains(bits) else s.Trapped(bits)
  {
    hide Image, EncodeList, LegalAll;
    ghost var all := s.written + EncodeList(element, mark, vs, s.bitsWritten);
    var i, proceed := 0, true;
    assert vs[0..] == vs;
    while proceed
      invariant i <= |vs| && LegalList(element, vs[i..])
      invariant s.Valid() && s.data == old(s.data) && s.numBits == old(s.numBits) && s.origin == old(s.origin)
      invariant old(s.written) <= s.written
      invariant all == if proceed then s.written + EncodeList(element, mark, vs[i..], s.bitsWritten) else s.written
      decreases |vs| - i, proceed
    {
      ghost var was := s.written;
      DropOne(vs, i);
      proceed, ok := WriteNext(element, mark, vs[i..], s, all);
      PrefixOfPrefix(old(s.written), was, s.written);
      if !ok {
        return;
      }
      if proceed {
        i := i + 1;
      }
    }
    ok := true;
  }

  /** A list written into a buffer with room, flushed, and read back is the list sent. */
  method SendAndReceiveList(element: seq<Op>, mark: bool, vs: seq<seq<Value>>, buffer: array<byte>, blank: seq<Value>)
    returns (values: seq<seq<Value>>, stream: ReadStream)
    requires LegalList(element, vs) && HoldsAll(StoragesOf(element), blank)
    requires buffer.Length % 8 == 0 && |EncodeList(element, mark, vs, 0)| <= 8 * buffer.Length
    modifies buffer
    ensures values == vs && stream.Here() == Cursor(|EncodeList(element, mark, vs, 0)|, None)
  {
    hide Image, Flushed, Unpack, LegalAll, EncodeList, TakeList, TailFilled, HoldsAll, StoragesOf, At;
    var writer := new WriteStream(buffer);
    var _ := WriteList(element, mark, vs, writer);
    writer.Flush();
    var packet := writer.Data();
    ghost var list := EncodeList(element, mark, vs, 0);
    assert writer.written == list;
    var backing := new byte[|packet|];
    CopyBytes(backing, 0, packet);
    assert backing[..|packet|] == packet;
    stream := new ReadStream(backing, |packet|);
    AtStart(list, Zeros(AlignPad(|list|)));
    ListRoundTrip(element, mark, vs, Unpack(packet), 0);
    var received, _ := ReadList(element, mark, blank, stream);
    values := received;
  }
}
