/** The bit writer: the same packing with an explicit word index and pending count. */
module BitWriters {
  import opened Bits
  import opened Words
  import opened Packing
  import opened WriteStreams

  lemma PositionAdvances(pos: nat, bits: nat)
    requires bits <= 64
    ensures var w, r := pos / 64, pos % 64;
            if r + bits >= 64 then (pos + bits) / 64 == w + 1 && (pos + bits) % 64 == r + bits - 64
            else (pos + bits) / 64 == w && (pos + bits) % 64 == r + bits
  {
  }

  /** Masking a value to its field keeps the field's bits. */
  lemma MaskedField(value: nat, bits: nat)
    requires bits <= 32
    ensures var masked := BitAnd(value, Pow2(bits) - 1);
            masked < Pow2(bits) <= TWO32 && ToBits(masked, bits) == ToBits(value, bits)
  {
    Pow2Widths();
    hide BitAnd, Pow2, ToBits;
    Pow2Monotone(bits, 32);
    AndMask(value, bits);
    ToBitsMod(value, bits);
  }

  class BitWriter {
    var data: array<byte>
    var scratch: uint64
    var numBits: nat
    var bitsWritten: nat
    var wordIndex: nat
    var scratchBits: nat
    ghost var written: seq<bool>
    ghost var origin: seq<byte>

    ghost predicate Valid()
      reads this, data
    {
      && numBits == 8 * data.Length
      && bitsWritten == |written| <= numBits
      && wordIndex == bitsWritten / 64 && scratchBits == bitsWritten % 64
      && Image(data[..], origin, written, scratch)
    }

    constructor (buffer: array<byte>)
      requires buffer.Length % 8 == 0
      ensures Valid() && data == buffer && written == [] && origin == buffer[..]
    {
      data := buffer;
      scratch := 0;
      numBits := buffer.Length * 8;
      bitsWritten := 0;
      wordIndex := 0;
      scratchBits := 0;
      written := [];
      origin := buffer[..];
    }

    twostate predicate Gains(bits: seq<bool>)
      reads this, data
    {
      && Valid()
      && data == old(data)
      && numBits == old(numBits)
      && origin == old(origin)
      && written == old(written) + bits
    }

    /** Packs the low bits of a value that need not be masked. */
    method PackBits(value: uint32, bits: nat)
      requires Valid() && bits <= 32 && bitsWritten + bits <= numBits
      modifies this, data
      ensures Gains(ToBits(value, bits))
    {
      hide Image, ToBits, FromBits, BitOr, BitAnd, Shl64, Shr, Unpack, Pow2;
      MaskedField(value, bits);
      PositionAdvances(bitsWritten, bits);
      var masked: uint32 := BitAnd(value, Pow2(bits) - 1);
      FieldMerges(data[..], origin, written, scratch, masked, bits);
      scratch := Merged(scratch, masked, scratchBits);
      var newScratchBits := scratchBits + bits;
      written := written + ToBits(value, bits);
      if newScratchBits >= 64 {
        PutUint64(data, wordIndex * 8, scratch);
        wordIndex := wordIndex + 1;
        scratch := Shr64(masked, 64 - scratchBits);
        scratchBits := newScratchBits - 64;
      } else {
        scratchBits := newScratchBits;
      }
      bitsWritten := bitsWritten + bits;
    }

    method WriteBits(value: uint32, bits: nat)
      requires Valid() && 1 <= bits <= 32 && value < Pow2(bits) && bitsWritten + bits <= numBits
      modifies this, data
      ensures Gains(ToBits(value, bits))
    {
      PackBits(value, bits);
    }

    method WriteAlign()
      requires Valid() && bitsWritten + AlignPad(bitsWritten) <= numBits
      modifies this, data
      ensures Gains(Zeros(AlignPad(old(bitsWritten))))
    {
      hide Image, ToBits, Pow2;
      var remainderBits := bitsWritten % 8;
      if remainderBits != 0 {
        ZeroBits(8 - remainderBits);
        WriteBits(0, 8 - remainderBits);
      } else {
        assert written == written + Zeros(0);
      }
    }

    method PackBytes(bytes: seq<byte>)
      requires Valid() && bitsWritten + 8 * |bytes| <= numBits
      modifies this, data
      ensures Gains(Unpack(bytes))
    {
      hide Image, ToBits, Pow2, Unpack;
      NothingUnpacked(written, bytes);
      for i := 0 to |bytes|
        invariant Gains(Unpack(bytes[..i]))
      {
        NextByte(old(written), bytes, i);
        PackBits(bytes[i], 8);
      }
      assert bytes[..|bytes|] == bytes;
    }

    method CopyWords(bytes: seq<byte>)
      requires Valid() && bitsWritten % 64 == 0 && |bytes| % 8 == 0 && bitsWritten + 8 * |bytes| <= numBits
      modifies this, data
      ensures Gains(Unpack(bytes))
    {
      hide Image, Unpack;
      WordsCopied(data[..], origin, written, scratch, bytes, wordIndex, |bytes| / 8);
      CopyBytes(data, wordIndex * 8, bytes);
      bitsWritten := bitsWritten + |bytes| / 8 * 64;
      wordIndex := wordIndex + |bytes| / 8;
      written := written + Unpack(bytes);
    }

    /** A byte run from a byte boundary: head, whole words, tail. */
    method WriteBytes(bytes: seq<byte>)
      requires Valid() && bitsWritten % 8 == 0 && bitsWritten + 8 * |bytes| <= numBits
      modifies this, data
      ensures Gains(Unpack(bytes))
    {
      hide Image, Unpack;
      var n := |bytes|;
      var toBoundary := (8 - bitsWritten % 64 / 8) % 8;
      var headBytes := if toBoundary < n then toBoundary else n;
      var end := headBytes + (n - headBytes) / 8 * 8;
      RunSplit(written, bytes, headBytes, end);
      HeadReachesBoundary(bitsWritten);
      PackBytes(bytes[..headBytes]);
      if headBytes == n {
        return;
      }
      if end > headBytes {
        CopyWords(bytes[headBytes..end]);
      }
      PackBytes(bytes[end..]);
    }

    method FlushBits()
      requires Valid()
      modifies this, data
      ensures data == old(data) && origin == old(origin) && written == old(written)
      ensures bitsWritten == old(bitsWritten) && Flushed(data[..], origin, written)
    {
      hide FromBits, Unpack, LeBytes, ToBits;
      ImageHasRoom(data[..], origin, written, scratch);
      ghost var w := wordIndex;
      ghost var before, pending := data[..], scratch;
      if scratchBits != 0 {
        PutUint64(data, wordIndex * 8, scratch);
        scratch := 0;
        scratchBits := 0;
        wordIndex := wordIndex + 1;
      }
      ImageFlushes(before, origin, written, pending, data[..], w);
    }
  }

  // ---- two writers, one wire ----

  /** A bit-level write; byte runs are written from a byte boundary. */
  datatype Command =
    | PutBits(value: uint32, width: nat)
    | PutAlign
    | PutBytes(bytes: seq<byte>)

  predicate Proper(c: Command, pos: nat) {
    match c
    case PutBits(value, width) => 1 <= width <= 32 && value < Pow2(width)
    case PutAlign => true
    case PutBytes(_) => pos % 8 == 0
  }

  function CommandBits(c: Command, pos: nat): seq<bool> {
    match c
    case PutBits(value, width) => ToBits(value, width)
    case PutAlign => Zeros(AlignPad(pos))
    case PutBytes(bytes) => Unpack(bytes)
  }

  /** Every command is proper where it lands, and together they fit in room bits. */
  predicate ProperRun(cs: seq<Command>, pos: nat, room: nat) {
    cs == [] ||
    (&& Proper(cs[0], pos)
     && var next := pos + |CommandBits(cs[0], pos)|;
     && next <= room && ProperRun(cs[1..], next, room))
  }

  /** One command through both writers. */
  method Step(c: Command, a: BitWriter, b: WriteStream)
    requires a.Valid() && b.Valid() && a.data != b.data && a.numBits == b.numBits && a.bitsWritten == b.bitsWritten
    requires Proper(c, a.bitsWritten) && a.bitsWritten + |CommandBits(c, a.bitsWritten)| <= a.numBits
    modifies a, b, a.data, b.data
    ensures a.Gains(CommandBits(c, old(a.bitsWritten))) && b.Gains(CommandBits(c, old(a.bitsWritten)))
  {
    hide Image, ToBits, Unpack, Pow2;
    match c {
      case PutBits(value, width) =>
        a.WriteBits(value, width);
        var _ := b.WriteBits(value, width);
      case PutAlign =>
        a.WriteAlign();
        var _ := b.SerializeAlign();
      case PutBytes(bytes) =>
        a.WriteBytes(bytes);
        b.WriteBytesStream(bytes);
    }
  }

  /** The two writers, run over the same commands from equal buffers, leave equal buffers. */
  method TwoWriters(cs: seq<Command>, a: BitWriter, b: WriteStream)
    requires a.Valid() && b.Valid() && a.data != b.data
    requires a.written == b.written && a.origin == b.origin && a.numBits == b.numBits
    requires ProperRun(cs, a.bitsWritten, a.numBits)
    modifies a, b, a.data, b.data
    ensures a.data == old(a.data) && b.data == old(b.data)
    ensures a.data[..] == b.data[..]
  {
    hide Image, Flushed, CommandBits, Proper;
    var i := 0;
    while i < |cs|
      invariant i <= |cs| && a.Valid() && b.Valid()
      invariant a.data == old(a.data) && b.data == old(b.data)
      invariant a.written == b.written && a.origin == b.origin && a.numBits == b.numBits
      invariant ProperRun(cs[i..], a.bitsWritten, a.numBits)
    {
      assert cs[i..][1..] == cs[i + 1..];
      Step(cs[i], a, b);
      i := i + 1;
    }
    a.FlushBits();
    b.Flush();
    FlushedIsDetermined(a.data[..], b.data[..], a.origin, a.written);
  }

  /** Copying a byte run as blocks and packing it byte by byte leave the same buffer and the same pending bits. */
  method BlockCopyEqualsPacking(bytes: seq<byte>, a: WriteStream, b: WriteStream)
    requires a.Valid() && b.Valid() && a != b && a.data != b.data
    requires a.written == b.written && a.origin == b.origin && a.numBits == b.numBits
    requires a.bitsWritten % 8 == 0 && a.bitsWritten + 8 * |bytes| <= a.numBits
    modifies a, b, a.data, b.data
    ensures a.data == old(a.data) && b.data == old(b.data)
    ensures a.data[..] == b.data[..] && a.scratch == b.scratch && a.bitsWritten == b.bitsWritten
  {
    hide Image, Unpack;
    a.WriteBytesStream(bytes);
    b.PackBytes(bytes);
    ImageIsDetermined(a.data[..], b.data[..], a.origin, a.written, a.scratch, b.scratch);
  }

  function Sum(widths: seq<nat>): nat {
    if widths == [] then 0 else widths[0] + Sum(widths[1..])
  }

  /** Each piece masked to its width, then the value shifted past it. */
  function Pieces(value: nat, widths: seq<nat>): seq<bool>
    decreases widths
  {
    if widths == [] then []
    else ToBits(value % Pow2(widths[0]), widths[0]) + Pieces(Shr(value, widths[0]), widths[1..])
  }

  /** One wide write is any split of it into smaller pieces, low bits first. */
  lemma {:induction false} SplitWrite(value: nat, widths: seq<nat>)
    ensures ToBits(value, Sum(widths)) == Pieces(value, widths)
    decreases widths
  {
    if widths != [] {
      ToBitsSplit(value, widths[0], Sum(widths[1..]));
      SplitWrite(Shr(value, widths[0]), widths[1..]);
      ToBitsMod(value, widths[0]);
    }
  }
}
